/** The string operations several parsers share. */
module Text {
  import opened Wrappers
  import opened Utf8

  /** Position of the first `c`. */
  function IndexOf<T(==)>(s: seq<T>, c: T): (r: Option<nat>)
    ensures r.Some? ==> r.value < |s| && s[r.value] == c && c !in s[..r.value]
    ensures r.None? ==> c !in s
  {
    if s == [] then None
    else if s[0] == c then Some(0)
    else
      var i :- IndexOf(s[1..], c);
      assert s[..i + 1] == [s[0]] + s[1..][..i];
      Some(i + 1)
  }

  /** `s.split(c)`: the pieces between the separators, at least one. */
  function Split<T(==)>(s: seq<T>, c: T): (r: seq<seq<T>>)
    ensures |r| > 0
  {
    match IndexOf(s, c)
    case None => [s]
    case Some(i) => [s[..i]] + Split(s[i + 1..], c)
  }

  lemma {:induction false} IndexOfIs<T>(a: seq<T>, c: T, b: seq<T>)
    requires c !in a
    ensures IndexOf(a + [c] + b, c) == Some(|a|)
    decreases |a|
  {
    if a != [] {
      assert (a + [c] + b)[1..] == a[1..] + [c] + b;
      IndexOfIs(a[1..], c, b);
    }
  }

  lemma {:induction false} SplitFirst<T>(a: seq<T>, c: T, b: seq<T>)
    requires c !in a
    ensures Split(a + [c] + b, c) == [a] + Split(b, c)
  {
    var s := a + [c] + b;
    IndexOfIs(a, c, b);
    assert s[..|a|] == a && s[|a| + 1..] == b;
  }

  lemma {:induction false} SplitOnly<T>(a: seq<T>, c: T)
    requires c !in a
    ensures Split(a, c) == [a]
  {
    assert IndexOf(a, c).Some? ==> c in a;
  }

  /** `s.strip_prefix(prefix)` */
  function StripPrefix(s: string, prefix: string): Option<string> {
    if prefix <= s then Some(s[|prefix|..]) else None
  }

  lemma {:induction false} StripPrefixIs(prefix: string, rest: string)
    ensures StripPrefix(prefix + rest, prefix) == Some(rest)
  {
    assert (prefix + rest)[|prefix|..] == rest;
  }

  predicate IsAscii(s: string) {
    forall i :: 0 <= i < |s| ==> s[i] as int < 0x80
  }

  /** The bytes of ASCII text are its characters. */
  lemma {:induction false} AsciiBytes(s: string)
    requires IsAscii(s)
    ensures |Encode(s)| == |s| && forall i :: 0 <= i < |s| ==> Encode(s)[i] == s[i] as int
  {
    if s != "" {
      AsciiBytes(s[1..]);
    }
  }

  /** Unicode general category Cc. */
  predicate IsControl(c: char) {
    c as int < 0x20 || 0x7F <= c as int <= 0x9F
  }

  predicate HasControl(s: string) {
    exists i :: 0 <= i < |s| && IsControl(s[i])
  }

  function Filter<T>(s: seq<T>, keep: T -> bool): (r: seq<T>)
    ensures |r| <= |s|
    ensures forall i :: 0 <= i < |r| ==> r[i] in s && keep(r[i])
  {
    if s == [] then [] else (if keep(s[0]) then [s[0]] else []) + Filter(s[1..], keep)
  }

  lemma {:induction false} FilterHas<T>(s: seq<T>, keep: T -> bool, x: T)
    ensures x in Filter(s, keep) <==> x in s && keep(x)
  {
    if s != [] {
      FilterHas(s[1..], keep, x);
      assert x in s <==> x == s[0] || x in s[1..];
    }
  }

  lemma {:induction false} FilterAll<T>(s: seq<T>, keep: T -> bool)
    requires forall i :: 0 <= i < |s| ==> keep(s[i])
    ensures Filter(s, keep) == s
  {
    if s != [] {
      FilterAll(s[1..], keep);
    }
  }

  /** `s.chars().filter(keep).take(max)` */
  function Sanitize(s: string, keep: char -> bool, max: nat): string {
    var t := Filter(s, keep);
    if |t| <= max then t else t[..max]
  }

  lemma {:induction false} SanitizeTwice(s: string, keep: char -> bool, max: nat)
    ensures var t := Sanitize(s, keep, max);
      && |t| <= max && (forall i :: 0 <= i < |t| ==> keep(t[i]))
      && Sanitize(t, keep, max) == t
  {
    var t := Sanitize(s, keep, max);
    FilterAll(t, keep);
  }

  /** A text is its own sanitized form exactly when everything is to be kept and it is short enough. */
  lemma {:induction false} SanitizeExactly(s: string, keep: char -> bool, max: nat)
    ensures Sanitize(s, keep, max) == s <==> |s| <= max && forall i :: 0 <= i < |s| ==> keep(s[i])
  {
    if forall i :: 0 <= i < |s| ==> keep(s[i]) {
      FilterAll(s, keep);
    }
    if Sanitize(s, keep, max) == s {
      SanitizeTwice(s, keep, max);
    }
  }

  lemma {:induction false} FilterBoth<T>(a: seq<T>, b: seq<T>, keep: T -> bool)
    ensures Filter(a + b, keep) == Filter(a, keep) + Filter(b, keep)
  {
    if a == [] {
      assert a + b == b;
    } else {
      assert (a + b)[1..] == a[1..] + b;
      FilterBoth(a[1..], b, keep);
    }
  }

  lemma {:induction false} FilterDrops<T>(a: seq<T>, c: T, b: seq<T>, keep: T -> bool)
    requires !keep(c)
    ensures Filter(a + [c] + b, keep) == Filter(a + b, keep)
  {
    if a == [] {
      assert (a + [c] + b)[1..] == b && a + b == b;
    } else {
      assert (a + [c] + b)[1..] == a[1..] + [c] + b && (a + b)[1..] == a[1..] + b;
      FilterDrops(a[1..], c, b, keep);
    }
  }

  lemma {:induction false} SanitizeDrops(a: string, c: char, b: string, keep: char -> bool, max: nat)
    requires !keep(c)
    ensures Sanitize(a + [c] + b, keep, max) == Sanitize(a + b, keep, max)
  {
    FilterDrops(a, c, b, keep);
  }

  lemma {:induction false} SanitizeCuts(a: string, b: string, keep: char -> bool)
    requires forall i :: 0 <= i < |a| ==> keep(a[i])
    ensures Sanitize(a + b, keep, |a|) == a
  {
    FilterBoth(a, b, keep);
    FilterAll(a, keep);
  }
}
