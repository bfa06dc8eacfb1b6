/** The positional byte layout the handoff document relies on (crates/mux_ipc/src/handoff.rs:630):
    fixed-width little-endian integers, 64-bit lengths, one-byte flags and option tags, 32-bit variant
    indices, no field names, trailing bytes left over. Values and shapes are generic, so that the
    layout's laws are proved once for every document version. */
module Bincode {
  import opened Integers
  import opened Wrappers
  import opened LittleEndian
  import opened Utf8

  /** A record of any length is its fields nested to the right, which leaves no trace in the bytes. */
  datatype Shape =
    | Unsigned(bytes: nat)
    | Signed32
    | Bool
    | Text
    | Variant(count: nat)
    | Optional(inner: Shape)
    | Vector(inner: Shape)
    | Fields(first: Shape, rest: Shape)

  datatype Value =
    | Number(n: int)
    | Flag(on: bool)
    | Chars(s: string)
    | Absent
    | Present(v: Value)
    | Items(vs: seq<Value>)
    | Struct(head: Value, tail: Value)

  // ----- shapes -----

  /** The values of a shape. */
  ghost predicate Fits(t: Shape, v: Value)
    decreases t, 0
  {
    match t
    case Unsigned(k) => v.Number? && 0 <= v.n < Pow256(k)
    case Signed32 => v.Number? && -0x8000_0000 <= v.n < 0x8000_0000
    case Bool => v.Flag?
    case Text => v.Chars? && |Utf8.Encode(v.s)| < Pow256(8)
    case Variant(count) => v.Number? && 0 <= v.n < count && v.n < Pow256(4)
    case Optional(inner) => v.Absent? || (v.Present? && Fits(inner, v.v))
    case Vector(inner) => v.Items? && |v.vs| < Pow256(8) && AllFit(inner, v.vs)
    case Fields(first, rest) => v.Struct? && Fits(first, v.head) && Fits(rest, v.tail)
  }

  ghost predicate AllFit(inner: Shape, vs: seq<Value>)
    decreases inner, 1, |vs|
  {
    vs == [] || (Fits(inner, vs[0]) && AllFit(inner, vs[1..]))
  }

  function Encode(t: Shape, v: Value): seq<byte>
    requires Fits(t, v)
    decreases t, 0
  {
    match t
    case Unsigned(k) => ToLittleEndian(k, v.n)
    case Signed32 => ToLittleEndian(4, v.n % LIMIT32)
    case Bool => [if v.on then 1 else 0]
    case Text => ToLittleEndian(8, |Utf8.Encode(v.s)|) + Utf8.Encode(v.s)
    case Variant(_) => ToLittleEndian(4, v.n)
    case Optional(inner) => if v.Absent? then [0] else [1] + Encode(inner, v.v)
    case Vector(inner) => ToLittleEndian(8, |v.vs|) + EncodeAll(inner, v.vs)
    case Fields(first, rest) => Encode(first, v.head) + Encode(rest, v.tail)
  }

  function EncodeAll(inner: Shape, vs: seq<Value>): seq<byte>
    requires AllFit(inner, vs)
    decreases inner, 1, |vs|
  {
    if vs == [] then [] else Encode(inner, vs[0]) + EncodeAll(inner, vs[1..])
  }

  /** A value and the bytes left over, or nothing. */
  type Decoded<T> = Option<(T, seq<byte>)>

  function DecodeUnsigned(k: nat, b: seq<byte>): Decoded<nat> {
    if |b| < k then None else Some((FromLittleEndian(b[..k]), b[k..]))
  }

  function Decode(t: Shape, b: seq<byte>): Decoded<Value>
    decreases t, 0
  {
    match t
    case Unsigned(k) =>
      var (n, rest) :- DecodeUnsigned(k, b);
      Some((Number(n), rest))
    case Signed32 =>
      var (n, rest) :- DecodeUnsigned(4, b);
      Some((Number(if n < 0x8000_0000 then n else n - LIMIT32), rest))
    case Bool =>
      if b == [] || b[0] > 1 then None else Some((Flag(b[0] == 1), b[1..]))
    case Text =>
      var (n, rest) :- DecodeUnsigned(8, b);
      if |rest| < n then None
      else
        var s :- Utf8.Decode(rest[..n]);
        Some((Chars(s), rest[n..]))
    case Variant(count) =>
      var (n, rest) :- DecodeUnsigned(4, b);
      if n < count then Some((Number(n), rest)) else None
    case Optional(inner) =>
      if b == [] || b[0] > 1 then None
      else if b[0] == 0 then Some((Absent, b[1..]))
      else
        var (v, rest) :- Decode(inner, b[1..]);
        Some((Present(v), rest))
    case Vector(inner) =>
      var (n, r) :- DecodeUnsigned(8, b);
      var (vs, rest) :- DecodeAll(inner, n, r);
      Some((Items(vs), rest))
    case Fields(first, second) =>
      var (v, r) :- Decode(first, b);
      var (w, rest) :- Decode(second, r);
      Some((Struct(v, w), rest))
  }

  function DecodeAll(inner: Shape, n: nat, b: seq<byte>): Decoded<seq<Value>>
    decreases inner, 1, n
  {
    if n == 0 then Some(([], b))
    else
      var (v, r) :- Decode(inner, b);
      var (vs, rest) :- DecodeAll(inner, n - 1, r);
      Some(([v] + vs, rest))
  }

  // ----- every value is read back, whatever follows it -----

  lemma {:induction false} AppendAssoc(a: seq<byte>, b: seq<byte>, c: seq<byte>)
    ensures a + b + c == a + (b + c)
  {
  }

  lemma {:induction false} UnsignedRoundTrip(k: nat, n: nat, rest: seq<byte>)
    requires n < Pow256(k)
    ensures DecodeUnsigned(k, ToLittleEndian(k, n) + rest) == Some((n, rest))
  {
    FromTo(k, n);
    var e := ToLittleEndian(k, n);
    assert (e + rest)[..k] == e && (e + rest)[k..] == rest;
  }

  lemma {:induction false} TextRoundTrip(s: string, rest: seq<byte>)
    requires |Utf8.Encode(s)| < Pow256(8)
    ensures Decode(Text, ToLittleEndian(8, |Utf8.Encode(s)|) + Utf8.Encode(s) + rest) == Some((Chars(s), rest))
  {
    var e := Utf8.Encode(s);
    UnsignedRoundTrip(8, |e|, e + rest);
    AppendAssoc(ToLittleEndian(8, |e|), e, rest);
    assert (e + rest)[..|e|] == e && (e + rest)[|e|..] == rest;
    Utf8.DecodeEncode(s);
  }

  predicate IsLeaf(t: Shape) {
    !t.Optional? && !t.Vector? && !t.Fields?
  }

  lemma {:induction false} LeafRoundTrip(t: Shape, v: Value, rest: seq<byte>)
    requires IsLeaf(t) && Fits(t, v)
    ensures Decode(t, Encode(t, v) + rest) == Some((v, rest))
  {
    match t
    case Unsigned(k) => UnsignedRoundTrip(k, v.n, rest);
    case Signed32 =>
      Widths();
      UnsignedRoundTrip(4, v.n % LIMIT32, rest);
    case Bool =>
    case Text => TextRoundTrip(v.s, rest);
    case Variant(_) => UnsignedRoundTrip(4, v.n, rest);
  }

  lemma {:induction false} RoundTrip(t: Shape, v: Value, rest: seq<byte>)
    requires Fits(t, v)
    ensures Decode(t, Encode(t, v) + rest) == Some((v, rest))
    decreases t, 0
  {
    match t
    case Optional(inner) =>
      if v.Present? {
        RoundTrip(inner, v.v, rest);
        AppendAssoc([1], Encode(inner, v.v), rest);
        assert ([1] + (Encode(inner, v.v) + rest))[1..] == Encode(inner, v.v) + rest;
      }
    case Vector(inner) =>
      AppendAssoc(ToLittleEndian(8, |v.vs|), EncodeAll(inner, v.vs), rest);
      UnsignedRoundTrip(8, |v.vs|, EncodeAll(inner, v.vs) + rest);
      AllRoundTrip(inner, v.vs, rest);
    case Fields(first, second) =>
      var e, f := Encode(first, v.head), Encode(second, v.tail);
      AppendAssoc(e, f, rest);
      RoundTrip(first, v.head, f + rest);
      RoundTrip(second, v.tail, rest);
    case _ => LeafRoundTrip(t, v, rest);
  }

  lemma {:induction false} AllRoundTrip(inner: Shape, vs: seq<Value>, rest: seq<byte>)
    requires AllFit(inner, vs)
    ensures DecodeAll(inner, |vs|, EncodeAll(inner, vs) + rest) == Some((vs, rest))
    decreases inner, 1, |vs|
  {
    if vs == [] {
      assert EncodeAll(inner, vs) + rest == rest;
    } else {
      var e, es := Encode(inner, vs[0]), EncodeAll(inner, vs[1..]);
      AppendAssoc(e, es, rest);
      RoundTrip(inner, vs[0], es + rest);
      AllRoundTrip(inner, vs[1..], rest);
      assert [vs[0]] + vs[1..] == vs;
    }
  }

  // ----- whatever is read back is an encoding -----

  lemma {:induction false} UnsignedCanonical(k: nat, b: seq<byte>)
    requires DecodeUnsigned(k, b).Some?
    ensures var (n, rest) := DecodeUnsigned(k, b).value;
      n < Pow256(k) && b == ToLittleEndian(k, n) + rest
  {
    ToFrom(b[..k]);
    assert b == b[..k] + b[k..];
  }

  /** A length or tag in front of what follows it. */
  lemma {:induction false} PrefixedCanonical(k: nat, b: seq<byte>, n: nat, r: seq<byte>,
                                             body: seq<byte>, rest: seq<byte>)
    requires DecodeUnsigned(k, b) == Some((n, r)) && r == body + rest
    ensures n < Pow256(k) && b == ToLittleEndian(k, n) + body + rest
  {
    UnsignedCanonical(k, b);
    AppendAssoc(ToLittleEndian(k, n), body, rest);
  }

  lemma {:induction false} TextCanonical(b: seq<byte>, n: nat, r: seq<byte>, s: string, rest: seq<byte>)
    requires DecodeUnsigned(8, b) == Some((n, r)) && n <= |r|
    requires Utf8.Decode(r[..n]) == Some(s) && rest == r[n..]
    ensures |Utf8.Encode(s)| == n < Pow256(8)
    ensures b == ToLittleEndian(8, n) + Utf8.Encode(s) + rest
  {
    Utf8.EncodeDecode(r[..n]);
    PrefixedCanonical(8, b, n, r, r[..n], rest);
  }

  lemma {:induction false} PresentCanonical(inner: Shape, b: seq<byte>, v: Value, rest: seq<byte>)
    requires b != [] && b[0] == 1 && Fits(inner, v) && b[1..] == Encode(inner, v) + rest
    ensures b == Encode(Optional(inner), Present(v)) + rest
  {
    assert b == [1] + b[1..];
    AppendAssoc([1], Encode(inner, v), rest);
  }

  lemma {:induction false} OneByte(b: seq<byte>)
    requires b != []
    ensures b == [b[0]] + b[1..]
  {
  }

  lemma {:induction false} SignedCanonical(b: seq<byte>, n: nat, rest: seq<byte>)
    requires DecodeUnsigned(4, b) == Some((n, rest))
    ensures n < LIMIT32 && b == ToLittleEndian(4, n) + rest
  {
    Widths();
    UnsignedCanonical(4, b);
  }

  lemma {:induction false} LeafCanonical(t: Shape, b: seq<byte>)
    requires IsLeaf(t) && Decode(t, b).Some?
    ensures var (v, rest) := Decode(t, b).value;
      Fits(t, v) && b == Encode(t, v) + rest
  {
    match t
    case Unsigned(k) => UnsignedCanonical(k, b);
    case Signed32 =>
      var (n, r) := DecodeUnsigned(4, b).value;
      SignedCanonical(b, n, r);
    case Bool => OneByte(b);
    case Text =>
      var (n, r) := DecodeUnsigned(8, b).value;
      TextCanonical(b, n, r, Decode(t, b).value.0.s, r[n..]);
    case Variant(_) => UnsignedCanonical(4, b);
  }

  lemma {:induction false} Canonical(t: Shape, b: seq<byte>)
    requires Decode(t, b).Some?
    ensures var (v, rest) := Decode(t, b).value;
      Fits(t, v) && b == Encode(t, v) + rest
    decreases t, 0
  {
    var (v, rest) := Decode(t, b).value;
    match t
    case Optional(inner) =>
      OneByte(b);
      if b[0] == 1 {
        Canonical(inner, b[1..]);
        PresentCanonical(inner, b, v.v, rest);
      }
    case Vector(inner) =>
      var (n, r) := DecodeUnsigned(8, b).value;
      AllCanonical(inner, n, r);
      PrefixedCanonical(8, b, n, r, EncodeAll(inner, v.vs), rest);
    case Fields(first, second) =>
      Canonical(first, b);
      var (w, r) := Decode(first, b).value;
      Canonical(second, r);
      AppendAssoc(Encode(first, v.head), Encode(second, v.tail), rest);
    case _ => LeafCanonical(t, b);
  }

  lemma {:induction false} AllCanonical(inner: Shape, n: nat, b: seq<byte>)
    requires DecodeAll(inner, n, b).Some?
    ensures var (vs, rest) := DecodeAll(inner, n, b).value;
      |vs| == n && AllFit(inner, vs) && b == EncodeAll(inner, vs) + rest
    decreases inner, 1, n
  {
    var (vs, rest) := DecodeAll(inner, n, b).value;
    if n == 0 {
      assert b == [] + rest;
    } else {
      Canonical(inner, b);
      var (v, r) := Decode(inner, b).value;
      AllCanonical(inner, n - 1, r);
      assert vs[1..] == DecodeAll(inner, n - 1, r).value.0;
      AppendAssoc(Encode(inner, v), EncodeAll(inner, vs[1..]), rest);
    }
  }

  /** No encoding is a strict prefix of another. */
  lemma {:induction false} PrefixFree(t: Shape, v: Value, w: Value, tail: seq<byte>)
    requires Fits(t, v) && Fits(t, w) && Encode(t, v) == Encode(t, w) + tail
    ensures v == w && tail == []
  {
    RoundTrip(t, w, tail);
    RoundTrip(t, v, []);
    assert Encode(t, v) + [] == Encode(t, v);
  }

  lemma {:induction false} NotShorter(t: Shape, v: Value, w: Value, rest: seq<byte>, tail: seq<byte>)
    requires Fits(t, v) && Fits(t, w) && Encode(t, v) == Encode(t, w) + rest + tail
    ensures tail == []
  {
    AppendAssoc(Encode(t, w), rest, tail);
    PrefixFree(t, v, w, rest + tail);
  }

  /** No strict prefix of an encoding decodes. */
  lemma {:induction false} NoPrefixDecodes(t: Shape, v: Value, p: seq<byte>, q: seq<byte>)
    requires Fits(t, v) && Encode(t, v) == p + q && q != []
    ensures Decode(t, p) == None
  {
    if Decode(t, p).Some? {
      Canonical(t, p);
      NotShorter(t, v, Decode(t, p).value.0, Decode(t, p).value.1, q);
    }
  }
}
