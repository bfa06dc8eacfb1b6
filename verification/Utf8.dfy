/** UTF-8 as section 3 of RFC 3629 defines it: a Rust `String` is a Dafny `string` of Unicode scalar
    values, and these are its bytes. */
module Utf8 {
  import opened Wrappers

  type byte = n: int | 0 <= n < 256

  function EncodeChar(c: char): seq<byte> {
    var n := c as int;
    if n < 0x80 then [n]
    else if n < 0x800 then [0xC0 + n / 0x40, 0x80 + n % 0x40]
    else if n < 0x1_0000 then [0xE0 + n / 0x1000, 0x80 + n / 0x40 % 0x40, 0x80 + n % 0x40]
    else [0xF0 + n / 0x4_0000, 0x80 + n / 0x1000 % 0x40, 0x80 + n / 0x40 % 0x40, 0x80 + n % 0x40]
  }

  function Encode(s: string): seq<byte> {
    if s == "" then [] else EncodeChar(s[0]) + Encode(s[1..])
  }

  predicate IsContinuation(b: byte) { 0x80 <= b < 0xC0 }

  predicate IsScalar(n: int) { 0 <= n < 0xD800 || 0xE000 <= n < 0x11_0000 }

  /** The first character of `b` and how many bytes it takes; overlong forms, surrogates, values
      past U+10FFFF, stray and missing continuation bytes are refused. */
  function DecodeChar(b: seq<byte>): (r: Option<(char, nat)>)
    ensures r.Some? ==> 0 < r.value.1 <= |b|
  {
    if b == [] then None
    else if b[0] < 0x80 then Some((b[0] as char, 1))
    else if 0xC0 <= b[0] < 0xE0 && |b| >= 2 && IsContinuation(b[1]) then
      Scalar(Sextets(0, 0, b[0] - 0xC0, b[1] - 0x80), 0x80, 2)
    else if 0xE0 <= b[0] < 0xF0 && |b| >= 3 && IsContinuation(b[1]) && IsContinuation(b[2]) then
      Scalar(Sextets(0, b[0] - 0xE0, b[1] - 0x80, b[2] - 0x80), 0x800, 3)
    else if 0xF0 <= b[0] < 0xF8 && |b| >= 4 && IsContinuation(b[1]) && IsContinuation(b[2]) && IsContinuation(b[3]) then
      Scalar(Sextets(b[0] - 0xF0, b[1] - 0x80, b[2] - 0x80, b[3] - 0x80), 0x1_0000, 4)
    else None
  }

  /** The number with these six-bit digits, the first of any size. */
  function Sextets(x: int, y: int, z: int, w: int): int {
    ((x * 0x40 + y) * 0x40 + z) * 0x40 + w
  }

  function Scalar(n: int, least: int, len: nat): (r: Option<(char, nat)>)
    ensures r.Some? ==> r.value.1 == len
  {
    if least <= n && IsScalar(n) then Some((n as char, len)) else None
  }

  function Decode(b: seq<byte>): Option<string> {
    if b == [] then Some("")
    else
      var (c, len) :- DecodeChar(b);
      var rest :- Decode(b[len..]);
      Some([c] + rest)
  }

  lemma {:induction false} LastSextet(m: int, w: int)
    requires 0 <= w < 0x40
    ensures (m * 0x40 + w) / 0x40 == m && (m * 0x40 + w) % 0x40 == w
  {
  }

  lemma {:induction false} TwoSextets(n: nat)
    ensures n / 0x1000 == n / 0x40 / 0x40
  {
  }

  lemma {:induction false} ThreeSextets(n: nat)
    ensures n / 0x4_0000 == n / 0x1000 / 0x40
  {
  }

  /** A number has the sextets that the encoder takes from it. */
  lemma {:induction false} SextetsOf(n: nat, p: nat, q: nat, r: nat)
    requires p == n / 0x40 && q == n / 0x1000 && r == n / 0x4_0000
    ensures n == Sextets(r, q % 0x40, p % 0x40, n % 0x40)
  {
    TwoSextets(n);
    ThreeSextets(n);
    assert n == p * 0x40 + n % 0x40;
    assert p == q * 0x40 + p % 0x40;
    assert q == r * 0x40 + q % 0x40;
  }

  /** A number of three sextets or fewer has no higher ones. */
  lemma {:induction false} ShortSextets(n: nat)
    ensures n < 0x1_0000 ==> n / 0x4_0000 == 0 && n / 0x1000 % 0x40 == n / 0x1000
    ensures n < 0x800 ==> n / 0x1000 == 0 && n / 0x40 % 0x40 == n / 0x40
  {
    assert n < 0x1_0000 ==> n / 0x1000 < 0x10;
    assert n < 0x800 ==> n / 0x40 < 0x20;
  }

  lemma {:induction false} SextetsUnique(x: nat, y: nat, z: nat, w: nat, n: nat)
    requires y < 0x40 && z < 0x40 && w < 0x40 && n == Sextets(x, y, z, w)
    ensures n / 0x4_0000 == x && n / 0x1000 % 0x40 == y && n / 0x40 % 0x40 == z && n % 0x40 == w
  {
    TwoSextets(n);
    ThreeSextets(n);
    LastSextet((x * 0x40 + y) * 0x40 + z, w);
    LastSextet(x * 0x40 + y, z);
    LastSextet(x, y);
  }

  /** A decoder that finds the bytes of a character finds the character, whatever follows. */
  lemma {:induction false} DecodeEncoded(c: char, b: seq<byte>)
    requires |EncodeChar(c)| <= |b| && forall i :: 0 <= i < |EncodeChar(c)| ==> b[i] == EncodeChar(c)[i]
    ensures DecodeChar(b) == Some((c, |EncodeChar(c)|))
  {
    var n := c as int;
    SextetsOf(n, n / 0x40, n / 0x1000, n / 0x4_0000);
    if n < 0x1_0000 {
      ShortSextets(n);
      if 0x800 <= n {
        assert DecodeChar(b) == Scalar(n, 0x800, 3);
      } else if 0x80 <= n {
        assert DecodeChar(b) == Scalar(n, 0x80, 2);
      }
    } else {
      assert DecodeChar(b) == Scalar(n, 0x1_0000, 4);
    }
  }

  lemma {:induction false} DecodeEncodeChar(c: char, rest: seq<byte>)
    ensures DecodeChar(EncodeChar(c) + rest) == Some((c, |EncodeChar(c)|))
  {
    DecodeEncoded(c, EncodeChar(c) + rest);
  }

  lemma {:induction false} EncodeFour(x: nat, y: nat, z: nat, w: nat)
    requires y < 0x40 && z < 0x40 && w < 0x40
    requires var n := Sextets(x, y, z, w); 0x1_0000 <= n && IsScalar(n)
    ensures x < 8 && EncodeChar(Sextets(x, y, z, w) as char) == [0xF0 + x, 0x80 + y, 0x80 + z, 0x80 + w]
  {
    SextetsUnique(x, y, z, w, Sextets(x, y, z, w));
  }

  lemma {:induction false} EncodeThree(y: nat, z: nat, w: nat)
    requires y < 0x10 && z < 0x40 && w < 0x40
    requires var n := Sextets(0, y, z, w); 0x800 <= n && IsScalar(n)
    ensures EncodeChar(Sextets(0, y, z, w) as char) == [0xE0 + y, 0x80 + z, 0x80 + w]
  {
    SextetsUnique(0, y, z, w, Sextets(0, y, z, w));
    ShortSextets(Sextets(0, y, z, w));
  }

  lemma {:induction false} EncodeTwo(z: nat, w: nat)
    requires z < 0x20 && w < 0x40 && 0x80 <= Sextets(0, 0, z, w)
    ensures EncodeChar(Sextets(0, 0, z, w) as char) == [0xC0 + z, 0x80 + w]
  {
    SextetsUnique(0, 0, z, w, Sextets(0, 0, z, w));
    ShortSextets(Sextets(0, 0, z, w));
  }

  lemma {:induction false} EncodeDecodeChar(b: seq<byte>)
    requires DecodeChar(b).Some?
    ensures var (c, len) := DecodeChar(b).value; EncodeChar(c) == b[..len]
  {
    if b[0] >= 0xF0 {
      EncodeFour(b[0] - 0xF0, b[1] - 0x80, b[2] - 0x80, b[3] - 0x80);
    } else if b[0] >= 0xE0 {
      EncodeThree(b[0] - 0xE0, b[1] - 0x80, b[2] - 0x80);
    } else if b[0] >= 0x80 {
      EncodeTwo(b[0] - 0xC0, b[1] - 0x80);
    }
  }

  lemma {:induction false} EncodeFirst(c: char, rest: string)
    ensures Encode([c] + rest) == EncodeChar(c) + Encode(rest)
  {
    assert ([c] + rest)[1..] == rest;
  }

  lemma {:induction false} EncodeBoth(a: string, b: string)
    ensures Encode(a + b) == Encode(a) + Encode(b)
  {
    if a == "" {
      assert a + b == b;
    } else {
      assert (a + b)[1..] == a[1..] + b;
      EncodeBoth(a[1..], b);
    }
  }

  lemma {:induction false} DecodeFirst(c: char, rest: seq<byte>)
    ensures Decode(EncodeChar(c) + rest) == if Decode(rest).None? then None else Some([c] + Decode(rest).value)
  {
    DecodeEncodeChar(c, rest);
    assert (EncodeChar(c) + rest)[|EncodeChar(c)|..] == rest;
  }

  lemma {:induction false} DecodeEncode(s: string)
    ensures Decode(Encode(s)) == Some(s)
  {
    if s != "" {
      DecodeEncode(s[1..]);
      DecodeFirst(s[0], Encode(s[1..]));
      assert [s[0]] + s[1..] == s;
    }
  }

  lemma {:induction false} DecodedFirst(b: seq<byte>) returns (c: char, first: seq<byte>, tail: seq<byte>, rest: string)
    requires b != [] && Decode(b).Some?
    ensures first != [] && b == first + tail && EncodeChar(c) == first
    ensures Decode(tail) == Some(rest) && Decode(b) == Some([c] + rest)
  {
    EncodeDecodeChar(b);
    var (d, len) := DecodeChar(b).value;
    c, first, tail, rest := d, b[..len], b[len..], Decode(b[len..]).value;
  }

  lemma {:induction false} EncodeDecode(b: seq<byte>)
    requires Decode(b).Some?
    ensures Encode(Decode(b).value) == b
    decreases |b|
  {
    if b != [] {
      var c, first, tail, rest := DecodedFirst(b);
      EncodeDecode(tail);
      EncodeFirst(c, rest);
    }
  }

  /** The examples of section 7 of RFC 3629: "A", not-identical-to, alpha, "." and U+233B4. */
  lemma {:induction false} RfcExamples()
    ensures EncodeChar('A') == [0x41] && EncodeChar('\U{2262}') == [0xE2, 0x89, 0xA2]
    ensures EncodeChar('\U{391}') == [0xCE, 0x91] && EncodeChar('\U{233B4}') == [0xF0, 0xA3, 0x8E, 0xB4]
  {
  }
}
