/** Base64 with the standard alphabet (section 4 of RFC 4648), decoded with or without padding, as
    src-tauri/src/program_status.rs configures it. It shows that what the report theorems assume of
    base64 can be met. */
module StandardBase64 {
  import opened Wrappers
  import Utf8

  type byte = Utf8.byte

  type Sextet = n: int | 0 <= n < 64

  const PAD: byte := 0x3D

  function Letter(n: Sextet): (b: byte)
    ensures b != PAD
  {
    if n < 26 then 'A' as int + n
    else if n < 52 then 'a' as int + (n - 26)
    else if n < 62 then '0' as int + (n - 52)
    else if n == 62 then '+' as int
    else '/' as int
  }

  function Number(b: byte): Option<Sextet> {
    if 'A' as int <= b <= 'Z' as int then Some(b - 'A' as int)
    else if 'a' as int <= b <= 'z' as int then Some(b - 'a' as int + 26)
    else if '0' as int <= b <= '9' as int then Some(b - '0' as int + 52)
    else if b == '+' as int then Some(62)
    else if b == '/' as int then Some(63)
    else None
  }

  function Encode(x: seq<byte>): seq<byte> {
    if x == [] then []
    else if |x| == 1 then [Letter(x[0] / 4), Letter(x[0] % 4 * 16), PAD, PAD]
    else if |x| == 2 then [Letter(x[0] / 4), Letter(x[0] % 4 * 16 + x[1] / 16), Letter(x[1] % 16 * 4), PAD]
    else
      [Letter(x[0] / 4), Letter(x[0] % 4 * 16 + x[1] / 16), Letter(x[1] % 16 * 4 + x[2] / 64), Letter(x[2] % 64)]
      + Encode(x[3..])
  }

  /** The last one or two bytes; the bits that are left over must be zero. */
  function DecodeOne(b: seq<byte>): Option<seq<byte>>
    requires |b| == 2
  {
    var p :- Number(b[0]);
    var q :- Number(b[1]);
    if q % 16 == 0 then Some([p * 4 + q / 16]) else None
  }

  function DecodeTwo(b: seq<byte>): Option<seq<byte>>
    requires |b| == 3
  {
    var p :- Number(b[0]);
    var q :- Number(b[1]);
    var r :- Number(b[2]);
    if r % 4 == 0 then Some([p * 4 + q / 16, q % 16 * 16 + r / 4]) else None
  }

  function DecodeThree(b: seq<byte>): Option<seq<byte>>
    requires |b| == 4
  {
    var p :- Number(b[0]);
    var q :- Number(b[1]);
    var r :- Number(b[2]);
    var s :- Number(b[3]);
    Some([p * 4 + q / 16, q % 16 * 16 + r / 4, r % 4 * 64 + s])
  }

  function Decode(b: seq<byte>): Option<seq<byte>> {
    if b == [] then Some([])
    else if |b| == 2 || (|b| == 4 && b[2] == PAD && b[3] == PAD) then DecodeOne(b[..2])
    else if |b| == 3 || (|b| == 4 && b[3] == PAD) then DecodeTwo(b[..3])
    else if |b| < 4 then None
    else
      var first :- DecodeThree(b[..4]);
      var rest :- Decode(b[4..]);
      Some(first + rest)
  }

  lemma {:induction false} LetterReads(n: Sextet)
    ensures Number(Letter(n)) == Some(n)
  {
  }

  lemma {:induction false} Shift4(a: int, b: int)
    requires 0 <= b < 4
    ensures (a * 4 + b) / 4 == a && (a * 4 + b) % 4 == b
  {
  }

  lemma {:induction false} Shift16(a: int, b: int)
    requires 0 <= b < 16
    ensures (a * 16 + b) / 16 == a && (a * 16 + b) % 16 == b
  {
  }

  lemma {:induction false} OneReads(x: byte)
    ensures DecodeOne([Letter(x / 4), Letter(x % 4 * 16)]) == Some([x])
  {
    LetterReads(x / 4);
    LetterReads(x % 4 * 16);
    Shift16(x % 4, 0);
  }

  lemma {:induction false} TwoReads(x: byte, y: byte)
    ensures DecodeTwo([Letter(x / 4), Letter(x % 4 * 16 + y / 16), Letter(y % 16 * 4)]) == Some([x, y])
  {
    LetterReads(x / 4);
    LetterReads(x % 4 * 16 + y / 16);
    LetterReads(y % 16 * 4);
    Shift16(x % 4, y / 16);
    Shift4(y % 16, 0);
  }

  lemma {:induction false} ThreeReads(x: byte, y: byte, z: byte)
    ensures DecodeThree([Letter(x / 4), Letter(x % 4 * 16 + y / 16), Letter(y % 16 * 4 + z / 64), Letter(z % 64)])
            == Some([x, y, z])
  {
    LetterReads(x / 4);
    LetterReads(x % 4 * 16 + y / 16);
    LetterReads(y % 16 * 4 + z / 64);
    LetterReads(z % 64);
    Shift16(x % 4, y / 16);
    Shift4(y % 16, z / 64);
  }

  lemma {:induction false} DecodeGroup(b: seq<byte>, rest: seq<byte>)
    requires |b| == 4 && b[3] != PAD
    ensures Decode(b + rest)
            == if DecodeThree(b).None? || Decode(rest).None? then None
               else Some(DecodeThree(b).value + Decode(rest).value)
  {
    assert (b + rest)[..4] == b && (b + rest)[4..] == rest;
  }

  lemma {:induction false} DecodePaddedOne(p: byte, q: byte)
    ensures Decode([p, q, PAD, PAD]) == DecodeOne([p, q])
  {
    assert [p, q, PAD, PAD][..2] == [p, q];
  }

  lemma {:induction false} DecodePaddedTwo(p: byte, q: byte, r: byte)
    requires r != PAD
    ensures Decode([p, q, r, PAD]) == DecodeTwo([p, q, r])
  {
    assert [p, q, r, PAD][..3] == [p, q, r];
  }

  lemma {:induction false} GroupRoundTrip(x: byte, y: byte, z: byte, rest: seq<byte>)
    requires Decode(Encode(rest)) == Some(rest)
    ensures Decode(Encode([x, y, z] + rest)) == Some([x, y, z] + rest)
  {
    var b := [Letter(x / 4), Letter(x % 4 * 16 + y / 16), Letter(y % 16 * 4 + z / 64), Letter(z % 64)];
    assert ([x, y, z] + rest)[3..] == rest;
    assert Encode([x, y, z] + rest) == b + Encode(rest);
    ThreeReads(x, y, z);
    DecodeGroup(b, Encode(rest));
  }

  lemma {:induction false} OneRoundTrip(x: byte)
    ensures Decode(Encode([x])) == Some([x])
  {
    OneReads(x);
    DecodePaddedOne(Letter(x / 4), Letter(x % 4 * 16));
  }

  lemma {:induction false} TwoRoundTrip(x: byte, y: byte)
    ensures Decode(Encode([x, y])) == Some([x, y])
  {
    TwoReads(x, y);
    DecodePaddedTwo(Letter(x / 4), Letter(x % 4 * 16 + y / 16), Letter(y % 16 * 4));
  }

  /** Decoding undoes encoding on every sequence of bytes. */
  lemma {:induction false} DecodeEncode(x: seq<byte>)
    ensures Decode(Encode(x)) == Some(x)
  {
    if |x| == 1 {
      OneRoundTrip(x[0]);
      assert x == [x[0]];
    } else if |x| == 2 {
      TwoRoundTrip(x[0], x[1]);
      assert x == [x[0], x[1]];
    } else if |x| > 2 {
      DecodeEncode(x[3..]);
      GroupRoundTrip(x[0], x[1], x[2], x[3..]);
      assert x == [x[0], x[1], x[2]] + x[3..];
    }
  }

  lemma {:induction false} EncodedLength(x: seq<byte>)
    ensures |Encode(x)| == (|x| + 2) / 3 * 4
  {
    if |x| > 2 {
      EncodedLength(x[3..]);
      assert (|x| + 2) / 3 == (|x| - 3 + 2) / 3 + 1;
    }
  }

  predicate IsLetter(b: byte) { b == PAD || Number(b).Some? }

  lemma {:induction false} EncodedAlphabet(x: seq<byte>)
    ensures forall i :: 0 <= i < |Encode(x)| ==> IsLetter(Encode(x)[i])
  {
    forall n: Sextet
      ensures IsLetter(Letter(n))
    {
      LetterReads(n);
    }
    if |x| > 2 {
      EncodedAlphabet(x[3..]);
    }
  }

  lemma {:induction false} EncodeGroup(x: byte, y: byte, z: byte, rest: seq<byte>)
    ensures Encode([x, y, z] + rest)
            == [Letter(x / 4), Letter(x % 4 * 16 + y / 16), Letter(y % 16 * 4 + z / 64), Letter(z % 64)] + Encode(rest)
  {
    assert ([x, y, z] + rest)[3..] == rest;
  }

  lemma {:induction false} EncodeThree(x: byte, y: byte, z: byte)
    ensures Encode([x, y, z])
            == [Letter(x / 4), Letter(x % 4 * 16 + y / 16), Letter(y % 16 * 4 + z / 64), Letter(z % 64)]
  {
    assert [x, y, z] == [x, y, z] + [];
    EncodeGroup(x, y, z, []);
  }

  /** Test vectors of section 10 of RFC 4648: "f" is "Zg==" and "fo" is "Zm8=". */
  lemma {:induction false} ShortVectors()
    ensures Encode([0x66]) == [0x5A, 0x67, 0x3D, 0x3D]
    ensures Encode([0x66, 0x6F]) == [0x5A, 0x6D, 0x38, 0x3D]
  {
  }

  lemma {:induction false} Shift64(a: int, b: int)
    requires 0 <= b < 64
    ensures (a * 64 + b) / 64 == a && (a * 64 + b) % 64 == b
  {
  }

  lemma {:induction false} SextetHalves(n: Sextet)
    ensures n / 16 * 16 + n % 16 == n && 0 <= n / 16 < 4
    ensures n / 4 * 4 + n % 4 == n && 0 <= n / 4 < 16
  {
  }

  lemma {:induction false} SextetsBack(p: Sextet, q: Sextet, r: Sextet, s: Sextet, x: byte, y: byte, z: byte)
    requires x == p * 4 + q / 16 && y == q % 16 * 16 + r / 4 && z == r % 4 * 64 + s
    ensures x / 4 == p && x % 4 == q / 16 && y / 16 == q % 16 && y % 16 == r / 4 && z / 64 == r % 4 && z % 64 == s
  {
    SextetHalves(q);
    SextetHalves(r);
    Shift4(p, q / 16);
    Shift16(q % 16, r / 4);
    Shift64(r % 4, s);
  }

  /** Four sextets and the three bytes they make. */
  lemma {:induction false} EncodeSextets(p: Sextet, q: Sextet, r: Sextet, s: Sextet, x: byte, y: byte, z: byte)
    requires x == p * 4 + q / 16 && y == q % 16 * 16 + r / 4 && z == r % 4 * 64 + s
    ensures Encode([x, y, z]) == [Letter(p), Letter(q), Letter(r), Letter(s)]
  {
    EncodeThree(x, y, z);
    SextetsBack(p, q, r, s, x, y, z);
    SextetHalves(q);
    SextetHalves(r);
  }

  lemma {:induction false} LettersOfFoo()
    ensures Encode([0x66, 0x6F, 0x6F]) == [0x5A, 0x6D, 0x39, 0x76]
  {
    EncodeSextets(25, 38, 61, 47, 0x66, 0x6F, 0x6F);
  }

  lemma {:induction false} LettersOfBar()
    ensures Encode([0x62, 0x61, 0x72]) == [0x59, 0x6D, 0x46, 0x79]
  {
    EncodeSextets(24, 38, 5, 50, 0x62, 0x61, 0x72);
  }

  /** And "foobar" is "Zm9vYmFy". */
  lemma {:induction false} LongVector()
    ensures Encode([0x66, 0x6F, 0x6F] + [0x62, 0x61, 0x72]) == [0x5A, 0x6D, 0x39, 0x76] + [0x59, 0x6D, 0x46, 0x79]
  {
    EncodeBoth(0x66, 0x6F, 0x6F, [0x62, 0x61, 0x72]);
    LettersOfFoo();
    LettersOfBar();
  }

  lemma {:induction false} EncodeBoth(x: byte, y: byte, z: byte, rest: seq<byte>)
    ensures Encode([x, y, z] + rest) == Encode([x, y, z]) + Encode(rest)
  {
    EncodeThree(x, y, z);
    EncodeGroup(x, y, z, rest);
  }
}
