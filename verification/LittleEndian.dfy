/** Fixed-width little-endian integers. */
module LittleEndian {
  import opened Integers
  import opened Utf8

  function Pow256(k: nat): (p: nat)
    ensures p > 0
  {
    if k == 0 then 1 else 256 * Pow256(k - 1)
  }

  function ToLittleEndian(k: nat, n: nat): (b: seq<byte>)
    ensures |b| == k
  {
    if k == 0 then [] else [n % 256] + ToLittleEndian(k - 1, n / 256)
  }

  function FromLittleEndian(b: seq<byte>): nat {
    if b == [] then 0 else b[0] + 256 * FromLittleEndian(b[1..])
  }

  lemma {:induction false} FromTo(k: nat, n: nat)
    requires n < Pow256(k)
    ensures FromLittleEndian(ToLittleEndian(k, n)) == n
  {
    if k > 0 {
      FromTo(k - 1, n / 256);
    }
  }

  lemma {:induction false} ToFrom(b: seq<byte>)
    ensures FromLittleEndian(b) < Pow256(|b|)
    ensures ToLittleEndian(|b|, FromLittleEndian(b)) == b
  {
    if b != [] {
      var n := FromLittleEndian(b[1..]);
      ToFrom(b[1..]);
      assert (b[0] + 256 * n) % 256 == b[0] && (b[0] + 256 * n) / 256 == n;
      assert b == [b[0]] + b[1..];
    }
  }

  lemma {:induction false} Widths()
    ensures Pow256(1) == 256 && Pow256(2) == LIMIT16 && Pow256(4) == LIMIT32 && Pow256(8) == LIMIT64
  {
    assert Pow256(4) == 256 * 256 * Pow256(2);
    assert Pow256(8) == 256 * 256 * Pow256(6) && Pow256(6) == 256 * 256 * Pow256(4);
  }

  // ----- the bytes, one by one -----

  lemma {:induction false} NextMultiple(d: nat, e: nat, q: nat)
    requires e < q
    ensures d * e + d <= d * q
    decreases q
  {
    assert d * q == d * (q - 1) + d;
    if e < q - 1 {
      NextMultiple(d, e, q - 1);
    }
  }

  lemma {:induction false} QuotientIs(n: nat, d: nat, q: nat, r: nat)
    requires 0 < d && n == d * q + r && r < d
    ensures n / d == q
  {
    var e := n / d;
    if e < q {
      NextMultiple(d, e, q);
    } else if q < e {
      NextMultiple(d, q, e);
    }
  }

  /** Dividing by 256 and then by `p` is dividing by both at once. */
  lemma {:induction false} DivideTwice(n: nat, p: nat)
    requires p > 0
    ensures n / 256 / p == n / (256 * p)
  {
    var m := n / 256;
    var q, v, r := m / p, m % p, n % 256;
    assert n == 256 * m + r && m == p * q + v;
    assert 256 * (p * q + v) + r == 256 * p * q + (256 * v + r);
    QuotientIs(n, 256 * p, q, 256 * v + r);
  }

  /** Byte `i` has the weight 256 to the `i`: the first byte is the lowest. */
  lemma {:induction false} ByteAt(k: nat, n: nat, i: nat)
    requires i < k
    ensures ToLittleEndian(k, n)[i] == n / Pow256(i) % 256
  {
    if i > 0 {
      ByteAt(k - 1, n / 256, i - 1);
      DivideTwice(n, Pow256(i - 1));
    }
  }

  function U16Bytes(n: u16): (b: seq<byte>)
    ensures |b| == 2
  {
    [n % 0x100, n / 0x100]
  }

  function U32Bytes(n: u32): (b: seq<byte>)
    ensures |b| == 4
  {
    [n % 0x100, n / 0x100 % 0x100, n / 0x1_0000 % 0x100, n / 0x100_0000]
  }

  function U64Bytes(n: u64): (b: seq<byte>)
    ensures |b| == 8
  {
    [n % 0x100, n / 0x100 % 0x100, n / 0x1_0000 % 0x100, n / 0x100_0000 % 0x100,
     n / 0x1_0000_0000 % 0x100, n / 0x100_0000_0000 % 0x100, n / 0x1_0000_0000_0000 % 0x100,
     n / 0x100_0000_0000_0000]
  }

  lemma {:induction false} TwoBytes(n: u16)
    ensures ToLittleEndian(2, n) == U16Bytes(n)
  {
    assert ToLittleEndian(1, n / 0x100) == [n / 0x100 % 0x100] + ToLittleEndian(0, n / 0x100 / 0x100);
  }

  lemma {:induction false} FourBytes(n: u32)
    ensures ToLittleEndian(4, n) == U32Bytes(n)
  {
    var b := ToLittleEndian(4, n);
    FourWeights();
    forall i | 0 <= i < 4
      ensures b[i] == U32Bytes(n)[i]
    {
      ByteAt(4, n, i);
    }
  }

  lemma {:induction false} FourWeights()
    ensures Pow256(0) == 1 && Pow256(1) == 0x100 && Pow256(2) == 0x1_0000 && Pow256(3) == 0x100_0000
  {
    assert Pow256(3) == 256 * Pow256(2) && Pow256(2) == 256 * Pow256(1);
  }

  lemma {:induction false} EightWeights()
    ensures Pow256(4) == 0x1_0000_0000 && Pow256(5) == 0x100_0000_0000
    ensures Pow256(6) == 0x1_0000_0000_0000 && Pow256(7) == 0x100_0000_0000_0000
  {
    FourWeights();
    assert Pow256(4) == 256 * Pow256(3) && Pow256(5) == 256 * Pow256(4);
    assert Pow256(6) == 256 * Pow256(5) && Pow256(7) == 256 * Pow256(6);
  }

  lemma {:induction false} EightBytes(n: u64)
    ensures ToLittleEndian(8, n) == U64Bytes(n)
  {
    var b := ToLittleEndian(8, n);
    FourWeights();
    EightWeights();
    forall i | 0 <= i < 8
      ensures b[i] == U64Bytes(n)[i]
    {
      ByteAt(8, n, i);
    }
  }

  /** The number that four bytes name, lowest first. */
  function Weighed(b0: int, b1: int, b2: int, b3: int): int {
    b0 + 0x100 * b1 + 0x1_0000 * b2 + 0x100_0000 * b3
  }

  lemma {:induction false} FromFour(b: seq<byte>)
    requires |b| == 4
    ensures FromLittleEndian(b) == Weighed(b[0], b[1], b[2], b[3])
  {
    assert b[1..][1..] == b[2..] && b[2..][1..] == b[3..] && b[3..][1..] == [];
    assert FromLittleEndian(b[3..]) == Weighed(b[3], 0, 0, 0);
    assert FromLittleEndian(b[2..]) == Weighed(b[2], b[3], 0, 0);
  }
}
