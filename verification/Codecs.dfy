/** Serde's part of the handoff codec: how typed data become values of a shape and back. A codec is
    lawful when this is a bijection between its type and the values of its shape. */
module Codecs {
  import opened Wrappers
  import opened Bincode
  import opened Integers
  import opened LittleEndian
  import Utf8

  /** Text and vectors of the length any process can hold. */
  type Str = s: string | |Utf8.Encode(s)| < LIMIT64 witness ""
  type Vec<T> = s: seq<T> | |s| < LIMIT64 witness []

  datatype Codec<!T> = Codec(shape: Shape, to: T -> Value, from: Value -> T)

  ghost predicate Lawful<T(!new)>(c: Codec<T>) {
    && (forall t: T :: Fits(c.shape, c.to(t)) && c.from(c.to(t)) == t)
    && (forall v: Value :: Fits(c.shape, v) ==> c.to(c.from(v)) == v)
  }

  // ----- the base types -----

  const U16 := Codec<u16>.Codec(Unsigned(2), (n: u16) => Number(n),
    (v: Value) => if v.Number? && 0 <= v.n < LIMIT16 then v.n else 0)
  const U32 := Codec<u32>.Codec(Unsigned(4), (n: u32) => Number(n),
    (v: Value) => if v.Number? && 0 <= v.n < LIMIT32 then v.n else 0)
  const U64 := Codec<u64>.Codec(Unsigned(8), (n: u64) => Number(n),
    (v: Value) => if v.Number? && 0 <= v.n < LIMIT64 then v.n else 0)
  const I32 := Codec<i32>.Codec(Signed32, (n: i32) => Number(n),
    (v: Value) => if v.Number? && -0x8000_0000 <= v.n < 0x8000_0000 then v.n else 0)
  const BYTE := Codec<Utf8.byte>.Codec(Unsigned(1), (n: Utf8.byte) => Number(n),
    (v: Value) => if v.Number? && 0 <= v.n < 256 then v.n else 0)
  const BOOL := Codec<bool>.Codec(Bool, (b: bool) => Flag(b), (v: Value) => v.Flag? && v.on)
  const STRING := Codec<Str>.Codec(Text, (s: Str) => Chars(s),
    (v: Value) => if v.Chars? && |Utf8.Encode(v.s)| < LIMIT64 then v.s else "")

  lemma {:induction false} UnsignedLawful()
    ensures Lawful(U16) && Lawful(U32) && Lawful(U64) && Lawful(BYTE)
  {
    Widths();
  }

  lemma {:induction false} SignedLawful()
    ensures Lawful(I32)
  {
  }

  lemma {:induction false} BoolLawful()
    ensures Lawful(BOOL)
  {
  }

  lemma {:induction false} StringLawful()
    ensures Lawful(STRING)
  {
    Widths();
  }

  lemma {:induction false} BaseLawful()
    ensures Lawful(U16) && Lawful(U32) && Lawful(U64) && Lawful(I32) && Lawful(BYTE) && Lawful(BOOL) && Lawful(STRING)
  {
    UnsignedLawful();
    SignedLawful();
    BoolLawful();
    StringLawful();
  }

  function OptionOf<T>(c: Codec<T>): Codec<Option<T>> {
    Codec(Optional(c.shape),
          (o: Option<T>) => if o.Some? then Present(c.to(o.value)) else Absent,
          (v: Value) => if v.Present? then Some(c.from(v.v)) else None)
  }

  lemma {:induction false} OptionLawful<T(!new)>(c: Codec<T>)
    requires Lawful(c)
    ensures Lawful(OptionOf(c))
  {
  }

  function Map<A, B>(f: A -> B, s: seq<A>): (r: seq<B>)
    ensures |r| == |s| && forall i :: 0 <= i < |s| ==> r[i] == f(s[i])
  {
    seq(|s|, i requires 0 <= i < |s| => f(s[i]))
  }

  function VectorOf<T>(c: Codec<T>): Codec<Vec<T>> {
    Codec<Vec<T>>.Codec(Vector(c.shape),
          (s: Vec<T>) => Items(Map(c.to, s)),
          (v: Value) => if v.Items? && |v.vs| < LIMIT64 then Map(c.from, v.vs) else [])
  }

  lemma {:induction false} AllFitIff(inner: Shape, vs: seq<Value>)
    ensures AllFit(inner, vs) <==> forall i :: 0 <= i < |vs| ==> Fits(inner, vs[i])
    decreases |vs|
  {
    if vs != [] {
      AllFitIff(inner, vs[1..]);
      assert forall i :: 1 <= i < |vs| ==> vs[i] == vs[1..][i - 1];
    }
  }

  lemma {:induction false} VectorLawful<T(!new)>(c: Codec<T>)
    requires Lawful(c)
    ensures Lawful(VectorOf(c))
  {
    Widths();
    var d := VectorOf(c);
    forall s: Vec<T> ensures Fits(d.shape, d.to(s)) && d.from(d.to(s)) == s {
      AllFitIff(c.shape, Map(c.to, s));
    }
    forall v: Value | Fits(d.shape, v) ensures d.to(d.from(v)) == v {
      AllFitIff(c.shape, v.vs);
      assert Map(c.to, Map(c.from, v.vs)) == v.vs;
    }
  }

  /** One field and then the others. */
  datatype And<A, B> = And(first: A, rest: B)

  function Then<A, B>(a: Codec<A>, b: Codec<B>): Codec<And<A, B>> {
    Codec<And<A, B>>.Codec(
      Fields(a.shape, b.shape),
      (p: And<A, B>) => Struct(a.to(p.first), b.to(p.rest)),
      (v: Value) => if v.Struct? then And(a.from(v.head), b.from(v.tail)) else And(a.from(v), b.from(v)))
  }

  lemma {:induction false} ThenLawful<A(!new), B(!new)>(a: Codec<A>, b: Codec<B>)
    requires Lawful(a) && Lawful(b)
    ensures Lawful(Then(a, b))
  {
    var d := Then(a, b);
    forall p: And<A, B> ensures Fits(d.shape, d.to(p)) && d.from(d.to(p)) == p {
      assert a.from(a.to(p.first)) == p.first && b.from(b.to(p.rest)) == p.rest;
    }
  }

  /** The same layout for a type that is the same data under other names. */
  function As<A, B>(c: Codec<A>, f: A -> B, g: B -> A): Codec<B> {
    Codec<B>.Codec(c.shape, (b: B) => c.to(g(b)), (v: Value) => f(c.from(v)))
  }

  lemma {:induction false} AsLawful<A(!new), B(!new)>(c: Codec<A>, f: A -> B, g: B -> A)
    requires Lawful(c)
    requires forall a: A :: g(f(a)) == a
    requires forall b: B :: f(g(b)) == b
    ensures Lawful(As(c, f, g))
  {
    var d := As(c, f, g);
    forall b: B ensures Fits(d.shape, d.to(b)) && d.from(d.to(b)) == b {
      assert c.from(c.to(g(b))) == g(b);
    }
    forall v: Value | Fits(d.shape, v) ensures d.to(d.from(v)) == v {
      assert g(f(c.from(v))) == c.from(v);
    }
  }

  /** The first field can be read without the others. */
  lemma {:induction false} FirstFieldLeads<A(!new), B(!new), D(!new)>(
    a: Codec<A>, b: Codec<B>, f: And<A, B> -> D, g: D -> And<A, B>, d: D, rest: seq<Utf8.byte>)
    requires Lawful(a) && Lawful(b)
    ensures var c := As(Then(a, b), f, g);
      Fits(c.shape, c.to(d)) && Decode(a.shape, Encode(c.shape, c.to(d)) + rest).Some? &&
      a.from(Decode(a.shape, Encode(c.shape, c.to(d)) + rest).value.0) == g(d).first
  {
    var p := g(d);
    var e, e' := Encode(a.shape, a.to(p.first)), Encode(b.shape, b.to(p.rest));
    AppendAssoc(e, e', rest);
    RoundTrip(a.shape, a.to(p.first), e' + rest);
  }
}
