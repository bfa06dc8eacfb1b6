/** The snapshot payload of crates/mux_ipc/src/protocol.rs: a magic prefix, a bounded table of
    dimension segments and the content bytes. */
module SnapshotPayload {
  import opened Integers
  import opened LittleEndian
  import opened Utf8
  import opened Wrappers

  /** "EMSNAP2" and a zero byte. */
  const MAGIC: seq<byte> := [0x45, 0x4D, 0x53, 0x4E, 0x41, 0x50, 0x32, 0x00]
  const MAX_SEGMENTS := 64
  const MAX_SEGMENT_CELLS := 1_000_000
  const MAX_CUMULATIVE_SEGMENT_CELLS := 32 * MAX_SEGMENT_CELLS

  datatype DimSegment = DimSegment(offset: u32, cols: u16, rows: u16)

  datatype Decoded = Legacy(whole: seq<byte>) | Structured(segments: seq<DimSegment>, content: seq<byte>) | Malformed

  // ----- what a well-formed table is -----

  function Area(s: DimSegment): nat { s.cols * s.rows }

  /** What the budgets measure; the program measures areas. */
  type Cost = DimSegment -> nat

  function Total(cost: Cost, segs: seq<DimSegment>): nat {
    if segs == [] then 0 else Total(cost, segs[..|segs| - 1]) + cost(segs[|segs| - 1])
  }

  /** At most 64 segments, in order, inside the content, each and together within budget. */
  ghost predicate WellFormed(segs: seq<DimSegment>, contentLen: nat) {
    |segs| <= MAX_SEGMENTS && WithinBudget(Area, segs, contentLen)
  }

  ghost predicate WithinBudget(cost: Cost, segs: seq<DimSegment>, contentLen: nat) {
    && (forall i :: 0 <= i < |segs| ==> segs[i].offset <= contentLen && cost(segs[i]) <= MAX_SEGMENT_CELLS)
    && (forall i, j :: 0 <= i < j < |segs| ==> segs[i].offset <= segs[j].offset)
    && Total(cost, segs) <= MAX_CUMULATIVE_SEGMENT_CELLS
  }

  lemma {:induction false} BudgetOfPrefix(cost: Cost, segs: seq<DimSegment>, n: nat, contentLen: nat)
    requires n <= |segs| && WithinBudget(cost, segs, contentLen)
    ensures WithinBudget(cost, segs[..n], contentLen)
    decreases |segs|
  {
    if n < |segs| {
      var init := segs[..|segs| - 1];
      assert init[..n] == segs[..n];
      BudgetOfPrefix(cost, init, n, contentLen);
    } else {
      assert segs[..n] == segs;
    }
  }

  /** The checks on one entry, given the offset before it and the total so far. */
  ghost predicate EntryPasses(cost: Cost, s: DimSegment, prev: Option<u32>, cells: nat, contentLen: nat) {
    && (prev.Some? ==> prev.value <= s.offset)
    && s.offset <= contentLen
    && cost(s) <= MAX_SEGMENT_CELLS
    && cells + cost(s) <= MAX_CUMULATIVE_SEGMENT_CELLS
  }

  function OffsetBefore(segs: seq<DimSegment>): Option<u32> {
    if segs == [] then None else Some(segs[|segs| - 1].offset)
  }

  lemma {:induction false} BudgetOfStep(cost: Cost, segs: seq<DimSegment>, s: DimSegment, contentLen: nat)
    requires WithinBudget(cost, segs, contentLen)
    ensures Total(cost, segs + [s]) == Total(cost, segs) + cost(s)
    ensures WithinBudget(cost, segs + [s], contentLen)
       <==> EntryPasses(cost, s, OffsetBefore(segs), Total(cost, segs), contentLen)
  {
    var t := segs + [s];
    assert t[..|segs|] == segs && t[|segs|] == s;
    if segs != [] {
      assert t[|segs| - 1] == segs[|segs| - 1];
    }
  }

  /** The checks at entry `n` of a table: failing ones settle the whole table, passing ones extend
      what has been read. */
  lemma {:induction false} StepDecides(cost: Cost, table: seq<DimSegment>, n: nat, contentLen: nat)
    requires n < |table| && WithinBudget(cost, table[..n], contentLen)
    ensures table[..n + 1] == table[..n] + [table[n]] && OffsetBefore(table[..n + 1]) == Some(table[n].offset)
    ensures Total(cost, table[..n + 1]) == Total(cost, table[..n]) + cost(table[n])
    ensures if EntryPasses(cost, table[n], OffsetBefore(table[..n]), Total(cost, table[..n]), contentLen)
            then WithinBudget(cost, table[..n + 1], contentLen)
            else !WithinBudget(cost, table, contentLen)
  {
    BudgetOfStep(cost, table[..n], table[n], contentLen);
    assert table[..n] + [table[n]] == table[..n + 1];
    if WithinBudget(cost, table, contentLen) {
      BudgetOfPrefix(cost, table, n + 1, contentLen);
    }
  }

  // ----- the bytes -----

  function EntryBytes(s: DimSegment): (b: seq<byte>)
    ensures |b| == 8
  {
    ToLittleEndian(4, s.offset) + ToLittleEndian(2, s.cols) + ToLittleEndian(2, s.rows)
  }

  function TableBytes(segs: seq<DimSegment>): (b: seq<byte>)
    ensures |b| == 8 * |segs|
  {
    if segs == [] then [] else TableBytes(segs[..|segs| - 1]) + EntryBytes(segs[|segs| - 1])
  }

  /** The count is narrowed to 32 bits, as the program's cast does. */
  function Payload(segs: seq<DimSegment>, content: seq<byte>): seq<byte> {
    MAGIC + Body(segs, content)
  }

  lemma {:induction false} TableGrows(segs: seq<DimSegment>, i: nat, head: seq<byte>, out: seq<byte>)
    requires i < |segs| && out == head + TableBytes(segs[..i])
    ensures out + ToLittleEndian(4, segs[i].offset) + ToLittleEndian(2, segs[i].cols) + ToLittleEndian(2, segs[i].rows)
            == head + TableBytes(segs[..i + 1])
  {
    assert segs[..i + 1][..i] == segs[..i];
  }

  lemma {:induction false} AfterMagic(segs: seq<DimSegment>, content: seq<byte>)
    ensures MAGIC + ToLittleEndian(4, |segs| % LIMIT32) + TableBytes(segs) + content == Payload(segs, content)
  {
    ThreeAfter(MAGIC, ToLittleEndian(4, |segs| % LIMIT32), TableBytes(segs), content);
  }

  method EncodeSnapshotPayload(segs: seq<DimSegment>, content: seq<byte>) returns (out: seq<byte>)
    ensures out == Payload(segs, content)
  {
    out := MAGIC;
    out := out + ToLittleEndian(4, |segs| % LIMIT32);
    ghost var head := out;
    for i := 0 to |segs|
      invariant out == head + TableBytes(segs[..i])
    {
      TableGrows(segs, i, head, out);
      out := out + ToLittleEndian(4, segs[i].offset);
      out := out + ToLittleEndian(2, segs[i].cols);
      out := out + ToLittleEndian(2, segs[i].rows);
    }
    assert segs[..|segs|] == segs;
    out := out + content;
    AfterMagic(segs, content);
  }

  // ----- the bytes, place by place -----

  lemma {:induction false} EntryIs(s: DimSegment)
    ensures EntryBytes(s) == U32Bytes(s.offset) + U16Bytes(s.cols) + U16Bytes(s.rows)
  {
    FourBytes(s.offset);
    TwoBytes(s.cols);
    TwoBytes(s.rows);
  }

  lemma {:induction false} TableAt(segs: seq<DimSegment>, i: nat)
    requires i < |segs|
    ensures TableBytes(segs)[8 * i..8 * i + 8] == EntryBytes(segs[i])
    decreases |segs|
  {
    var init := segs[..|segs| - 1];
    if i < |init| {
      TableAt(init, i);
      SliceOfFirst(TableBytes(init), EntryBytes(segs[|segs| - 1]), 8 * i, 8 * i + 8);
    }
  }

  lemma {:induction false} SliceOfFirst(a: seq<byte>, b: seq<byte>, from: nat, to: nat)
    requires from <= to <= |a|
    ensures (a + b)[from..to] == a[from..to]
  {
  }

  lemma {:induction false} SliceOfSecond(a: seq<byte>, b: seq<byte>, from: nat, to: nat)
    requires from <= to <= |b|
    ensures (a + b)[|a| + from..|a| + to] == b[from..to]
  {
  }

  /** What stands before the table: the magic and the count. */
  lemma {:induction false} PayloadParts(segs: seq<DimSegment>, content: seq<byte>) returns (head: seq<byte>)
    requires |segs| < LIMIT32
    ensures head == MAGIC + U32Bytes(|segs|) && |head| == 12
    ensures Payload(segs, content) == head + TableBytes(segs) + content
  {
    var n := |segs|;
    FourBytes(n);
    head := MAGIC + U32Bytes(n);
    assert n % LIMIT32 == n;
    ThreeAfter(MAGIC, U32Bytes(n), TableBytes(segs), content);
  }

  lemma {:induction false} ThreeAfter(a: seq<byte>, b: seq<byte>, c: seq<byte>, d: seq<byte>)
    ensures a + (b + c + d) == a + b + c + d
  {
  }

  /** Where everything stands: the magic, the count in bytes 8 to 11, segment `i` in the eight bytes
      from 12 + 8 * i as offset, columns and rows, all lowest byte first, and then the content. */
  lemma {:induction false} PayloadIs(segs: seq<DimSegment>, content: seq<byte>, i: nat)
    requires |segs| < LIMIT32
    ensures var p := Payload(segs, content);
      && |p| == 12 + 8 * |segs| + |content|
      && p[..12] == [0x45, 0x4D, 0x53, 0x4E, 0x41, 0x50, 0x32, 0x00] + U32Bytes(|segs|)
      && p[12 + 8 * |segs|..] == content
      && (i < |segs| ==> p[12 + 8 * i..20 + 8 * i]
                         == U32Bytes(segs[i].offset) + U16Bytes(segs[i].cols) + U16Bytes(segs[i].rows))
  {
    var table := TableBytes(segs);
    var head := PayloadParts(segs, content);
    assert (head + table + content)[..12] == head;
    assert (head + table + content)[12 + 8 * |segs|..] == content;
    if i < |segs| {
      TableAt(segs, i);
      EntryIs(segs[i]);
      SliceOfSecond(head, table, 8 * i, 8 * i + 8);
      SliceOfFirst(head + table, content, 12 + 8 * i, 20 + 8 * i);
    }
  }

  function EncodedSnapshotPayloadLen(segmentCount: nat, byteLen: nat): nat {
    |MAGIC| + 4 + segmentCount * 8 + byteLen
  }

  /** The length formula is the length of the encoding. */
  lemma {:induction false} LengthIsExact(segs: seq<DimSegment>, content: seq<byte>)
    ensures |Payload(segs, content)| == EncodedSnapshotPayloadLen(|segs|, |content|)
  {
  }

  // ----- reading the table -----

  function U16At(b: seq<byte>, at: nat): (n: u16)
    requires at + 2 <= |b|
  {
    Widths();
    ToFrom(b[at..at + 2]);
    FromLittleEndian(b[at..at + 2])
  }

  function U32At(b: seq<byte>, at: nat): (n: u32)
    requires at + 4 <= |b|
  {
    Widths();
    ToFrom(b[at..at + 4]);
    FromLittleEndian(b[at..at + 4])
  }

  function EntryAt(b: seq<byte>, at: nat): DimSegment
    requires at + 8 <= |b|
  {
    DimSegment(U32At(b, at), U16At(b, at + 4), U16At(b, at + 6))
  }

  /** The first `count` entries of the table that starts after the count. */
  function Table(rest: seq<byte>, count: nat): (segs: seq<DimSegment>)
    requires 4 + 8 * count <= |rest|
    ensures |segs| == count
  {
    if count == 0 then [] else Table(rest, count - 1) + [EntryAt(rest, 4 + 8 * (count - 1))]
  }

  /** What the decoder answers: every check on the whole table. */
  ghost function DecodePayload(payload: seq<byte>): Decoded {
    if !(MAGIC <= payload) then Legacy(payload)
    else
      var rest := payload[|MAGIC|..];
      if |rest| < 4 then Malformed
      else
        var count := U32At(rest, 0);
        if count > MAX_SEGMENTS || |rest| < 4 + 8 * count then Malformed
        else
          var segs, content := Table(rest, count), rest[4 + 8 * count..];
          if WellFormed(segs, |content|) then Structured(segs, content) else Malformed
  }

  method DecodeSnapshotPayloadTyped(payload: seq<byte>) returns (r: Decoded)
    ensures r == DecodePayload(payload)
  {
    if !(MAGIC <= payload) {
      return Legacy(payload);
    }
    var rest := payload[|MAGIC|..];
    if |rest| < 4 {
      return Malformed;
    }
    var count := U32At(rest, 0);
    if count > MAX_SEGMENTS {
      return Malformed;
    }
    var tableEnd := 4 + count * 8;
    if |rest| < tableEnd {
      return Malformed;
    }
    ghost var table := Table(rest, count);
    forall i | 0 <= i < count
      ensures table[i] == EntryAt(rest, 4 + 8 * i)
    {
      TablePrefix(rest, i, count);
    }
    r := ParseTable(Area, rest, count, table);
  }

  lemma {:induction false} TablePrefix(rest: seq<byte>, i: nat, count: nat)
    requires i < count && 4 + 8 * count <= |rest|
    ensures Table(rest, count)[..i] == Table(rest, i)
    ensures Table(rest, count)[i] == EntryAt(rest, 4 + 8 * i)
    decreases count
  {
    if i < count - 1 {
      TablePrefix(rest, i, count - 1);
    }
  }

  /** The checks on entry `i`: passing ones extend what was read, failing ones settle the table. */
  method CheckEntry(cost: Cost, entry: DimSegment, prevOffset: Option<u32>, cells: nat, contentLen: nat,
                    ghost table: seq<DimSegment>, ghost i: nat)
    returns (ok: bool, total: nat)
    requires i < |table| && entry == table[i] && WithinBudget(cost, table[..i], contentLen)
    requires prevOffset == OffsetBefore(table[..i]) && cells == Total(cost, table[..i])
    ensures if ok then WithinBudget(cost, table[..i + 1], contentLen) else !WithinBudget(cost, table, contentLen)
    ensures ok ==> total == Total(cost, table[..i + 1]) && OffsetBefore(table[..i + 1]) == Some(entry.offset)
  {
    StepDecides(cost, table, i, contentLen);
    total := cells;
    if prevOffset.Some? && entry.offset < prevOffset.value {
      return false, total;
    }
    if entry.offset > contentLen {
      return false, total;
    }
    if cost(entry) > MAX_SEGMENT_CELLS {
      return false, total;
    }
    total := total + cost(entry);
    ok := total <= MAX_CUMULATIVE_SEGMENT_CELLS;
  }

  /** The validating loop over the entries. */
  method ParseTable(cost: Cost, rest: seq<byte>, count: nat, ghost table: seq<DimSegment>) returns (r: Decoded)
    requires 4 + count * 8 <= |rest| && |table| == count
    requires forall i :: 0 <= i < count ==> table[i] == EntryAt(rest, 4 + 8 * i)
    ensures r == if WithinBudget(cost, table, |rest| - (4 + count * 8))
                 then Structured(table, rest[4 + count * 8..]) else Malformed
  {
    var contentLen := |rest| - (4 + count * 8);
    var segments: seq<DimSegment> := [];
    var prevOffset: Option<u32> := None;
    var cursor, cumulativeCells := 4, 0;
    for i := 0 to count
      invariant segments == table[..i] && cursor == 4 + 8 * i
      invariant WithinBudget(cost, table[..i], contentLen)
      invariant prevOffset == OffsetBefore(table[..i]) && cumulativeCells == Total(cost, table[..i])
    {
      var entry := EntryAt(rest, cursor);
      var ok, total := CheckEntry(cost, entry, prevOffset, cumulativeCells, contentLen, table, i);
      if !ok {
        return Malformed;
      }
      segments, prevOffset, cumulativeCells, cursor := segments + [entry], Some(entry.offset), total, cursor + 8;
      assert segments == table[..i + 1];
    }
    assert table[..count] == table;
    return Structured(segments, rest[cursor..]);
  }

  // ----- the table and its bytes -----

  lemma {:induction false} EntryRoundTrip(b: seq<byte>, at: nat, s: DimSegment)
    requires at + 8 <= |b|
    ensures EntryAt(b, at) == s <==> b[at..at + 8] == EntryBytes(s)
  {
    Widths();
    var x, y, z := b[at..at + 4], b[at + 4..at + 6], b[at + 6..at + 8];
    assert b[at..at + 8] == x + y + z;
    ToFrom(x);
    ToFrom(y);
    ToFrom(z);
    FromTo(4, s.offset);
    FromTo(2, s.cols);
    FromTo(2, s.rows);
    var e := EntryBytes(s);
    assert e[..4] == ToLittleEndian(4, s.offset);
    assert e[4..6] == ToLittleEndian(2, s.cols) && e[6..] == ToLittleEndian(2, s.rows);
    assert (x + y + z)[..4] == x && (x + y + z)[4..6] == y && (x + y + z)[6..] == z;
  }

  lemma {:induction false} PairEqual<T>(a: seq<T>, b: seq<T>, c: seq<T>, d: seq<T>)
    requires |a| == |c|
    ensures a + b == c + d <==> a == c && b == d
  {
    assert (a + b)[..|a|] == a && (a + b)[|a|..] == b;
    assert (c + d)[..|c|] == c && (c + d)[|c|..] == d;
  }

  lemma {:induction false} SplitSlice(b: seq<byte>, from: nat, mid: nat, to: nat)
    requires from <= mid <= to <= |b|
    ensures b[from..to] == b[from..mid] + b[mid..to]
  {
  }

  /** What is read and its bytes grow together. */
  lemma {:induction false} BothGrow<T>(read: seq<T>, r: T, table: seq<T>, t: T,
                                       b: seq<byte>, from: nat, mid: nat, to: nat, bytes: seq<byte>, last: seq<byte>)
    requires from <= mid <= to <= |b| && |read| == |table| && |bytes| == mid - from
    requires read == table <==> b[from..mid] == bytes
    requires r == t <==> b[mid..to] == last
    ensures read + [r] == table + [t] <==> b[from..to] == bytes + last
  {
    SplitSlice(b, from, mid, to);
    PairEqual(read, [r], table, [t]);
    PairEqual(b[from..mid], b[mid..to], bytes, last);
  }

  ghost predicate EntryMatches(b: seq<byte>, at: nat, read: DimSegment, s: DimSegment) {
    at + 8 <= |b| && (read == s <==> b[at..at + 8] == EntryBytes(s))
  }

  lemma {:induction false} OneMoreEntry(b: seq<byte>, from: nat, mid: nat, read: seq<DimSegment>, segs: seq<DimSegment>)
    requires |read| == |segs| > 0 && mid == from + 8 * (|segs| - 1)
    requires var n := |segs| - 1;
      && EntryMatches(b, mid, read[n], segs[n])
      && (read[..n] == segs[..n] <==> b[from..mid] == TableBytes(segs[..n]))
    ensures read == segs <==> b[from..mid + 8] == TableBytes(segs)
  {
    var n := |segs| - 1;
    BothGrow(read[..n], read[n], segs[..n], segs[n], b, from, mid, mid + 8, TableBytes(segs[..n]), EntryBytes(segs[n]));
    assert read == read[..n] + [read[n]] && segs == segs[..n] + [segs[n]];
  }

  /** What is read entry by entry, and the bytes it is read from. */
  lemma {:induction false} EntryByEntry(b: seq<byte>, from: nat, read: seq<DimSegment>, segs: seq<DimSegment>)
    requires |read| == |segs| && from + 8 * |segs| <= |b|
    requires forall i :: 0 <= i < |segs| ==> EntryMatches(b, from + 8 * i, read[i], segs[i])
    ensures read == segs <==> b[from..from + 8 * |segs|] == TableBytes(segs)
    decreases |segs|
  {
    if segs != [] {
      var n := |segs| - 1;
      EntryByEntry(b, from, read[..n], segs[..n]);
      OneMoreEntry(b, from, from + 8 * n, read, segs);
    }
  }

  /** The bytes of the table are read back as the table, and whatever table is read has those bytes. */
  lemma {:induction false} TableRoundTrip(rest: seq<byte>, segs: seq<DimSegment>)
    requires 4 + 8 * |segs| <= |rest|
    ensures Table(rest, |segs|) == segs <==> rest[4..4 + 8 * |segs|] == TableBytes(segs)
  {
    var read := Table(rest, |segs|);
    forall i | 0 <= i < |segs|
      ensures EntryMatches(rest, 4 + 8 * i, read[i], segs[i])
    {
      TablePrefix(rest, i, |segs|);
      EntryRoundTrip(rest, 4 + 8 * i, segs[i]);
    }
    EntryByEntry(rest, 4, read, segs);
  }

  /** The count is read back unless it was narrowed. */
  lemma {:induction false} CountRoundTrip(rest: seq<byte>, n: nat)
    requires |rest| >= 4 && n < LIMIT32
    ensures U32At(rest, 0) == n <==> rest[..4] == ToLittleEndian(4, n)
  {
    Widths();
    FromTo(4, n);
    ToFrom(rest[..4]);
    assert rest[0..4] == rest[..4];
  }

  /** The payload without its magic. */
  function Body(segs: seq<DimSegment>, content: seq<byte>): seq<byte> {
    ToLittleEndian(4, |segs| % LIMIT32) + TableBytes(segs) + content
  }

  lemma {:induction false} ThreeParts(r: seq<byte>, a: seq<byte>, b: seq<byte>, c: seq<byte>)
    ensures r == a + b + c
       <==> |r| == |a| + |b| + |c| && r[..|a|] == a && r[|a|..|a| + |b|] == b && r[|a| + |b|..] == c
  {
    if |r| == |a| + |b| + |c| {
      assert r == r[..|a|] + r[|a|..|a| + |b|] + r[|a| + |b|..];
    }
    if r == a + b + c {
      assert r[..|a|] == a && r[|a|..|a| + |b|] == b;
    }
  }

  lemma {:induction false} PartsExactly(r: seq<byte>, a: seq<byte>, b: seq<byte>, c: seq<byte>)
    ensures r == a + b + c
       <==> |r| >= |a| + |b| && r[..|a|] == a && r[|a|..|a| + |b|] == b && r[|a| + |b|..] == c
  {
    ThreeParts(r, a, b, c);
  }

  /** What the bytes after the magic hold, for a count that was not narrowed. */
  lemma {:induction false} BodyExactly(rest: seq<byte>, segs: seq<DimSegment>, content: seq<byte>)
    requires |segs| < LIMIT32
    ensures rest == Body(segs, content) <==> |rest| >= 4 + 8 * |segs| && Holds(rest, segs, content)
  {
    assert |segs| % LIMIT32 == |segs|;
    PartsExactly(rest, ToLittleEndian(4, |segs|), TableBytes(segs), content);
    if |rest| >= 4 + 8 * |segs| {
      CountRoundTrip(rest, |segs|);
      TableRoundTrip(rest, segs);
    }
  }

  /** The decoder's reading of the count, the table and the content. */
  ghost predicate Holds(rest: seq<byte>, segs: seq<DimSegment>, content: seq<byte>)
    requires |rest| >= 4 + 8 * |segs|
  {
    U32At(rest, 0) == |segs| && Table(rest, |segs|) == segs && rest[4 + 8 * |segs|..] == content
  }

  lemma {:induction false} MagicSplits(payload: seq<byte>, rest: seq<byte>)
    ensures payload == MAGIC + rest <==> MAGIC <= payload && rest == payload[|MAGIC|..]
  {
  }

  /** Decoding yields a structured payload exactly on the encodings of well-formed tables: whatever
      is decoded re-encodes to the identical bytes. */
  lemma {:induction false} StructuredExactly(payload: seq<byte>, segs: seq<DimSegment>, content: seq<byte>)
    ensures DecodePayload(payload) == Structured(segs, content)
       <==> WellFormed(segs, |content|) && payload == Payload(segs, content)
  {
    MagicSplits(payload, Body(segs, content));
    if MAGIC <= payload && |segs| <= MAX_SEGMENTS {
      BodyExactly(payload[|MAGIC|..], segs, content);
    }
  }

  /** An encoded payload decodes to its parts exactly when they are well formed, and is malformed
      otherwise as long as the count fits its 32 bits. */
  lemma {:induction false} EncodedDecodes(segs: seq<DimSegment>, content: seq<byte>)
    ensures DecodePayload(Payload(segs, content)) == Structured(segs, content) <==> WellFormed(segs, |content|)
    ensures !WellFormed(segs, |content|) && |segs| < LIMIT32 ==> DecodePayload(Payload(segs, content)) == Malformed
  {
    StructuredExactly(Payload(segs, content), segs, content);
    MagicSplits(Payload(segs, content), Body(segs, content));
    if |segs| < LIMIT32 {
      BodyExactly(Body(segs, content), segs, content);
    }
  }

  /** A payload is legacy, and passed on whole, exactly when it does not begin with the magic; one that
      begins with it but is cut off before its table ends is malformed. */
  lemma {:induction false} LegacyExactly(payload: seq<byte>)
    ensures DecodePayload(payload) == Legacy(payload)
            <==> !([0x45, 0x4D, 0x53, 0x4E, 0x41, 0x50, 0x32, 0x00] <= payload)
    ensures DecodePayload(payload).Legacy? ==> DecodePayload(payload).whole == payload
    ensures MAGIC <= payload && |payload| < 12 ==> DecodePayload(payload) == Malformed
  {
  }
}
