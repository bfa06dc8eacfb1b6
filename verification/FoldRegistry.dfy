/** The registry of src-tauri/src/fold.rs as a value: what each operation does to the regions, and
    what every run of operations keeps. */
module FoldRegistry {
  import opened Integers
  import opened Wrappers
  import opened FoldLines

  type Regions = map<FoldId, FoldRegion>

  /** Keyed by (source, start), non-empty, the texts that go with the source, pairwise disjoint. */
  ghost predicate Inv(m: Regions) {
    Keyed(m) && forall a, b :: a in m && b in m && a != b ==> Disjoint(m[a], m[b])
  }

  ghost predicate Keyed(m: Regions) {
    forall id :: id in m ==> WellKeyed(id, m[id])
  }

  ghost predicate WellKeyed(id: FoldId, g: FoldRegion) {
    && g.WellFormed()
    && g.id == id == FoldId(g.source, g.start)
    && (g.source.Osc133? ==> g.commandText.Some? && g.caption.None?)
    && (g.source.Custom? ==> g.commandText.None? && g.caption.Some? && g.caption.value != "" && g.exitCode.None?)
  }

  predicate Disjoint(a: FoldRegion, b: FoldRegion) {
    a.end <= b.start || b.end <= a.start
  }

  /** The program's half-open overlap test. */
  predicate Overlaps(g: FoldRegion, start: int, end: int) {
    start < g.end && end > g.start
  }

  // ----- the operations -----

  function Osc133Region(start: u32, end: u32, text: string, exitCode: Option<int>): FoldRegion
    requires start < end
  {
    FoldRegion(FoldId(Osc133, start), start, end, false, Osc133, Some(text), None, exitCode, end - start)
  }

  function CustomRegion(start: u32, end: u32, caption: string): FoldRegion
    requires start < end
  {
    FoldRegion(FoldId(Custom, start), start, end, false, Custom, None,
               Some(if caption == "" then "..." else caption), None, end - start)
  }

  ghost predicate Rejected(m: Regions, start: int, end: int) {
    end <= start || exists id :: id in m && Overlaps(m[id], start, end)
  }

  ghost function RegisteredOsc133(m: Regions, start: u32, end: u32, text: string, exitCode: Option<int>): Regions {
    if Rejected(m, start, end) then m
    else m[FoldId(Osc133, start) := Osc133Region(start, end, text, exitCode)]
  }

  ghost function RegisteredCustom(m: Regions, start: u32, end: u32, caption: string): Regions {
    if Rejected(m, start, end) then m
    else m[FoldId(Custom, start) := CustomRegion(start, end, caption)]
  }

  /** The same regions, with the flag of those that contain `line` flipped. */
  ghost function Toggled(m: Regions, line: int): Regions {
    map id | id in m :: if m[id].Contains(line) then m[id].(collapsed := !m[id].collapsed) else m[id]
  }

  /** The same regions, with the flag of those that contain `line` cleared. */
  ghost function Expanded(m: Regions, line: int): Regions {
    map id | id in m :: if m[id].Contains(line) then m[id].(collapsed := false) else m[id]
  }

  ghost function Unfolded(m: Regions): Regions {
    map id | id in m :: m[id].(collapsed := false)
  }

  function Rebased(id: FoldId, n: u32): FoldId
    requires n <= id.start
  {
    FoldId(id.source, id.start - n)
  }

  /** The program's struct update: new id and lines, everything else of `g`. */
  function Shifted(g: FoldRegion, n: u32): FoldRegion
    requires n <= g.start && n <= g.end
  {
    g.(id := FoldId(g.source, g.start - n), start := g.start - n, end := g.end - n)
  }

  /** What `p` holds at a key after `n` rows were evicted: the region that was `n` rows further
      down, shifted and re-keyed. Regions that start above row `n` have no such key. */
  ghost predicate MovedUp(m: Regions, n: u32, p: Regions, id: FoldId)
    requires Keyed(m)
  {
    var from := id.start + n;
    && (id in p <==> from < LIMIT32 && FoldId(id.source, from) in m)
    && (id in p ==> p[id] == Shifted(m[FoldId(id.source, from)], n))
  }

  ghost predicate IsPruned(m: Regions, n: u32, p: Regions)
    requires Keyed(m)
  {
    forall id :: MovedUp(m, n, p, id)
  }

  /** The regions left after `n` evicted rows. */
  ghost function Pruned(m: Regions, n: u32): Regions
    requires Keyed(m)
  {
    PrunedExists(m, n);
    var p :| IsPruned(m, n, p);
    p
  }

  ghost function Survivors(m: Regions, n: u32): Regions
    requires Keyed(m)
  {
    map id | id in m && n <= id.start :: Rebased(id, n) := Shifted(m[id], n)
  }

  lemma {:induction false} SurvivorsMovedUp(m: Regions, n: u32, id: FoldId)
    requires Keyed(m)
    ensures MovedUp(m, n, Survivors(m, n), id)
  {
    if id in Survivors(m, n) {
      var k :| k in m && n <= k.start && id == Rebased(k, n);
      assert k == FoldId(id.source, id.start + n);
    }
    if id.start + n < LIMIT32 && FoldId(id.source, id.start + n) in m {
      assert Rebased(FoldId(id.source, id.start + n), n) == id;
    }
  }

  lemma {:induction false} PrunedExists(m: Regions, n: u32)
    requires Keyed(m)
    ensures exists p :: IsPruned(m, n, p)
  {
    var p := Survivors(m, n);
    forall id ensures MovedUp(m, n, p, id) {
      SurvivorsMovedUp(m, n, id);
    }
    assert IsPruned(m, n, p);
  }

  /** Only one registry is the pruned one. */
  lemma {:induction false} PrunedIs(m: Regions, n: u32, p: Regions)
    requires Keyed(m) && IsPruned(m, n, p)
    ensures p == Pruned(m, n)
  {
    var q := Pruned(m, n);
    forall id ensures SameAt(p, q, id) {
      assert MovedUp(m, n, p, id) && MovedUp(m, n, q, id);
    }
    SameMap(p, q);
  }

  ghost predicate SameAt(p: Regions, q: Regions, id: FoldId) {
    (id in p <==> id in q) && (id in p ==> p[id] == q[id])
  }

  lemma {:induction false} SameMap(p: Regions, q: Regions)
    requires forall id :: SameAt(p, q, id)
    ensures p == q
  {
    assert forall id :: id in p ==> SameAt(p, q, id);
    assert forall id :: id in q ==> SameAt(p, q, id);
  }

  // ----- runs -----

  datatype Op =
    | RegisterOsc133(start: u32, end: u32, text: string, exitCode: Option<int>)
    | RegisterCustom(start: u32, end: u32, caption: string)
    | Toggle(line: u32)
    | Expand(line: u32)
    | UnfoldAll
    | SetEnabled(on: bool)
    | Prune(rows: u32)

  datatype State = State(regions: Regions, enabled: bool)

  /** Disabled folding leaves nothing collapsed. */
  ghost predicate Consistent(s: State) {
    Inv(s.regions) && (!s.enabled ==> forall id :: id in s.regions ==> !s.regions[id].collapsed)
  }

  ghost function Step(s: State, op: Op): State
    requires Inv(s.regions)
  {
    match op
    case RegisterOsc133(start, end, text, code) => s.(regions := RegisteredOsc133(s.regions, start, end, text, code))
    case RegisterCustom(start, end, caption) => s.(regions := RegisteredCustom(s.regions, start, end, caption))
    case Toggle(line) => if s.enabled then s.(regions := Toggled(s.regions, line)) else s
    case Expand(line) => s.(regions := Expanded(s.regions, line))
    case UnfoldAll => s.(regions := Unfolded(s.regions))
    case SetEnabled(on) => State(if on then s.regions else Unfolded(s.regions), on)
    case Prune(rows) => s.(regions := Pruned(s.regions, rows))
  }

  lemma {:induction false} RegisterKeepsInv(m: Regions, g: FoldRegion)
    requires Inv(m) && WellKeyed(g.id, g) && !Rejected(m, g.start, g.end)
    ensures Inv(m[g.id := g])
  {
    var m' := m[g.id := g];
    forall a, b | a in m' && b in m' && a != b ensures Disjoint(m'[a], m'[b]) {
      assert a != g.id ==> !Overlaps(m[a], g.start, g.end);
      assert b != g.id ==> !Overlaps(m[b], g.start, g.end);
    }
  }

  /** Changing collapsed flags only keeps the invariant. */
  lemma {:induction false} FlagsKeepInv(m: Regions, m': Regions)
    requires Inv(m) && m'.Keys == m.Keys
    requires forall id :: id in m ==> m'[id] == m[id].(collapsed := m'[id].collapsed)
    ensures Inv(m')
  {
    forall a, b | a in m' && b in m' && a != b ensures Disjoint(m'[a], m'[b]) {
      assert Disjoint(m[a], m[b]);
    }
  }

  lemma {:induction false} PruneKeepsKeyed(m: Regions, n: u32, p: Regions)
    requires Keyed(m) && IsPruned(m, n, p)
    ensures Keyed(p)
  {
    forall id | id in p ensures WellKeyed(id, p[id]) {
      assert MovedUp(m, n, p, id);
    }
  }

  lemma {:induction false} PruneKeepsInv(m: Regions, n: u32, p: Regions)
    requires Inv(m) && IsPruned(m, n, p)
    ensures Inv(p)
    ensures forall id :: id in p ==> exists k :: k in m && p[id].collapsed == m[k].collapsed
  {
    PruneKeepsKeyed(m, n, p);
    forall a, b | a in p && b in p && a != b ensures Disjoint(p[a], p[b]) {
      assert MovedUp(m, n, p, a) && MovedUp(m, n, p, b);
      assert Disjoint(m[FoldId(a.source, a.start + n)], m[FoldId(b.source, b.start + n)]);
    }
    forall id | id in p ensures exists k :: k in m && p[id].collapsed == m[k].collapsed {
      assert MovedUp(m, n, p, id);
    }
  }

  lemma {:induction false} StepKeepsConsistent(s: State, op: Op)
    requires Consistent(s)
    ensures Consistent(Step(s, op))
  {
    match op
    case RegisterOsc133(start, end, text, code) =>
      if !Rejected(s.regions, start, end) {
        RegisterKeepsInv(s.regions, Osc133Region(start, end, text, code));
      }
    case RegisterCustom(start, end, caption) =>
      if !Rejected(s.regions, start, end) {
        RegisterKeepsInv(s.regions, CustomRegion(start, end, caption));
      }
    case Toggle(line) => FlagsKeepInv(s.regions, Toggled(s.regions, line));
    case Expand(line) => FlagsKeepInv(s.regions, Expanded(s.regions, line));
    case UnfoldAll => FlagsKeepInv(s.regions, Unfolded(s.regions));
    case SetEnabled(_) => FlagsKeepInv(s.regions, Unfolded(s.regions));
    case Prune(rows) => PruneKeepsInv(s.regions, rows, Pruned(s.regions, rows));
  }

  ghost function Run(s: State, ops: seq<Op>): (r: State)
    requires Consistent(s)
    ensures Consistent(r)
    decreases |ops|
  {
    if ops == [] then s
    else
      StepKeepsConsistent(s, ops[0]);
      Run(Step(s, ops[0]), ops[1..])
  }

  const Initial := State(map[], true)

  lemma {:induction false} MovedUpTwice(m: Regions, a: u32, b: u32, p: Regions, q: Regions, n: u32, id: FoldId)
    requires Keyed(m) && Keyed(p) && n == a + b
    requires id.start + b < LIMIT32 ==> MovedUp(m, a, p, FoldId(id.source, id.start + b))
    requires MovedUp(p, b, q, id)
    ensures MovedUp(m, n, q, id)
  {
  }

  /** Two evictions in a row are one eviction of both. */
  lemma {:induction false} PruneComposes(m: Regions, a: u32, b: u32, n: u32)
    requires Keyed(m) && n == a + b
    ensures Keyed(Pruned(m, a)) && Pruned(Pruned(m, a), b) == Pruned(m, n)
  {
    var p := Pruned(m, a);
    PruneKeepsKeyed(m, a, p);
    var q := Pruned(p, b);
    forall id ensures MovedUp(m, n, q, id) {
      assert id.start + b < LIMIT32 ==> MovedUp(m, a, p, FoldId(id.source, id.start + b));
      assert MovedUp(p, b, q, id);
      MovedUpTwice(m, a, b, p, q, n, id);
    }
    PrunedIs(m, n, q);
  }

  ghost predicate ContainsLine(m: Regions, line: int) {
    exists id :: id in m && m[id].Contains(line)
  }

  lemma {:induction false} OutsideAll(m: Regions, line: int)
    requires !ContainsLine(m, line)
    ensures Toggled(m, line) == m && Expanded(m, line) == m
  {
  }

  /** At most one region contains a line; flipping its flag is all a toggle does. */
  lemma {:induction false} OnlyOneContains(m: Regions, line: int, id: FoldId)
    requires Inv(m) && id in m && m[id].Contains(line)
    ensures forall other :: other in m && m[other].Contains(line) ==> other == id
    ensures Toggled(m, line) == m[id := m[id].(collapsed := !m[id].collapsed)]
    ensures Expanded(m, line) == m[id := m[id].(collapsed := false)]
  {
    assert forall other :: other in m && other != id ==> Disjoint(m[other], m[id]);
  }

  // ----- the collapsed regions in line order -----

  /** `c` is the sorted list of exactly the collapsed regions of `m`. */
  ghost predicate IsCollapsedList(c: seq<FoldRegion>, m: Regions) {
    && Sorted(c)
    && (forall i :: 0 <= i < |c| ==> c[i].collapsed && c[i].id in m && m[c[i].id] == c[i])
    && (forall id :: id in m && m[id].collapsed ==> m[id] in c)
  }

  lemma {:induction false} SortedListUnique(c1: seq<FoldRegion>, c2: seq<FoldRegion>)
    requires Sorted(c1) && Sorted(c2) && forall g :: g in c1 <==> g in c2
    ensures c1 == c2
    decreases |c1|
  {
    assert (c1 != [] ==> c1[0] in c2) && (c2 != [] ==> c2[0] in c1);
    if c1 != [] {
      FirstStartsFirst(c1, c2[0]);
      FirstStartsFirst(c2, c1[0]);
      var t1, t2 := c1[1..], c2[1..];
      forall g ensures g in t1 <==> g in t2 {
        InTail(c1, g);
        InTail(c2, g);
      }
      SortedListUnique(t1, t2);
      assert c1 == [c1[0]] + t1 && c2 == [c2[0]] + t2;
    }
  }

  lemma {:induction false} FirstStartsFirst(c: seq<FoldRegion>, g: FoldRegion)
    requires Sorted(c) && g in c
    ensures c[0] == g || c[0].start < g.start
  {
  }

  lemma {:induction false} InTail(c: seq<FoldRegion>, g: FoldRegion)
    requires Sorted(c) && c != []
    ensures g in c[1..] <==> g in c && g != c[0]
  {
  }

  /** Insertion in line order into the list built so far. */
  function InsertByStart(c: seq<FoldRegion>, g: FoldRegion): seq<FoldRegion> {
    if c == [] then [g]
    else if g.start <= c[0].start then [g] + c
    else [c[0]] + InsertByStart(c[1..], g)
  }

  lemma {:induction false} InsertKeepsSorted(c: seq<FoldRegion>, g: FoldRegion)
    requires Sorted(c) && g.WellFormed() && forall i :: 0 <= i < |c| ==> Disjoint(c[i], g)
    ensures Sorted(InsertByStart(c, g))
    ensures forall x :: x in InsertByStart(c, g) <==> x in c || x == g
  {
    if c != [] && g.start > c[0].start {
      InsertKeepsSorted(c[1..], g);
      var r := InsertByStart(c[1..], g);
      forall i | 0 <= i < |r| ensures c[0].end <= r[i].start {
        assert r[i] in r;
      }
    }
  }

  /** The collapsed regions in line order. */
  ghost function CollapsedList(m: Regions): (c: seq<FoldRegion>)
    requires Inv(m)
    ensures IsCollapsedList(c, m)
    decreases |m.Keys|
  {
    if m == map[] then []
    else
      var id :| id in m;
      var rest := m - {id};
      var c := CollapsedList(rest);
      assert rest.Keys == m.Keys - {id};
      if m[id].collapsed then
        ListInsert(c, rest, m, id);
        InsertByStart(c, m[id])
      else
        assert forall k :: k in m && m[k].collapsed ==> k in rest && rest[k] == m[k];
        c
  }

  lemma {:induction false} ListInsert(c: seq<FoldRegion>, rest: Regions, m: Regions, id: FoldId)
    requires Inv(m) && id in m && m[id].collapsed && rest == m - {id} && IsCollapsedList(c, rest)
    ensures IsCollapsedList(InsertByStart(c, m[id]), m)
  {
    var g := m[id];
    forall i | 0 <= i < |c| ensures Disjoint(c[i], g) {
      assert c[i].id in rest && c[i].id != id;
    }
    InsertKeepsSorted(c, g);
    var r := InsertByStart(c, g);
    forall i | 0 <= i < |r| ensures r[i].collapsed && r[i].id in m && m[r[i].id] == r[i] {
      assert r[i] in r;
    }
    forall k | k in m && m[k].collapsed ensures m[k] in r {
      assert k != id ==> k in rest && rest[k] in c;
    }
  }

  /** Any list of exactly the collapsed regions in line order is that one. */
  lemma {:induction false} CollapsedListIs(c: seq<FoldRegion>, m: Regions)
    requires Inv(m) && IsCollapsedList(c, m)
    ensures c == CollapsedList(m)
  {
    var l := CollapsedList(m);
    forall g ensures g in c <==> g in l {
      assert g in c ==> g.id in m && m[g.id] == g;
      assert g in l ==> g.id in m && m[g.id] == g;
    }
    SortedListUnique(c, l);
  }

  /** In every state some run reaches, no `start_line - offset` saturates and no accumulated offset
      leaves 32 bits. */
  lemma {:induction false} ReachableNeverSaturates(ops: seq<Op>, k: nat)
    requires k <= |CollapsedList(Run(Initial, ops).regions)|
    ensures var c := CollapsedList(Run(Initial, ops).regions);
      0 <= HiddenBefore(c, k) < LIMIT32 &&
      (k < |c| ==> SaturatingSub(c[k].start, HiddenBefore(c, k)) == c[k].start - HiddenBefore(c, k))
  {
    HiddenFits(CollapsedList(Run(Initial, ops).regions), k);
  }
}
