/** What the operations of src-tauri/src/fold.rs mean line by line. A registry says of each line which
    region contains it; every operation is described by what it does to that answer, with no mention
    of keys, maps or overlap tests. */
module FoldEffects {
  import opened Integers
  import opened Wrappers
  import opened FoldLines
  import opened FoldRegistry

  ghost predicate Holds(m: Regions, line: int, g: FoldRegion) {
    exists id :: id in m && m[id] == g && g.Contains(line)
  }

  /** The region that contains a line. */
  ghost function RegionAt(m: Regions, line: int): Option<FoldRegion> {
    if g :| Holds(m, line, g) then Some(g) else None
  }

  lemma {:induction false} RegionAtIs(m: Regions, line: int, id: FoldId)
    requires Inv(m) && id in m && m[id].Contains(line)
    ensures RegionAt(m, line) == Some(m[id])
  {
    assert Holds(m, line, m[id]);
    var g := RegionAt(m, line).value;
    var other :| other in m && m[other] == g && g.Contains(line);
    OnlyOneContains(m, line, id);
  }

  lemma {:induction false} RegionAtFrom(m: Regions, line: int) returns (id: FoldId)
    requires RegionAt(m, line).Some?
    ensures id in m && m[id].Contains(line) && RegionAt(m, line) == Some(m[id])
  {
    var g := RegionAt(m, line).value;
    id :| id in m && m[id] == g && g.Contains(line);
  }

  /** A registry that keeps the invariant is what it says of the lines. */
  lemma {:induction false} LinesDecide(m: Regions, n: Regions)
    requires Inv(m) && Inv(n) && forall line :: RegionAt(m, line) == RegionAt(n, line)
    ensures m == n
  {
    forall id
      ensures SameAt(m, n, id)
    {
      if id in m {
        InOther(m, n, id);
      }
      if id in n {
        InOther(n, m, id);
      }
    }
    SameMap(m, n);
  }

  lemma {:induction false} InOther(m: Regions, n: Regions, id: FoldId)
    requires Inv(m) && Inv(n) && id in m && RegionAt(m, m[id].start) == RegionAt(n, m[id].start)
    ensures id in n && n[id] == m[id]
  {
    var start := m[id].start;
    RegionAtIs(m, start, id);
    var k := RegionAtFrom(n, start);
    assert WellKeyed(id, m[id]) && WellKeyed(k, n[k]);
  }

  // ----- the effect of each operation on a line -----

  /** No line of the range is in a region. */
  ghost predicate Free(m: Regions, start: int, end: int) {
    forall line :: start <= line < end ==> RegionAt(m, line).None?
  }

  /** An uncollapsed region, with the text of its kind. */
  function NewRegion(source: FoldSource, start: u32, end: u32, text: string, exitCode: Option<int>): FoldRegion
    requires start < end
  {
    match source
    case Osc133 =>
      FoldRegion(FoldId(Osc133, start), start, end, false, Osc133, Some(text), None, exitCode, end - start)
    case Custom =>
      FoldRegion(FoldId(Custom, start), start, end, false, Custom, None, Some(text), None, end - start)
  }

  ghost function WithRegion(m: Regions, g: FoldRegion, line: int): Option<FoldRegion> {
    if g.Contains(line) && Free(m, g.start, g.end) then Some(g) else RegionAt(m, line)
  }

  /** What the line's region becomes. */
  ghost function Effect(s: State, op: Op, line: int): Option<FoldRegion> {
    var now := RegionAt(s.regions, line);
    match op
    case RegisterOsc133(start, end, text, exitCode) =>
      if start < end then WithRegion(s.regions, NewRegion(Osc133, start, end, text, exitCode), line) else now
    case RegisterCustom(start, end, caption) =>
      if start < end then
        WithRegion(s.regions, NewRegion(Custom, start, end, if caption == "" then "..." else caption, None), line)
      else now
    case Toggle(at) =>
      if now.Some? && now.value.Contains(at) && s.enabled then Some(now.value.(collapsed := !now.value.collapsed))
      else now
    case Expand(at) =>
      if now.Some? && now.value.Contains(at) then Some(now.value.(collapsed := false)) else now
    case UnfoldAll => Open(now)
    case SetEnabled(on) => if on then now else Open(now)
    case Prune(rows) => MovedRegion(RegionAt(s.regions, line + rows), rows)
  }

  function Open(g: Option<FoldRegion>): Option<FoldRegion> {
    if g.Some? then Some(g.value.(collapsed := false)) else None
  }

  /** A region that lost its first line to the eviction is gone; another moves up with its text. */
  function MovedRegion(g: Option<FoldRegion>, rows: u32): Option<FoldRegion> {
    if g.Some? && g.value.WellFormed() && rows <= g.value.start then
      Some(g.value.(id := FoldId(g.value.source, g.value.start - rows),
                    start := g.value.start - rows, end := g.value.end - rows))
    else None
  }

  // ----- registering -----

  /** The overlap test rejects exactly the empty ranges and those with a line already taken: a region
      that only touches another is admitted. */
  lemma {:induction false} RejectedExactly(m: Regions, start: int, end: int)
    requires Inv(m)
    ensures Rejected(m, start, end) <==> end <= start || !Free(m, start, end)
  {
    if start < end && Rejected(m, start, end) {
      var id :| id in m && Overlaps(m[id], start, end);
      assert WellKeyed(id, m[id]);
      var line := if m[id].start < start then start else m[id].start;
      RegionAtIs(m, line, id);
    }
    if !Free(m, start, end) {
      var line :| start <= line < end && RegionAt(m, line).Some?;
      var id := RegionAtFrom(m, line);
      assert Overlaps(m[id], start, end);
    }
  }

  lemma {:induction false} AddedAt(m: Regions, g: FoldRegion, line: int)
    requires Inv(m) && WellKeyed(g.id, g) && !Rejected(m, g.start, g.end)
    ensures RegionAt(m[g.id := g], line) == if g.Contains(line) then Some(g) else RegionAt(m, line)
  {
    var n := m[g.id := g];
    RegisterKeepsInv(m, g);
    if g.Contains(line) {
      RegionAtIs(n, line, g.id);
    } else if RegionAt(m, line).Some? {
      var id := RegionAtFrom(m, line);
      KeyIsFree(m, g);
      RegionAtIs(n, line, id);
    } else if RegionAt(n, line).Some? {
      var id := RegionAtFrom(n, line);
      RegionAtIs(m, line, id);
    }
  }

  lemma {:induction false} KeyIsFree(m: Regions, g: FoldRegion)
    requires Inv(m) && WellKeyed(g.id, g) && !Rejected(m, g.start, g.end)
    ensures g.id !in m
  {
    assert g.id in m ==> WellKeyed(g.id, m[g.id]);
  }

  lemma {:induction false} RegisterEffect(s: State, op: Op, line: int)
    requires Consistent(s) && (op.RegisterOsc133? || op.RegisterCustom?)
    ensures RegionAt(Step(s, op).regions, line) == Effect(s, op, line)
  {
    RejectedExactly(s.regions, op.start, op.end);
    if !Rejected(s.regions, op.start, op.end) {
      var g := if op.RegisterOsc133? then NewRegion(Osc133, op.start, op.end, op.text, op.exitCode)
               else NewRegion(Custom, op.start, op.end, if op.caption == "" then "..." else op.caption, None);
      assert WellKeyed(g.id, g);
      AddedAt(s.regions, g, line);
    }
  }

  // ----- flags -----

  /** An operation that only sets flags leaves each line in the region it was in. */
  lemma {:induction false} FlagEffect(m: Regions, n: Regions, line: int)
    requires Inv(m) && n.Keys == m.Keys
    requires forall id :: id in m ==> n[id] == m[id].(collapsed := n[id].collapsed)
    ensures RegionAt(m, line).None? <==> RegionAt(n, line).None?
    ensures forall id :: id in m && m[id].Contains(line) ==>
      RegionAt(m, line) == Some(m[id]) && RegionAt(n, line) == Some(n[id])
  {
    FlagsKeepInv(m, n);
    forall id | id in m && m[id].Contains(line)
      ensures RegionAt(m, line) == Some(m[id]) && RegionAt(n, line) == Some(n[id])
    {
      RegionAtIs(m, line, id);
      RegionAtIs(n, line, id);
    }
    if RegionAt(m, line).Some? {
      var id := RegionAtFrom(m, line);
    }
    if RegionAt(n, line).Some? {
      var id := RegionAtFrom(n, line);
    }
  }

  lemma {:induction false} AtEffect(s: State, op: Op, line: int)
    requires Consistent(s) && (op.Toggle? || op.Expand?)
    ensures RegionAt(Step(s, op).regions, line) == Effect(s, op, line)
  {
    FlagEffect(s.regions, Step(s, op).regions, line);
    if RegionAt(s.regions, line).Some? {
      var id := RegionAtFrom(s.regions, line);
    }
  }

  lemma {:induction false} AllEffect(s: State, op: Op, line: int)
    requires Consistent(s) && (op.UnfoldAll? || op.SetEnabled?)
    ensures RegionAt(Step(s, op).regions, line) == Effect(s, op, line)
  {
    FlagEffect(s.regions, Step(s, op).regions, line);
    if RegionAt(s.regions, line).Some? {
      var id := RegionAtFrom(s.regions, line);
    }
  }

  // ----- eviction -----

  lemma {:induction false} PruneEffect(m: Regions, rows: u32, line: int)
    requires Inv(m) && 0 <= line
    ensures RegionAt(Pruned(m, rows), line) == MovedRegion(RegionAt(m, line + rows), rows)
  {
    var p := Pruned(m, rows);
    PruneKeepsInv(m, rows, p);
    if RegionAt(p, line).Some? {
      var id := RegionAtFrom(p, line);
      assert MovedUp(m, rows, p, id);
      RegionAtIs(m, line + rows, FoldId(id.source, id.start + rows));
    } else if RegionAt(m, line + rows).Some? {
      var id := RegionAtFrom(m, line + rows);
      assert WellKeyed(id, m[id]);
      if rows <= id.start {
        assert MovedUp(m, rows, p, Rebased(id, rows));
        RegionAtIs(p, line, Rebased(id, rows));
      }
    }
  }

  /** Every operation does to every line what `Effect` says, in every reachable state. */
  lemma {:induction false} StepEffect(s: State, op: Op, line: int)
    requires Consistent(s) && 0 <= line
    ensures RegionAt(Step(s, op).regions, line) == Effect(s, op, line)
  {
    match op
    case Prune(rows) => PruneEffect(s.regions, rows, line);
    case RegisterOsc133(_, _, _, _) => RegisterEffect(s, op, line);
    case RegisterCustom(_, _, _) => RegisterEffect(s, op, line);
    case Toggle(_) => AtEffect(s, op, line);
    case Expand(_) => AtEffect(s, op, line);
    case _ => AllEffect(s, op, line);
  }

  /** A line is hidden by the folds exactly when the region that contains it is collapsed and does not
      start there. */
  lemma {:induction false} HiddenExactly(m: Regions, line: int)
    requires Inv(m)
    ensures Hidden(CollapsedList(m), line)
            <==> RegionAt(m, line).Some? && RegionAt(m, line).value.collapsed && RegionAt(m, line).value.start < line
  {
    var c := CollapsedList(m);
    if Hidden(c, line) {
      var i :| 0 <= i < |c| && c[i].start < line < c[i].end;
      RegionAtIs(m, line, c[i].id);
    }
    if RegionAt(m, line).Some? {
      var id := RegionAtFrom(m, line);
      if m[id].collapsed && m[id].start < line {
        var i :| 0 <= i < |c| && c[i] == m[id];
      }
    }
  }
}
