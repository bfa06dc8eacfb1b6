/** The loops of src-tauri/src/fold.rs, each proved to compute the specification of FoldLines,
    FoldRegistry or FoldLayouts it stands for. */
module FoldScans {
  import opened Integers
  import opened Wrappers
  import opened FoldLines
  import opened FoldRegistry
  import opened FoldLayouts

  // ----- loops over the registry, in any order of its keys -----

  /** The id of the region that contains a line. */
  method FindContaining(m: Regions, line: u32) returns (r: Option<FoldId>)
    requires Inv(m)
    ensures r.Some? ==> r.value in m && m[r.value].Contains(line)
    ensures forall id :: id in m && m[id].Contains(line) ==> r == Some(id)
  {
    if id :| id in m && m[id].Contains(line) {
      OnlyOneContains(m, line, id);
      return Some(id);
    }
    return None;
  }

  /** `toggle_fold` on the registry. */
  method ToggleAt(m: Regions, line: u32) returns (r: Regions, toggled: bool)
    requires Inv(m)
    ensures r == Toggled(m, line) && (toggled <==> ContainsLine(m, line)) && (!toggled ==> r == m)
  {
    var found := FindContaining(m, line);
    if found.None? {
      OutsideAll(m, line);
      return m, false;
    }
    var id := found.value;
    OnlyOneContains(m, line, id);
    return m[id := m[id].(collapsed := !m[id].collapsed)], true;
  }

  /** `expand_region_containing` on the registry. */
  method ExpandAt(m: Regions, line: u32) returns (r: Regions, expanded: bool)
    requires Inv(m)
    ensures r == Expanded(m, line) && (expanded <==> r != m)
  {
    var found := FindContaining(m, line);
    if found.None? {
      OutsideAll(m, line);
      return m, false;
    }
    var id := found.value;
    OnlyOneContains(m, line, id);
    if !m[id].collapsed {
      return m, false;
    }
    return m[id := m[id].(collapsed := false)], true;
  }

  method Unfold(m: Regions) returns (r: Regions)
    ensures r == Unfolded(m)
  {
    r := m;
    var rest := m.Keys;
    while rest != {}
      invariant rest <= m.Keys == r.Keys
      invariant forall id :: id in m ==> r[id] == if id in rest then m[id] else m[id].(collapsed := false)
      decreases rest
    {
      var id :| id in rest;
      r := r[id := r[id].(collapsed := false)];
      rest := rest - {id};
    }
  }

  method Prune(m: Regions, rows: u32) returns (survivors: Regions)
    requires Inv(m)
    ensures survivors == Pruned(m, rows)
  {
    survivors := map[];
    var done: set<FoldId> := {};
    while done < m.Keys
      invariant done <= m.Keys && forall id :: MovedPart(m, done, rows, survivors, id)
      decreases m.Keys - done
    {
      var k :| k in m && k !in done;
      var region := m[k];
      ghost var before := survivors;
      if region.end > rows && region.start >= rows {
        var moved := Shifted(region, rows);
        survivors := survivors[moved.id := moved];
      }
      forall id ensures MovedPart(m, done + {k}, rows, survivors, id) {
        assert MovedPart(m, done, rows, before, id);
      }
      done := done + {k};
    }
    forall id ensures MovedUp(m, rows, survivors, id) {
      assert MovedPart(m, done, rows, survivors, id);
    }
    PrunedIs(m, rows, survivors);
  }

  /** Pruning the regions of some keys only: what is held at `id`. */
  ghost predicate MovedPart(m: Regions, keys: set<FoldId>, n: u32, p: Regions, id: FoldId)
    requires Keyed(m) && keys <= m.Keys
  {
    var from := id.start + n;
    && (id in p <==> from < LIMIT32 && FoldId(id.source, from) in keys)
    && (id in p ==> p[id] == Shifted(m[FoldId(id.source, from)], n))
  }

  /** Filter the collapsed regions and sort them by start. */
  method SortCollapsed(m: Regions) returns (list: seq<FoldRegion>)
    requires Inv(m)
    ensures list == CollapsedList(m)
  {
    list := [];
    var rest := m.Keys;
    while rest != {}
      invariant rest <= m.Keys && IsCollapsedPart(list, m, rest)
      decreases rest
    {
      var id :| id in rest;
      if m[id].collapsed {
        PartInsert(list, m, rest, id);
        list := InsertByStart(list, m[id]);
      }
      rest := rest - {id};
    }
    CollapsedListIs(list, m);
  }

  /** `list` is the sorted list of the collapsed regions outside `rest`. */
  ghost predicate IsCollapsedPart(list: seq<FoldRegion>, m: Regions, rest: set<FoldId>) {
    && Sorted(list)
    && (forall i :: 0 <= i < |list| ==>
         list[i].collapsed && list[i].id in m && list[i].id !in rest && m[list[i].id] == list[i])
    && (forall id :: id in m && id !in rest && m[id].collapsed ==> m[id] in list)
  }

  lemma {:induction false} PartInsert(list: seq<FoldRegion>, m: Regions, rest: set<FoldId>, id: FoldId)
    requires Inv(m) && IsCollapsedPart(list, m, rest) && id in rest && id in m && m[id].collapsed
    ensures IsCollapsedPart(InsertByStart(list, m[id]), m, rest - {id})
  {
    forall i | 0 <= i < |list| ensures Disjoint(list[i], m[id]) {
      assert list[i].id != id;
    }
    InsertKeepsSorted(list, m[id]);
    var r := InsertByStart(list, m[id]);
    forall i | 0 <= i < |r|
      ensures r[i].collapsed && r[i].id in m && r[i].id !in rest - {id} && m[r[i].id] == r[i]
    {
      assert r[i] in r;
    }
  }

  // ----- loops over the sorted collapsed regions -----

  lemma {:induction false} ScanGrows(c: seq<FoldRegion>, i: nat, actual: int)
    requires Sorted(c) && i <= |c|
    ensures DisplayToActualFrom(c, i, actual) >= actual
    decreases |c| - i
  {
    if i < |c| && actual > c[i].start {
      ScanGrows(c, i + 1, actual + (c[i].lineCount - 1));
    }
  }

  /** The running line never leaves 32 bits exactly when the result does not. */
  method ScanDisplayToActual(c: seq<FoldRegion>, display: u32) returns (actual: u32)
    requires Sorted(c) && DisplayToActual(c, display) < LIMIT32
    ensures actual == DisplayToActual(c, display)
  {
    actual := display;
    var i := 0;
    while i < |c|
      invariant 0 <= i <= |c| && DisplayToActualFrom(c, i, actual) == DisplayToActual(c, display)
    {
      if actual < c[i].start {
        break;
      }
      if actual == c[i].start {
        return c[i].start;
      }
      ScanGrows(c, i + 1, actual + (c[i].lineCount - 1));
      actual := actual + (c[i].lineCount - 1);
      i := i + 1;
    }
  }

  method ScanActualToDisplay(c: seq<FoldRegion>, actual: u32) returns (display: u32)
    requires Sorted(c)
    ensures display == ActualToDisplay(c, actual)
  {
    var offset: u32 := 0;
    var i := 0;
    while i < |c|
      invariant 0 <= i <= |c| && offset == HiddenBefore(c, i)
      invariant ActualToDisplayFrom(c, i, offset, actual) == ActualToDisplay(c, actual)
    {
      if actual < c[i].start {
        break;
      }
      if actual >= c[i].start && actual < c[i].end {
        return SaturatingSub(c[i].start, offset);
      }
      HiddenFits(c, i + 1);
      offset := offset + (c[i].lineCount - 1);
      i := i + 1;
    }
    return SaturatingSub(actual, offset);
  }

  method ScanSummary(c: seq<FoldRegion>, display: u32) returns (r: Option<FoldRegion>)
    requires Sorted(c)
    ensures r == SummaryAt(c, display)
  {
    var offset: u32 := 0;
    var i := 0;
    while i < |c|
      invariant 0 <= i <= |c| && offset == HiddenBefore(c, i)
      invariant SummaryFrom(c, i, offset, display) == SummaryAt(c, display)
    {
      var summary := SaturatingSub(c[i].start, offset);
      if display == summary {
        return Some(c[i]);
      }
      if display < summary {
        break;
      }
      HiddenFits(c, i + 1);
      offset := offset + (c[i].lineCount - 1);
      i := i + 1;
    }
    return None;
  }

  method SumHidden(c: seq<FoldRegion>) returns (hidden: u32)
    requires Sorted(c)
    ensures hidden == HiddenBefore(c, |c|)
  {
    hidden := 0;
    for i := 0 to |c|
      invariant hidden == HiddenBefore(c, i)
    {
      HiddenFits(c, i + 1);
      hidden := hidden + (c[i].lineCount - 1);
    }
  }

  method PrefixSums(c: seq<FoldRegion>) returns (prefix: seq<u32>)
    requires Sorted(c)
    ensures |prefix| == |c| && ArePrefixSums(prefix, c)
  {
    prefix := [];
    var running: u32 := 0;
    for i := 0 to |c|
      invariant running == HiddenBefore(c, i) && |prefix| == i && ArePrefixSums(prefix, c)
    {
      HiddenFits(c, i + 1);
      prefix := prefix + [running];
      running := running + (c[i].lineCount - 1);
    }
  }

  /** Advance the cursor past every region whose summary is strictly above `display`. */
  method SkipAbove(c: seq<FoldRegion>, ci0: nat, offset0: u32, display: int) returns (ci: nat, offset: u32)
    requires Sorted(c) && offset0 == HiddenUpTo(c, ci0) && Passed(c, ci0, display)
    ensures ci0 <= ci && Passed(c, ci, display) && offset == HiddenUpTo(c, ci)
    ensures ci < |c| ==> display <= SummaryLine(c, ci)
  {
    ci, offset := ci0, offset0;
    while ci < |c|
      invariant ci0 <= ci <= |c| && offset == HiddenUpTo(c, ci) && Passed(c, ci, display)
    {
      HiddenFits(c, ci);
      var summary := SaturatingSub(c[ci].start, offset);
      if summary >= display {
        break;
      }
      HiddenFits(c, ci + 1);
      offset := offset + (c[ci].lineCount - 1);
      ci := ci + 1;
    }
  }

  ghost function HiddenUpTo(c: seq<FoldRegion>, k: nat): int {
    if k <= |c| then HiddenBefore(c, k) else 0
  }

  /** The forward-cursor walk over the rows of the window. */
  method WalkRows(c: seq<FoldRegion>, start: u32, viewport: u32) returns (rows: seq<FoldRowKind>)
    requires Sorted(c)
    requires viewport > 0 ==> start + viewport - 1 < LIMIT32 && DisplayToActual(c, start + viewport - 1) < LIMIT32
    ensures |rows| == viewport && AreRows(rows, c, start)
  {
    var ci, offset := SkipAbove(c, 0, 0, start);
    rows := [];
    while |rows| < viewport
      invariant |rows| <= viewport && Passed(c, ci, start + |rows|) && offset == HiddenUpTo(c, ci)
      invariant AreRows(rows, c, start)
    {
      var row;
      row, ci, offset := NextRow(c, ci, offset, start + |rows|, start + viewport - 1);
      rows := rows + [row];
    }
  }

  /** One row of the walk. */
  method NextRow(c: seq<FoldRegion>, ci0: nat, offset0: u32, display: u32, ghost last: int)
    returns (row: FoldRowKind, ci: nat, offset: u32)
    requires Sorted(c) && offset0 == HiddenUpTo(c, ci0) && Passed(c, ci0, display)
    requires display <= last && DisplayToActual(c, last) < LIMIT32
    ensures RowIs(row, c, display)
    ensures Passed(c, ci, display + 1) && offset == HiddenUpTo(c, ci)
  {
    ci, offset := SkipAbove(c, ci0, offset0, display);
    CursorReadsRow(c, ci, display);
    HiddenFits(c, ci);
    if ci < |c| && display == SaturatingSub(c[ci].start, offset) {
      row := Summary(c[ci]);
      HiddenFits(c, ci + 1);
      offset := offset + (c[ci].lineCount - 1);
      ci := ci + 1;
    } else {
      if display < last {
        DisplayToActualIncreases(c, display, last);
      }
      row := Cells(display + offset);
    }
  }

  /** `build_layout` after the registry has been read: `total` is the total of display lines. */
  method LayOut(c: seq<FoldRegion>, total: u32, viewport: u32, scrollOffset: u32) returns (l: FoldLayout)
    requires Sorted(c) && WindowEnd(total, viewport, scrollOffset) <= LIMIT32
    requires viewport > 0 ==> DisplayToActual(c, WindowEnd(total, viewport, scrollOffset) - 1) < LIMIT32
    ensures l.Valid() && l.collapsed == c && IsWindow(l, c, total, viewport, scrollOffset)
  {
    var start: u32 := SaturatingSub(SaturatingSub(total, viewport), scrollOffset);
    var prefix := PrefixSums(c);
    var rows := WalkRows(c, start, viewport);
    l := FoldLayout(rows, start, c, prefix);
  }

  /** `build_layout` on the list of collapsed regions. */
  method Frame(c: seq<FoldRegion>, scrollback: u32, viewport: u32, scrollOffset: u32) returns (l: FoldLayout)
    requires Sorted(c) && scrollback + viewport < LIMIT32 && FrameFits(c, scrollback, viewport, scrollOffset)
    ensures l.Valid() && l.collapsed == c && IsFrame(l, c, scrollback, viewport, scrollOffset)
  {
    var hidden := SumHidden(c);
    var total: u32 := SaturatingSub(scrollback + viewport, hidden);
    WindowFits(c, scrollback, viewport, scrollOffset);
    l := LayOut(c, total, viewport, scrollOffset);
  }
}
