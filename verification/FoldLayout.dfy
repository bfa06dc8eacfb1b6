/** The frozen per-frame view of src-tauri/src/fold.rs (`FoldLayout`): binary search and prefix sums
    in place of the manager's scans. */
module FoldLayouts {
  import opened Integers
  import opened Wrappers
  import opened FoldLines

  datatype FoldRowKind = Cells(actualLine: u32) | Summary(region: FoldRegion)

  datatype FoldLayout = FoldLayout(
    rows: seq<FoldRowKind>, displayStart: u32, collapsed: seq<FoldRegion>, hiddenPrefix: seq<u32>)
  {
    ghost predicate Valid() {
      Sorted(collapsed) && |hiddenPrefix| == |collapsed| && ArePrefixSums(hiddenPrefix, collapsed)
    }

    function RegionAtLine(actual: u32): Option<FoldRegion>
    {
      RegionBefore(collapsed, PartitionPoint(collapsed, actual, 0, |collapsed|), actual)
    }

    function ActualLineToDisplay(actual: u32): int
      requires Valid()
    {
      if collapsed == [] then actual
      else DisplayFrom(collapsed, hiddenPrefix, PartitionPoint(collapsed, actual, 0, |collapsed|), actual)
    }
  }

  /** `hidden_prefix[i]` is what the first `i` regions hide. */
  ghost predicate ArePrefixSums(prefix: seq<u32>, c: seq<FoldRegion>) {
    |prefix| <= |c| && forall i :: 0 <= i < |prefix| ==> prefix[i] == HiddenBefore(c, i)
  }

  /** First index in `lo..hi` whose region starts after `line`, by bisection. */
  function PartitionPoint(c: seq<FoldRegion>, line: int, lo: nat, hi: nat): (idx: nat)
    requires lo <= hi <= |c|
    requires lo > 0 ==> c[lo - 1].start <= line
    requires hi < |c| ==> line < c[hi].start
    ensures lo <= idx <= hi
    ensures idx > 0 ==> c[idx - 1].start <= line
    ensures idx < |c| ==> line < c[idx].start
    decreases hi - lo
  {
    if lo == hi then lo
    else
      var mid := (lo + hi) / 2;
      assert lo <= mid < hi;
      if c[mid].start <= line then PartitionPoint(c, line, mid + 1, hi) else PartitionPoint(c, line, lo, mid)
  }

  /** What the lookup answers, from where the search ends. */
  function RegionBefore(c: seq<FoldRegion>, idx: nat, line: int): Option<FoldRegion>
    requires idx <= |c|
  {
    if idx == 0 then None
    else if line < c[idx - 1].end then Some(c[idx - 1])
    else None
  }

  lemma {:induction false} RegionBeforeExact(c: seq<FoldRegion>, idx: nat, line: int, g: FoldRegion)
    requires Sorted(c) && idx <= |c|
    requires idx > 0 ==> c[idx - 1].start <= line
    requires idx < |c| ==> line < c[idx].start
    ensures RegionBefore(c, idx, line) == Some(g) <==> g in c && g.Contains(line)
  {
    if g in c && g.Contains(line) {
      var k :| 0 <= k < |c| && c[k] == g;
      OnlyCandidate(c, line, idx, k);
    }
  }

  /** `region_at_line` is the collapsed region that contains the line, if there is one. */
  lemma {:induction false} RegionAtLineExact(l: FoldLayout, actual: u32, g: FoldRegion)
    requires Sorted(l.collapsed)
    ensures l.RegionAtLine(actual) == Some(g) <==> g in l.collapsed && g.Contains(actual)
  {
    RegionBeforeExact(l.collapsed, PartitionPoint(l.collapsed, actual, 0, |l.collapsed|), actual, g);
  }

  /** Only the region before the partition point can contain the line. */
  lemma {:induction false} OnlyCandidate(c: seq<FoldRegion>, line: int, idx: nat, k: nat)
    requires Sorted(c) && idx <= |c| && k < |c| && c[k].Contains(line)
    requires idx > 0 ==> c[idx - 1].start <= line
    requires idx < |c| ==> line < c[idx].start
    ensures k == idx - 1
  {
  }

  /** The display line, from where the search ends. */
  function DisplayFrom(c: seq<FoldRegion>, prefix: seq<u32>, idx: nat, line: int): int
    requires idx <= |c| == |prefix|
  {
    if idx == 0 then line
    else
      var g, before := c[idx - 1], prefix[idx - 1];
      if line < g.end then SaturatingSub(g.start, before)
      else SaturatingSub(line, before + (g.lineCount - 1))
  }

  /** The prefix sum at the search result is the offset the scan would have accumulated. */
  lemma {:induction false} SearchValue(c: seq<FoldRegion>, prefix: seq<u32>, idx: nat, line: int)
    requires idx <= |c| == |prefix| && ArePrefixSums(prefix, c)
    ensures DisplayFrom(c, prefix, idx, line) ==
      if idx == 0 then line
      else if line < c[idx - 1].end then SaturatingSub(c[idx - 1].start, HiddenBefore(c, idx - 1))
      else SaturatingSub(line, HiddenBefore(c, idx))
  {
    assert idx > 0 ==> prefix[idx - 1] == HiddenBefore(c, idx - 1);
  }

  lemma {:induction false} LineBetween(c: seq<FoldRegion>, k: nat, line: int)
    requires Sorted(c) && Between(c, k, line) && 0 <= line
    ensures SaturatingSub(line, HiddenBefore(c, k)) == Rank(c, Shown(c, line))
  {
    BetweenIsVisible(c, k, line);
    NoSaturation(c, k, line);
  }

  lemma {:induction false} DisplayFromIsScan(c: seq<FoldRegion>, prefix: seq<u32>, idx: nat, line: int)
    requires Sorted(c) && idx <= |c| == |prefix| && ArePrefixSums(prefix, c) && 0 <= line
    requires idx > 0 ==> c[idx - 1].start <= line
    requires idx < |c| ==> line < c[idx].start
    ensures DisplayFrom(c, prefix, idx, line) == ActualToDisplay(c, line)
  {
    SearchValue(c, prefix, idx, line);
    ActualToDisplayIsRank(c, line);
    if idx > 0 && line < c[idx - 1].end {
      SummaryOfRegion(c, idx - 1, line);
    } else {
      LineBetween(c, idx, line);
      assert idx == 0 ==> HiddenBefore(c, idx) == 0;
    }
  }

  /** Binary search plus the prefix sum answers exactly what the manager's linear scan answers. */
  lemma {:induction false} SearchRefinesScan(l: FoldLayout, actual: u32)
    requires l.Valid()
    ensures l.ActualLineToDisplay(actual) == ActualToDisplay(l.collapsed, actual)
  {
    DisplayFromIsScan(l.collapsed, l.hiddenPrefix, PartitionPoint(l.collapsed, actual, 0, |l.collapsed|), actual);
  }

  lemma {:induction false} SummaryOfRegion(c: seq<FoldRegion>, k: nat, line: int)
    requires Sorted(c) && k < |c| && c[k].Contains(line)
    ensures SaturatingSub(c[k].start, HiddenBefore(c, k)) == Rank(c, Shown(c, line))
  {
    HiddenFits(c, k);
    ShownInRegion(c, k, line);
    RankBetween(c, k, c[k].start);
  }

  /** What one row of a layout must be, by the manager's per-line queries. */
  ghost predicate RowIs(row: FoldRowKind, c: seq<FoldRegion>, display: int) {
    match SummaryAt(c, display)
    case Some(g) => row == Summary(g)
    case None => row.Cells? && row.actualLine == DisplayToActual(c, display)
  }

  ghost predicate AreRows(rows: seq<FoldRowKind>, c: seq<FoldRegion>, start: int) {
    forall r :: 0 <= r < |rows| ==> RowIs(rows[r], c, start + r)
  }

  /** Top display line of the window, from the total of display lines. */
  function WindowStart(total: int, viewport: int, scrollOffset: int): int {
    SaturatingSub(SaturatingSub(total, viewport), scrollOffset)
  }

  function WindowEnd(total: int, viewport: int, scrollOffset: int): int {
    WindowStart(total, viewport, scrollOffset) + viewport
  }

  /** The layout of one frame: exactly `viewport` rows, each what the per-line queries say. */
  ghost predicate IsWindow(l: FoldLayout, c: seq<FoldRegion>, total: int, viewport: int, scrollOffset: int) {
    && l.displayStart == WindowStart(total, viewport, scrollOffset)
    && |l.rows| == viewport
    && AreRows(l.rows, c, l.displayStart)
  }

  /** The layout of a buffer of `scrollback + viewport` lines. */
  ghost predicate IsFrame(l: FoldLayout, c: seq<FoldRegion>, scrollback: int, viewport: int, scrollOffset: int) {
    IsWindow(l, c, TotalDisplay(c, scrollback + viewport), viewport, scrollOffset)
  }

  /** No addition leaves 32 bits: the window's last row maps to a 32-bit line. */
  ghost predicate FrameFits(c: seq<FoldRegion>, scrollback: int, viewport: int, scrollOffset: int) {
    viewport > 0 ==>
      DisplayToActual(c, WindowEnd(TotalDisplay(c, scrollback + viewport), viewport, scrollOffset) - 1) < LIMIT32
  }

  /** The forward cursor: every region before `ci` has its summary above `display`. */
  ghost predicate Passed(c: seq<FoldRegion>, ci: nat, display: int) {
    ci <= |c| && forall j :: 0 <= j < ci ==> SummaryLine(c, j) < display
  }

  /** With the cursor at the first region not above `display`, the row kind and the line are read
      off in constant time. */
  lemma {:induction false} CursorReadsRow(c: seq<FoldRegion>, ci: nat, display: int)
    requires Sorted(c) && 0 <= display && Passed(c, ci, display)
    requires ci < |c| ==> display <= SummaryLine(c, ci)
    ensures ci < |c| && SummaryLine(c, ci) == display ==> SummaryAt(c, display) == Some(c[ci])
    ensures !(ci < |c| && SummaryLine(c, ci) == display) ==>
      SummaryAt(c, display) == None && DisplayToActual(c, display) == display + HiddenBefore(c, ci)
  {
    if ci < |c| && SummaryLine(c, ci) == display {
      SummaryFound(c, 0, ci);
    } else {
      if SummaryAt(c, display).Some? {
        var k := SummaryIsRegion(c, display);
        if ci < |c| && ci < k {
          SummariesIncrease(c, ci, k);
        }
        assert false;
      }
      CursorIsBetween(c, ci, display);
      BetweenIsVisible(c, ci, display + HiddenBefore(c, ci));
      HiddenFits(c, ci);
      RankBetween(c, ci, display + HiddenBefore(c, ci));
      DisplayToActualIsVisible(c, display);
      SameRankSameLine(c, DisplayToActual(c, display), display + HiddenBefore(c, ci));
    }
  }

  lemma {:induction false} CursorIsBetween(c: seq<FoldRegion>, ci: nat, display: int)
    requires Sorted(c) && Passed(c, ci, display)
    requires ci < |c| ==> display <= SummaryLine(c, ci)
    ensures Between(c, ci, display + HiddenBefore(c, ci))
  {
    if ci > 0 {
      assert SummaryLine(c, ci - 1) < display;
    }
  }

  /** The index past the window's last display row is at most the number of lines, so it fits 32 bits. */
  lemma {:induction false} WindowFits(c: seq<FoldRegion>, scrollback: nat, viewport: nat, scrollOffset: nat)
    requires Sorted(c)
    ensures WindowEnd(TotalDisplay(c, scrollback + viewport), viewport, scrollOffset) <= scrollback + viewport
  {
    HiddenFits(c, |c|);
  }
}
