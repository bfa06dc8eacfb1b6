/** Line arithmetic of src-tauri/src/fold.rs over a sorted list of collapsed regions: the two line
    maps, the summary lookup and the display length, and what they mean. */
module FoldLines {
  import opened Integers
  import opened Wrappers

  datatype FoldSource = Osc133 | Custom

  /** The text id `osc133:<start>` / `custom:<start>`, by what it is printed from. */
  datatype FoldId = FoldId(source: FoldSource, start: u32)

  datatype FoldRegion = FoldRegion(
    id: FoldId, start: u32, end: u32, collapsed: bool, source: FoldSource,
    commandText: Option<string>, caption: Option<string>, exitCode: Option<int>, lineCount: u32)
  {
    predicate Contains(line: int) { start <= line < end }

    predicate WellFormed() { start < end && lineCount == end - start }
  }

  ghost predicate Sorted(c: seq<FoldRegion>) {
    && (forall i :: 0 <= i < |c| ==> c[i].WellFormed())
    && (forall i, j :: 0 <= i < j < |c| ==> c[i].end <= c[j].start)
  }

  // ----- the reference: which lines are visible, and how many are above a line -----

  /** A collapsed region hides every line of it but the first. */
  ghost predicate Hidden(c: seq<FoldRegion>, line: int) {
    exists i :: 0 <= i < |c| && c[i].start < line < c[i].end
  }

  /** Number of visible lines above `line`. */
  ghost function Rank(c: seq<FoldRegion>, line: nat): nat {
    if line == 0 then 0
    else Rank(c, line - 1) + (if Hidden(c, line - 1) then 0 else 1)
  }

  // ----- the program's scans -----

  /** Rows hidden by the first `k` regions: `hidden_prefix[k]`. */
  function HiddenBefore(c: seq<FoldRegion>, k: nat): int
    requires k <= |c|
  {
    if k == 0 then 0 else HiddenBefore(c, k - 1) + (c[k - 1].lineCount - 1)
  }

  function SaturatingSub(a: int, b: int): int {
    if a >= b then a - b else 0
  }

  function DisplayToActualFrom(c: seq<FoldRegion>, i: nat, actual: int): int
    requires i <= |c|
    decreases |c| - i
  {
    if i == |c| || actual <= c[i].start then actual
    else DisplayToActualFrom(c, i + 1, actual + (c[i].lineCount - 1))
  }

  function DisplayToActual(c: seq<FoldRegion>, display: int): int {
    DisplayToActualFrom(c, 0, display)
  }

  function ActualToDisplayFrom(c: seq<FoldRegion>, i: nat, offset: int, actual: int): int
    requires i <= |c|
    decreases |c| - i
  {
    if i == |c| || actual < c[i].start then SaturatingSub(actual, offset)
    else if actual < c[i].end then SaturatingSub(c[i].start, offset)
    else ActualToDisplayFrom(c, i + 1, offset + (c[i].lineCount - 1), actual)
  }

  function ActualToDisplay(c: seq<FoldRegion>, actual: int): int {
    ActualToDisplayFrom(c, 0, 0, actual)
  }

  function SummaryFrom(c: seq<FoldRegion>, i: nat, offset: int, display: int): Option<FoldRegion>
    requires i <= |c|
    decreases |c| - i
  {
    if i == |c| then None
    else
      var summary := SaturatingSub(c[i].start, offset);
      if display == summary then Some(c[i])
      else if display < summary then None
      else SummaryFrom(c, i + 1, offset + (c[i].lineCount - 1), display)
  }

  function SummaryAt(c: seq<FoldRegion>, display: int): Option<FoldRegion> {
    SummaryFrom(c, 0, 0, display)
  }

  function TotalDisplay(c: seq<FoldRegion>, total: int): int {
    SaturatingSub(total, HiddenBefore(c, |c|))
  }

  // ----- no subtraction saturates -----

  /** Line number at which region `k`'s summary is displayed. */
  function SummaryLine(c: seq<FoldRegion>, k: nat): int
    requires k < |c|
  {
    c[k].start - HiddenBefore(c, k)
  }

  /** Regions before `k` hide fewer rows than lie above region `k`: `start_line - offset` never
      saturates, and the accumulated offset fits 32 bits. */
  lemma {:induction false} HiddenFits(c: seq<FoldRegion>, k: nat)
    requires Sorted(c) && k <= |c|
    ensures 0 <= HiddenBefore(c, k)
    ensures k > 0 ==> HiddenBefore(c, k) + k <= c[k - 1].end
    ensures k < |c| ==> HiddenBefore(c, k) <= c[k].start
  {
    if k > 0 {
      HiddenFits(c, k - 1);
    }
  }

  lemma {:induction false} HiddenGrows(c: seq<FoldRegion>, k: nat, n: nat)
    requires Sorted(c) && k <= n <= |c|
    ensures HiddenBefore(c, k) <= HiddenBefore(c, n)
    ensures HiddenBefore(c, k) == HiddenBefore(c, n) <==> forall i :: k <= i < n ==> c[i].lineCount == 1
    decreases n
  {
    if k < n {
      HiddenGrows(c, k, n - 1);
    }
  }

  lemma {:induction false} SummariesIncrease(c: seq<FoldRegion>, j: nat, k: nat)
    requires Sorted(c) && j < k < |c|
    ensures SummaryLine(c, j) < SummaryLine(c, k)
    decreases k
  {
    assert c[k - 1].end <= c[k].start;
    if j < k - 1 {
      SummariesIncrease(c, j, k - 1);
    }
  }

  // ----- rank -----

  lemma {:induction false} RankInside(c: seq<FoldRegion>, k: nat, line: nat)
    requires Sorted(c) && k < |c| && c[k].start < line <= c[k].end
    ensures Rank(c, line) == Rank(c, c[k].start) + 1
    decreases line
  {
    if line == c[k].start + 1 {
      VisibleStart(c, k);
    } else {
      RankInside(c, k, line - 1);
    }
  }

  lemma {:induction false} VisibleStart(c: seq<FoldRegion>, k: nat)
    requires Sorted(c) && k < |c|
    ensures !Hidden(c, c[k].start)
  {
    forall i | 0 <= i < |c| ensures !(c[i].start < c[k].start < c[i].end) {
      if i < k {
        assert c[i].end <= c[k].start;
      } else if i > k {
        assert c[k].end <= c[i].start;
      }
    }
  }

  /** `k` regions lie above `line` and none of the others starts before it. */
  ghost predicate Between(c: seq<FoldRegion>, k: nat, line: int) {
    && k <= |c|
    && (k > 0 ==> c[k - 1].end <= line)
    && (k < |c| ==> line <= c[k].start)
  }

  lemma {:induction false} BetweenIsVisible(c: seq<FoldRegion>, k: nat, line: int)
    requires Sorted(c) && Between(c, k, line)
    ensures !Hidden(c, line)
  {
    forall i | 0 <= i < |c| ensures !(c[i].start < line < c[i].end) {
      if i < k - 1 {
        assert c[i].end <= c[k - 1].start;
      } else if i > k {
        assert c[k].end <= c[i].start;
      }
    }
  }

  /** The rank of a line between regions is the line less the rows hidden above it. */
  lemma {:induction false} RankBetween(c: seq<FoldRegion>, k: nat, line: nat)
    requires Sorted(c) && Between(c, k, line)
    ensures Rank(c, line) == line - HiddenBefore(c, k)
    decreases line
  {
    if k > 0 && c[k - 1].end == line {
      if k > 1 {
        assert c[k - 2].end <= c[k - 1].start;
      }
      RankInside(c, k - 1, line);
      RankBetween(c, k - 1, c[k - 1].start);
    } else if line > 0 {
      BetweenIsVisible(c, k, line - 1);
      RankBetween(c, k, line - 1);
    }
  }

  lemma {:induction false} RankGrows(c: seq<FoldRegion>, a: nat, b: nat)
    requires a <= b
    ensures Rank(c, a) <= Rank(c, b)
    ensures a < b && !Hidden(c, a) ==> Rank(c, a) < Rank(c, b)
    decreases b
  {
    if a < b {
      RankGrows(c, a, b - 1);
    }
  }

  // ----- what the scans compute -----

  lemma {:induction false} DisplayToActualWalk(c: seq<FoldRegion>, i: nat, display: int, actual: int) returns (k: nat)
    requires Sorted(c) && i <= |c| && 0 <= display && actual == display + HiddenBefore(c, i)
    requires i > 0 ==> c[i - 1].end <= actual
    ensures var a := DisplayToActualFrom(c, i, actual);
      Between(c, k, a) && a == display + HiddenBefore(c, k) && a >= actual
    decreases |c| - i
  {
    if i == |c| || actual <= c[i].start {
      k := i;
    } else {
      k := DisplayToActualWalk(c, i + 1, display, actual + (c[i].lineCount - 1));
    }
  }

  /** Display line `d` shows the visible line with exactly `d` visible lines above it. */
  lemma {:induction false} DisplayToActualIsVisible(c: seq<FoldRegion>, d: int)
    requires Sorted(c) && 0 <= d
    ensures var a := DisplayToActual(c, d);
      a >= d && !Hidden(c, a) && Rank(c, a) == d
  {
    var k := DisplayToActualWalk(c, 0, d, d);
    HiddenFits(c, k);
    BetweenIsVisible(c, k, DisplayToActual(c, d));
    RankBetween(c, k, DisplayToActual(c, d));
  }

  /** The line whose display row stands for `line`: the start of the region hiding it, or itself. */
  ghost function Shown(c: seq<FoldRegion>, line: int): int {
    if Hidden(c, line) then
      var i :| 0 <= i < |c| && c[i].start < line < c[i].end;
      c[i].start
    else line
  }

  lemma {:induction false} ActualToDisplayWalk(c: seq<FoldRegion>, i: nat, line: int)
    requires Sorted(c) && i <= |c| && 0 <= line && (i > 0 ==> c[i - 1].end <= line)
    ensures ActualToDisplayFrom(c, i, HiddenBefore(c, i), line) == Rank(c, Shown(c, line))
    decreases |c| - i
  {
    if i < |c| && c[i].end <= line {
      ActualToDisplayWalk(c, i + 1, line);
    } else if i < |c| && c[i].start <= line {
      HiddenFits(c, i);
      ShownInRegion(c, i, line);
      RankBetween(c, i, c[i].start);
    } else {
      NoSaturation(c, i, line);
      BetweenIsVisible(c, i, line);
    }
  }

  lemma {:induction false} NoSaturation(c: seq<FoldRegion>, k: nat, line: int)
    requires Sorted(c) && Between(c, k, line) && 0 <= line
    ensures SaturatingSub(line, HiddenBefore(c, k)) == Rank(c, line)
  {
    HiddenFits(c, k);
    RankBetween(c, k, line);
  }

  lemma {:induction false} ShownInRegion(c: seq<FoldRegion>, k: nat, line: int)
    requires Sorted(c) && k < |c| && c[k].Contains(line)
    ensures Shown(c, line) == c[k].start
    ensures Between(c, k, c[k].start)
  {
    if line == c[k].start {
      VisibleStart(c, k);
    } else {
      assert forall i :: 0 <= i < |c| && c[i].start < line < c[i].end ==> i == k;
    }
  }

  /** A line is displayed at the rank of the line that stands for it. */
  lemma {:induction false} ActualToDisplayIsRank(c: seq<FoldRegion>, line: int)
    requires Sorted(c) && 0 <= line
    ensures ActualToDisplay(c, line) == Rank(c, Shown(c, line))
    ensures !Hidden(c, line) ==> Shown(c, line) == line
  {
    ActualToDisplayWalk(c, 0, line);
  }

  // ----- the maps are inverse up to hiding -----

  lemma {:induction false} DisplayRoundTrip(c: seq<FoldRegion>, d: int)
    requires Sorted(c) && 0 <= d
    ensures ActualToDisplay(c, DisplayToActual(c, d)) == d
  {
    DisplayToActualIsVisible(c, d);
    ActualToDisplayIsRank(c, DisplayToActual(c, d));
  }

  lemma {:induction false} SameRankSameLine(c: seq<FoldRegion>, a: nat, b: nat)
    requires !Hidden(c, a) && !Hidden(c, b) && Rank(c, a) == Rank(c, b)
    ensures a == b
  {
    if a < b {
      RankGrows(c, a, b);
    } else {
      RankGrows(c, b, a);
    }
  }

  lemma {:induction false} ShownIsVisible(c: seq<FoldRegion>, line: int)
    requires Sorted(c) && 0 <= line
    ensures 0 <= Shown(c, line) <= line && !Hidden(c, Shown(c, line))
  {
    if Hidden(c, line) {
      var i :| 0 <= i < |c| && c[i].start < line < c[i].end;
      ShownInRegion(c, i, line);
      VisibleStart(c, i);
    }
  }

  /** The other composition leads a hidden line to the start of its region and keeps a visible one. */
  lemma {:induction false} ActualRoundTrip(c: seq<FoldRegion>, line: int)
    requires Sorted(c) && 0 <= line
    ensures DisplayToActual(c, ActualToDisplay(c, line)) == Shown(c, line)
  {
    var s := Shown(c, line);
    ShownIsVisible(c, line);
    ActualToDisplayIsRank(c, line);
    DisplayToActualIsVisible(c, Rank(c, s));
    SameRankSameLine(c, DisplayToActual(c, Rank(c, s)), s);
  }

  lemma {:induction false} DisplayToActualIncreases(c: seq<FoldRegion>, d1: int, d2: int)
    requires Sorted(c) && 0 <= d1 < d2
    ensures DisplayToActual(c, d1) < DisplayToActual(c, d2)
  {
    var a1, a2 := DisplayToActual(c, d1), DisplayToActual(c, d2);
    DisplayToActualIsVisible(c, d1);
    DisplayToActualIsVisible(c, d2);
    if a2 <= a1 {
      RankGrows(c, a2, a1);
    }
  }

  // ----- summary rows -----

  /** One region of the summary scan, with its true summary row. */
  lemma {:induction false} SummaryStep(c: seq<FoldRegion>, i: nat, offset: int, d: int)
    requires Sorted(c) && i < |c| && offset == HiddenBefore(c, i)
    ensures SummaryFrom(c, i, offset, d)
            == if d == SummaryLine(c, i) then Some(c[i])
               else if d < SummaryLine(c, i) then None
               else SummaryFrom(c, i + 1, HiddenBefore(c, i + 1), d)
  {
    HiddenFits(c, i);
  }

  lemma {:induction false} SummaryFound(c: seq<FoldRegion>, i: nat, k: nat)
    requires Sorted(c) && i <= k < |c|
    ensures SummaryFrom(c, i, HiddenBefore(c, i), SummaryLine(c, k)) == Some(c[k])
    decreases k - i
  {
    SummaryStep(c, i, HiddenBefore(c, i), SummaryLine(c, k));
    if i < k {
      SummariesIncrease(c, i, k);
      SummaryFound(c, i + 1, k);
    }
  }

  lemma {:induction false} SummarySound(c: seq<FoldRegion>, i: nat, d: int) returns (k: nat)
    requires Sorted(c) && i <= |c|
    requires SummaryFrom(c, i, HiddenBefore(c, i), d).Some?
    ensures i <= k < |c| && SummaryLine(c, k) == d && SummaryFrom(c, i, HiddenBefore(c, i), d) == Some(c[k])
    decreases |c| - i
  {
    SummaryStep(c, i, HiddenBefore(c, i), d);
    k := i;
    if d != SummaryLine(c, i) {
      k := SummarySound(c, i + 1, d);
    }
  }

  lemma {:induction false} RegionsDiffer(c: seq<FoldRegion>, j: nat, k: nat)
    requires Sorted(c) && j < |c| && k < |c| && c[j] == c[k]
    ensures j == k
  {
  }

  /** A display row is the summary of region `g` exactly when it maps to `g`'s start. */
  lemma {:induction false} SummaryIsStart(c: seq<FoldRegion>, d: int, k: nat)
    requires Sorted(c) && 0 <= d && k < |c|
    ensures SummaryAt(c, d) == Some(c[k]) <==> DisplayToActual(c, d) == c[k].start
  {
    ShownInRegion(c, k, c[k].start);
    RankBetween(c, k, c[k].start);
    VisibleStart(c, k);
    DisplayToActualIsVisible(c, d);
    if SummaryAt(c, d) == Some(c[k]) {
      var j := SummaryIsRegion(c, d);
      RegionsDiffer(c, j, k);
      SameRankSameLine(c, c[k].start, DisplayToActual(c, d));
    } else if DisplayToActual(c, d) == c[k].start {
      SummaryFound(c, 0, k);
    }
  }

  /** Every summary row belongs to some region. */
  lemma {:induction false} SummaryIsRegion(c: seq<FoldRegion>, d: int) returns (k: nat)
    requires Sorted(c) && SummaryAt(c, d).Some?
    ensures k < |c| && SummaryAt(c, d) == Some(c[k]) && SummaryLine(c, k) == d
  {
    k := SummarySound(c, 0, d);
  }

  // ----- total display lines -----

  /** The number of regions that end at or above a line, and the rank of that line. */
  lemma {:induction false} RankAnywhere(c: seq<FoldRegion>, line: nat) returns (k: nat)
    requires Sorted(c)
    ensures k <= |c| && (forall i :: 0 <= i < k ==> c[i].end <= line) && (forall i :: k <= i < |c| ==> line < c[i].end)
    ensures if k < |c| && c[k].start < line then Rank(c, line) == SummaryLine(c, k) + 1 && SummaryLine(c, k) >= 0
            else Rank(c, line) == line - HiddenBefore(c, k)
  {
    k := |c|;
    while k > 0 && line < c[k - 1].end
      invariant 0 <= k <= |c|
      invariant forall i :: k <= i < |c| ==> line < c[i].end
    {
      k := k - 1;
    }
    forall i | 0 <= i < k ensures c[i].end <= line {
      if i < k - 1 {
        assert c[i].end <= c[k - 1].start;
      }
    }
    if k < |c| && c[k].start < line {
      RankInside(c, k, line);
      ShownInRegion(c, k, c[k].start);
      RankBetween(c, k, c[k].start);
    } else {
      RankBetween(c, k, line);
    }
  }

  /** `get_total_display_lines` counts the visible lines of the buffer exactly when no collapsed
      region hides a row at or past its end (or the buffer is empty). */
  lemma {:induction false} TotalDisplayExact(c: seq<FoldRegion>, total: nat)
    requires Sorted(c)
    ensures TotalDisplay(c, total) == Rank(c, total)
       <==> (total == 0 || forall i :: 0 <= i < |c| ==> c[i].end <= total || c[i].lineCount == 1)
  {
    var k := RankAnywhere(c, total);
    HiddenGrows(c, k, |c|);
    if k < |c| && c[k].start < total {
      HiddenGrows(c, k + 1, |c|);
      assert c[k].lineCount > 1;
    } else if total > 0 {
      RankGrows(c, 0, total);
      assert !Hidden(c, 0);
      if k < |c| && !(forall i :: k <= i < |c| ==> c[i].lineCount == 1) {
        var i :| k <= i < |c| && c[i].lineCount != 1;
      }
    }
  }
}
