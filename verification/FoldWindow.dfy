/** Which buffer lines the window of a frame shows (src-tauri/src/fold.rs, `build_layout`). */
module FoldWindows {
  import opened Integers
  import opened Wrappers
  import opened FoldLines
  import opened FoldRegistry
  import opened FoldLayouts

  /** A display row shows a line of the buffer exactly when enough visible lines are there. */
  lemma {:induction false} RowInBuffer(c: seq<FoldRegion>, d: int, total: nat)
    requires Sorted(c) && 0 <= d
    ensures DisplayToActual(c, d) < total <==> d < Rank(c, total)
  {
    var a := DisplayToActual(c, d);
    DisplayToActualIsVisible(c, d);
    if a < total {
      RankGrows(c, a, total);
    } else {
      RankGrows(c, total, a);
    }
  }

  /** Every row of the window shows a line of the buffer. */
  ghost predicate WindowInBuffer(c: seq<FoldRegion>, total: nat, viewport: nat, scrollOffset: nat) {
    var start, end := WindowStart(TotalDisplay(c, total), viewport, scrollOffset),
                      WindowEnd(TotalDisplay(c, total), viewport, scrollOffset);
    forall d :: start <= d < end ==> DisplayToActual(c, d) < total
  }

  /** The window stays inside the buffer exactly when its rows are among the visible lines. */
  lemma {:induction false} WindowInBufferExactly(c: seq<FoldRegion>, total: nat, viewport: nat, scrollOffset: nat)
    requires Sorted(c)
    ensures WindowInBuffer(c, total, viewport, scrollOffset)
            <==> viewport == 0 || WindowEnd(TotalDisplay(c, total), viewport, scrollOffset) <= Rank(c, total)
  {
    var start, end := WindowStart(TotalDisplay(c, total), viewport, scrollOffset),
                      WindowEnd(TotalDisplay(c, total), viewport, scrollOffset);
    forall d | start <= d < end
      ensures DisplayToActual(c, d) < total <==> d < Rank(c, total)
    {
      RowInBuffer(c, d, total);
    }
    if viewport > 0 && WindowInBuffer(c, total, viewport, scrollOffset) {
      assert DisplayToActual(c, end - 1) < total;
    }
  }

  /** When every collapsed region ends inside the buffer, that is when the viewport is no taller than
      the total of display lines. */
  lemma {:induction false} TallWindowOverruns(c: seq<FoldRegion>, total: nat, viewport: nat, scrollOffset: nat)
    requires Sorted(c) && forall i :: 0 <= i < |c| ==> c[i].end <= total
    ensures WindowInBuffer(c, total, viewport, scrollOffset) <==> viewport == 0 || viewport <= TotalDisplay(c, total)
  {
    TotalDisplayExact(c, total);
    WindowInBufferExactly(c, total, viewport, scrollOffset);
  }

  // ----- where the window stands -----

  ghost predicate EndsInBuffer(c: seq<FoldRegion>, total: nat) {
    forall i :: 0 <= i < |c| ==> c[i].end <= total
  }

  /** Scrolling up by `scrollOffset` leaves exactly that many visible lines below the window, or as
      many as there are above the bottom window when the offset asks for more. */
  lemma {:induction false} ScrollLeavesBelow(l: FoldLayout, c: seq<FoldRegion>, scrollback: nat, viewport: nat,
                                             scrollOffset: nat)
    requires IsFrame(l, c, scrollback, viewport, scrollOffset) && Sorted(c) && EndsInBuffer(c, scrollback + viewport)
    requires viewport <= Rank(c, scrollback + viewport)
    ensures var visible := Rank(c, scrollback + viewport);
      var below := if scrollOffset < visible - viewport then scrollOffset else visible - viewport;
      l.displayStart + viewport + below == visible
  {
    TotalDisplayExact(c, scrollback + viewport);
  }

  /** A viewport taller than the visible lines starts at the first of them. */
  lemma {:induction false} TallStartsAtTop(l: FoldLayout, c: seq<FoldRegion>, scrollback: nat, viewport: nat,
                                           scrollOffset: nat)
    requires IsFrame(l, c, scrollback, viewport, scrollOffset) && Sorted(c) && EndsInBuffer(c, scrollback + viewport)
    requires Rank(c, scrollback + viewport) <= viewport
    ensures l.displayStart == 0
  {
    TotalDisplayExact(c, scrollback + viewport);
  }

  /** `line` is the visible line with `d` visible lines above it. */
  ghost predicate VisibleAt(c: seq<FoldRegion>, d: int, line: nat) {
    !Hidden(c, line) && Rank(c, line) == d
  }

  /** What a row shows: the summary of the collapsed region that starts at the line, else the line. */
  ghost predicate ShowsLine(row: FoldRowKind, c: seq<FoldRegion>, line: nat) {
    match row
    case Summary(g) => g in c && g.start == line
    case Cells(actual) => actual == line && forall g :: g in c ==> g.start != line
  }

  lemma {:induction false} RowShowsLine(row: FoldRowKind, c: seq<FoldRegion>, d: int) returns (line: nat)
    requires Sorted(c) && 0 <= d && RowIs(row, c, d)
    ensures VisibleAt(c, d, line) && ShowsLine(row, c, line)
  {
    DisplayToActualIsVisible(c, d);
    line := DisplayToActual(c, d);
    forall k | 0 <= k < |c|
      ensures SummaryAt(c, d) == Some(c[k]) <==> line == c[k].start
    {
      SummaryIsStart(c, d, k);
    }
    if SummaryAt(c, d).Some? {
      var k := SummaryIsRegion(c, d);
    }
  }

  /** Row `r` of a frame shows the visible line with `displayStart + r` visible lines above it. */
  lemma {:induction false} FrameShows(l: FoldLayout, c: seq<FoldRegion>, scrollback: nat, viewport: nat,
                                      scrollOffset: nat, r: nat)
    returns (line: nat)
    requires Sorted(c) && IsFrame(l, c, scrollback, viewport, scrollOffset) && r < viewport
    ensures |l.rows| == viewport && VisibleAt(c, l.displayStart + r, line) && ShowsLine(l.rows[r], c, line)
  {
    line := RowShowsLine(l.rows[r], c, l.displayStart + r);
  }

  // ----- a frame past the end -----

  lemma {:induction false} RunTwo(s: State, a: Op, b: Op)
    requires Consistent(s)
    ensures Consistent(Step(s, a)) && Run(s, [a, b]) == Step(Step(s, a), b)
  {
    StepKeepsConsistent(s, a);
    StepKeepsConsistent(Step(s, a), b);
    assert [a, b][1..] == [b] && [b][1..] == [];
    assert Run(Step(s, a), [b]) == Step(Step(s, a), b);
  }

  lemma {:induction false} OneFold(g: FoldRegion)
    requires g == Osc133Region(0, 9, "", None)
    ensures var m := Run(Initial, [RegisterOsc133(0, 9, "", None), Toggle(0)]).regions;
      m == map[g.id := g.(collapsed := true)]
  {
    RunTwo(Initial, RegisterOsc133(0, 9, "", None), Toggle(0));
    assert Step(Initial, RegisterOsc133(0, 9, "", None)) == State(map[g.id := g], true);
    assert Toggled(map[g.id := g], 0) == map[g.id := g.(collapsed := true)];
  }

  /** Folding nine of the ten lines of a buffer that just fills its viewport: the layout's last row
      shows line 17. */
  lemma {:induction false} OverrunExample()
    ensures var c := CollapsedList(Run(Initial, [RegisterOsc133(0, 9, "", None), Toggle(0)]).regions);
      && TotalDisplay(c, 10) == 2 && WindowEnd(TotalDisplay(c, 10), 10, 0) == 10
      && SummaryAt(c, 9) == None && DisplayToActual(c, 9) == 17
  {
    var open := Osc133Region(0, 9, "", None);
    var g := open.(collapsed := true);
    OneFold(open);
    CollapsedListIs([g], map[g.id := g]);
    OneRegion(g);
  }

  lemma {:induction false} OneRegion(g: FoldRegion)
    requires g.start == 0 && g.end == 9 && g.lineCount == 9
    ensures TotalDisplay([g], 10) == 2 && DisplayToActual([g], 9) == 17 && SummaryAt([g], 9) == None
  {
    assert HiddenBefore([g], 1) == 8;
    assert DisplayToActualFrom([g], 1, 17) == 17;
    assert SummaryFrom([g], 1, 8, 9) == None;
  }

  /** A guard the caller can check: when the buffer's length and all hidden rows together fit 32 bits,
      so does every line the layout maps to. */
  lemma {:induction false} FrameFitsWhen(c: seq<FoldRegion>, scrollback: nat, viewport: nat, scrollOffset: nat)
    requires Sorted(c) && scrollback + viewport + HiddenBefore(c, |c|) <= LIMIT32
    ensures FrameFits(c, scrollback, viewport, scrollOffset)
  {
    if viewport > 0 {
      WindowFits(c, scrollback, viewport, scrollOffset);
      var d := WindowEnd(TotalDisplay(c, scrollback + viewport), viewport, scrollOffset) - 1;
      var k := DisplayToActualWalk(c, 0, d, d);
      HiddenGrows(c, k, |c|);
    }
  }
}
