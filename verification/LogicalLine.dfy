/** The soft-wrapped line of src-tauri/src/logical_line.rs: its text, the cell behind every character,
    and the cell segments of a character range. */
module LogicalLines {
  import opened Integers
  import opened Wrappers

  datatype LogicalCell<R> = LogicalCell(row: R, col: u16, width: u16)

  datatype Segment<R> = Segment(row: R, colStart: u16, colEnd: u16)

  /** One physical cell: its text and its width in columns. */
  datatype Grapheme = Grapheme(text: string, width: u16) {
    function Shown(): (s: string)
      ensures s != ""
    {
      if text == "" then " " else text
    }
  }

  function SaturatingAdd(a: u16, b: u16): u16 {
    if a + b < LIMIT16 then a + b else LIMIT16 - 1
  }

  function SpanEnd<R>(c: LogicalCell<R>): u16 {
    SaturatingAdd(c.col, if c.width > 1 then c.width else 1)
  }

  // ----- what pushing a row appends -----

  function Copies<T>(x: T, n: nat): (s: seq<T>)
    ensures |s| == n && forall i :: 0 <= i < n ==> s[i] == x
  {
    seq(n, _ => x)
  }

  function RowText(graphemes: seq<Grapheme>): string {
    if graphemes == [] then ""
    else RowText(graphemes[..|graphemes| - 1]) + graphemes[|graphemes| - 1].Shown()
  }

  function EndColumn(graphemes: seq<Grapheme>): u16 {
    if graphemes == [] then 0
    else SaturatingAdd(EndColumn(graphemes[..|graphemes| - 1]), graphemes[|graphemes| - 1].width)
  }

  function RowCells<R>(row: R, graphemes: seq<Grapheme>): (cells: seq<LogicalCell<R>>)
    ensures |cells| == |RowText(graphemes)|
  {
    if graphemes == [] then []
    else
      var init, last := graphemes[..|graphemes| - 1], graphemes[|graphemes| - 1];
      RowCells(row, init) + Copies(LogicalCell(row, EndColumn(init), last.width), |last.Shown()|)
  }

  function Width(graphemes: seq<Grapheme>): nat {
    if graphemes == [] then 0 else Width(graphemes[..|graphemes| - 1]) + graphemes[|graphemes| - 1].width
  }

  lemma {:induction false} EndColumnIsWidth(graphemes: seq<Grapheme>)
    ensures EndColumn(graphemes) == if Width(graphemes) < LIMIT16 then Width(graphemes) else LIMIT16 - 1
  {
    if graphemes != [] {
      EndColumnIsWidth(graphemes[..|graphemes| - 1]);
    }
  }

  lemma {:induction false} PrefixAt<T>(a: seq<T>, b: seq<T>, n: nat)
    requires a <= b && n < |a|
    ensures n < |b| && b[n] == a[n]
  {
  }

  lemma {:induction false} TextOfPrefix(graphemes: seq<Grapheme>, i: nat)
    requires i <= |graphemes|
    ensures RowText(graphemes[..i]) <= RowText(graphemes)
    decreases |graphemes|
  {
    if i < |graphemes| {
      var init := graphemes[..|graphemes| - 1];
      TextOfPrefix(init, i);
      assert init[..i] == graphemes[..i];
    } else {
      assert graphemes[..i] == graphemes;
    }
  }

  lemma {:induction false} CellsOfPrefix<R>(row: R, graphemes: seq<Grapheme>, i: nat)
    requires i <= |graphemes|
    ensures RowCells(row, graphemes[..i]) <= RowCells(row, graphemes)
    decreases |graphemes|
  {
    if i < |graphemes| {
      var init := graphemes[..|graphemes| - 1];
      CellsOfPrefix(row, init, i);
      assert init[..i] == graphemes[..i];
    } else {
      assert graphemes[..i] == graphemes;
    }
  }

  lemma {:induction false} TextAt(graphemes: seq<Grapheme>, i: nat, k: nat, n: nat)
    requires i < |graphemes| && k < |graphemes[i].Shown()| && n == |RowText(graphemes[..i])| + k
    ensures n < |RowText(graphemes)| && RowText(graphemes)[n] == graphemes[i].Shown()[k]
  {
    var upTo := graphemes[..i + 1];
    assert upTo[..i] == graphemes[..i] && upTo[i] == graphemes[i];
    assert RowText(upTo) == RowText(graphemes[..i]) + graphemes[i].Shown();
    TextOfPrefix(graphemes, i + 1);
    PrefixAt(RowText(upTo), RowText(graphemes), n);
  }

  lemma {:induction false} CellAt<R>(row: R, graphemes: seq<Grapheme>, i: nat, k: nat, n: nat)
    requires i < |graphemes| && k < |graphemes[i].Shown()| && n == |RowCells(row, graphemes[..i])| + k
    ensures n < |RowCells(row, graphemes)|
    ensures RowCells(row, graphemes)[n] == LogicalCell(row, EndColumn(graphemes[..i]), graphemes[i].width)
  {
    var upTo, cell := graphemes[..i + 1], LogicalCell(row, EndColumn(graphemes[..i]), graphemes[i].width);
    assert upTo[..i] == graphemes[..i] && upTo[i] == graphemes[i];
    assert RowCells(row, upTo) == RowCells(row, graphemes[..i]) + Copies(cell, |graphemes[i].Shown()|);
    CellsOfPrefix(row, graphemes, i + 1);
    PrefixAt(RowCells(row, upTo), RowCells(row, graphemes), n);
  }

  /** Character `k` of grapheme `i`, a space for an empty one, stands at its place in the text, and its
      cell starts where the widths before it end (capped at the last column a `u16` can name). */
  lemma {:induction false} CharOfGrapheme<R>(row: R, graphemes: seq<Grapheme>, i: nat, k: nat)
    requires i < |graphemes| && (k < |graphemes[i].text| || (graphemes[i].text == "" && k == 0))
    ensures var n, w := |RowText(graphemes[..i])| + k, Width(graphemes[..i]);
      && n < |RowText(graphemes)|
      && RowText(graphemes)[n] == (if graphemes[i].text == "" then ' ' else graphemes[i].text[k])
      && RowCells(row, graphemes)[n]
         == LogicalCell(row, if w < LIMIT16 then w else LIMIT16 - 1, graphemes[i].width)
  {
    EndColumnIsWidth(graphemes[..i]);
    TextAt(graphemes, i, k, |RowText(graphemes[..i])| + k);
    CellAt(row, graphemes, i, k, |RowText(graphemes[..i])| + k);
  }

  // ----- segments -----

  /** One segment per run of cells that touch on the same row. */
  function SegmentsOf<R(==)>(cells: seq<LogicalCell<R>>): (segments: seq<Segment<R>>)
    ensures segments == [] <==> cells == []
  {
    if cells == [] then []
    else
      var before, c := SegmentsOf(cells[..|cells| - 1]), cells[|cells| - 1];
      if before != [] && before[|before| - 1].row == c.row && c.col <= before[|before| - 1].colEnd then
        var last := before[|before| - 1];
        before[|before| - 1 := last.(colEnd := if last.colEnd < SpanEnd(c) then SpanEnd(c) else last.colEnd)]
      else before + [Segment(c.row, c.col, SpanEnd(c))]
  }

  function Range<T>(s: seq<T>, from: nat, to: nat): seq<T> {
    if from >= |s| || to <= from then [] else s[from..if to < |s| then to else |s|]
  }

  /** One more grapheme behind earlier text and cells. */
  lemma {:induction false} RowGrows<R>(row: R, graphemes: seq<Grapheme>, i: nat,
                                       text: string, cells: seq<LogicalCell<R>>)
    requires i < |graphemes|
    ensures var g, col := graphemes[i], EndColumn(graphemes[..i]);
      && EndColumn(graphemes[..i + 1]) == SaturatingAdd(col, g.width)
      && text + RowText(graphemes[..i + 1]) == text + RowText(graphemes[..i]) + g.Shown()
      && cells + RowCells(row, graphemes[..i + 1])
         == cells + RowCells(row, graphemes[..i]) + Copies(LogicalCell(row, col, g.width), |g.Shown()|)
  {
    assert graphemes[..i + 1][..i] == graphemes[..i];
  }

  /** One cell for each of `n` characters. */
  method AppendCopies<R>(cells: seq<LogicalCell<R>>, cell: LogicalCell<R>, n: nat) returns (r: seq<LogicalCell<R>>)
    ensures r == cells + Copies(cell, n)
  {
    r := cells;
    for k := 0 to n
      invariant r == cells + Copies(cell, k)
    {
      r := r + [cell];
    }
  }

  class LogicalLine<R(==)> {
    var text: string
    var cells: seq<LogicalCell<R>>

    constructor ()
      ensures text == "" && cells == []
    {
      text, cells := "", [];
    }

    method PushRow(row: R, graphemes: seq<Grapheme>)
      modifies this
      ensures text == old(text) + RowText(graphemes)
      ensures cells == old(cells) + RowCells(row, graphemes)
    {
      var col: u16 := 0;
      for i := 0 to |graphemes|
        invariant col == EndColumn(graphemes[..i])
        invariant text == old(text) + RowText(graphemes[..i])
        invariant cells == old(cells) + RowCells(row, graphemes[..i])
      {
        var ch, width := graphemes[i].Shown(), graphemes[i].width;
        RowGrows(row, graphemes, i, old(text), old(cells));
        cells := AppendCopies(cells, LogicalCell(row, col, width), |ch|);
        text := text + ch;
        col := SaturatingAdd(col, width);
      }
      assert graphemes[..|graphemes|] == graphemes;
    }

    method CharIndexAt(row: R, col: u16) returns (r: Option<nat>)
      ensures r.Some? ==> r.value < |cells| && cells[r.value].row == row && cells[r.value].col == col
      ensures forall i :: 0 <= i < (if r.Some? then r.value else |cells|) ==>
        !(cells[i].row == row && cells[i].col == col)
    {
      for i := 0 to |cells|
        invariant forall j :: 0 <= j < i ==> !(cells[j].row == row && cells[j].col == col)
      {
        if cells[i].row == row && cells[i].col == col {
          return Some(i);
        }
      }
      return None;
    }

    method CharRangeToSegments(startChar: nat, endChar: nat) returns (segments: seq<Segment<R>>)
      ensures segments == SegmentsOf(Range(cells, startChar, endChar))
    {
      segments := [];
      var range := Range(cells, startChar, endChar);
      for i := 0 to |range|
        invariant segments == SegmentsOf(range[..i])
      {
        assert range[..i + 1][..i] == range[..i];
        var c := range[i];
        var colStart, colEnd := c.col, SpanEnd(c);
        if segments != [] && segments[|segments| - 1].row == c.row && colStart <= segments[|segments| - 1].colEnd {
          var last := segments[|segments| - 1];
          segments := segments[|segments| - 1 := last.(colEnd := if last.colEnd < colEnd then colEnd else last.colEnd)];
        } else {
          segments := segments + [Segment(c.row, colStart, colEnd)];
        }
      }
      assert range[..|range|] == range;
    }
  }

  // ----- lines built from rows -----

  datatype Row<R> = Row(coordinate: R, graphemes: seq<Grapheme>)

  function LineText<R>(rows: seq<Row<R>>): string {
    if rows == [] then "" else LineText(rows[..|rows| - 1]) + RowText(rows[|rows| - 1].graphemes)
  }

  function LineCells<R>(rows: seq<Row<R>>): (cells: seq<LogicalCell<R>>)
    ensures |cells| == |LineText(rows)|
  {
    if rows == [] then []
    else LineCells(rows[..|rows| - 1]) + RowCells(rows[|rows| - 1].coordinate, rows[|rows| - 1].graphemes)
  }

  ghost predicate DistinctRows<R>(rows: seq<Row<R>>) {
    forall i, j :: 0 <= i < j < |rows| ==> rows[i].coordinate != rows[j].coordinate
  }

  /** Neighbours on one row touch: the next cell starts within the span of the one before. */
  ghost predicate Linked<R>(cells: seq<LogicalCell<R>>) {
    forall i :: 0 < i < |cells| && cells[i - 1].row == cells[i].row ==>
      cells[i - 1].col <= cells[i].col <= SpanEnd(cells[i - 1])
  }

  /** The cells of one row stand together. */
  ghost predicate Grouped<R>(cells: seq<LogicalCell<R>>) {
    forall i, j, k :: 0 <= i < j < k < |cells| && cells[i].row == cells[k].row ==> cells[j].row == cells[i].row
  }

  ghost predicate OnRow<R>(cells: seq<LogicalCell<R>>, row: R) {
    forall i :: 0 <= i < |cells| ==> cells[i].row == row
  }

  lemma {:induction false} RowIsOnRow<R>(row: R, graphemes: seq<Grapheme>)
    ensures OnRow(RowCells(row, graphemes), row)
  {
    if graphemes != [] {
      RowIsOnRow(row, graphemes[..|graphemes| - 1]);
    }
  }

  /** The next grapheme would start within the span of the last cell. */
  ghost predicate EndsAt<R>(cells: seq<LogicalCell<R>>, col: u16) {
    cells != [] ==> cells[|cells| - 1].col <= col <= SpanEnd(cells[|cells| - 1])
  }

  lemma {:induction false} CopiesLinked<R>(cells: seq<LogicalCell<R>>, cell: LogicalCell<R>, n: nat)
    requires Linked(cells) && EndsAt(cells, cell.col) && n > 0
    ensures Linked(cells + Copies(cell, n)) && EndsAt(cells + Copies(cell, n), SaturatingAdd(cell.col, cell.width))
  {
    AppendLinked(cells, Copies(cell, n));
    assert (cells + Copies(cell, n))[|cells| + n - 1] == cell;
  }

  lemma {:induction false} RowIsLinked<R>(row: R, graphemes: seq<Grapheme>)
    ensures Linked(RowCells(row, graphemes)) && EndsAt(RowCells(row, graphemes), EndColumn(graphemes))
  {
    if graphemes != [] {
      var init, last := graphemes[..|graphemes| - 1], graphemes[|graphemes| - 1];
      RowIsLinked(row, init);
      CopiesLinked(RowCells(row, init), LogicalCell(row, EndColumn(init), last.width), |last.Shown()|);
    }
  }

  lemma {:induction false} AppendLinked<R>(a: seq<LogicalCell<R>>, b: seq<LogicalCell<R>>)
    requires Linked(a) && Linked(b)
    requires a != [] && b != [] && a[|a| - 1].row == b[0].row ==> a[|a| - 1].col <= b[0].col <= SpanEnd(a[|a| - 1])
    ensures Linked(a + b)
  {
    var c := a + b;
    forall i | 0 < i < |c| && c[i - 1].row == c[i].row
      ensures c[i - 1].col <= c[i].col <= SpanEnd(c[i - 1])
    {
      if i < |a| {
        assert c[i - 1] == a[i - 1] && c[i] == a[i];
      } else if i > |a| {
        assert c[i - 1] == b[i - 1 - |a|] && c[i] == b[i - |a|];
      }
    }
  }

  lemma {:induction false} AppendGrouped<R>(a: seq<LogicalCell<R>>, b: seq<LogicalCell<R>>, row: R)
    requires Grouped(a) && OnRow(b, row) && forall i :: 0 <= i < |a| ==> a[i].row != row
    ensures Grouped(a + b)
  {
  }

  ghost predicate HasCoordinate<R>(rows: seq<Row<R>>, row: R) {
    exists k :: 0 <= k < |rows| && rows[k].coordinate == row
  }

  lemma {:induction false} CellOfSomeRow<R>(rows: seq<Row<R>>, i: nat)
    requires i < |LineCells(rows)|
    ensures HasCoordinate(rows, LineCells(rows)[i].row)
  {
    var init, last := rows[..|rows| - 1], rows[|rows| - 1];
    if i < |LineCells(init)| {
      CellOfSomeRow(init, i);
      var k :| 0 <= k < |init| && init[k].coordinate == LineCells(init)[i].row;
      assert rows[k] == init[k];
    } else {
      RowIsOnRow(last.coordinate, last.graphemes);
      assert rows[|rows| - 1] == last;
    }
  }

  lemma {:induction false} EarlierRowsDiffer<R>(rows: seq<Row<R>>, i: nat)
    requires DistinctRows(rows) && rows != [] && i < |LineCells(rows[..|rows| - 1])|
    ensures LineCells(rows[..|rows| - 1])[i].row != rows[|rows| - 1].coordinate
  {
    CellOfSomeRow(rows[..|rows| - 1], i);
  }

  lemma {:induction false} LineIsGrouped<R>(rows: seq<Row<R>>)
    requires DistinctRows(rows)
    ensures Linked(LineCells(rows)) && Grouped(LineCells(rows))
  {
    if rows != [] {
      var init, last := rows[..|rows| - 1], rows[|rows| - 1];
      LineIsGrouped(init);
      RowIsLinked(last.coordinate, last.graphemes);
      RowIsOnRow(last.coordinate, last.graphemes);
      var before, added := LineCells(init), RowCells(last.coordinate, last.graphemes);
      forall i | 0 <= i < |before|
        ensures before[i].row != last.coordinate
      {
        EarlierRowsDiffer(rows, i);
      }
      AppendLinked(before, added);
      AppendGrouped(before, added, last.coordinate);
    }
  }

  // ----- what the segments cover -----

  predicate InSegment<R(==)>(s: Segment<R>, row: R, col: int) {
    s.row == row && s.colStart <= col < s.colEnd
  }

  predicate InCell<R(==)>(c: LogicalCell<R>, row: R, col: int) {
    c.row == row && c.col <= col < SpanEnd(c)
  }

  ghost predicate Covered<R>(segments: seq<Segment<R>>, row: R, col: int) {
    exists i :: 0 <= i < |segments| && InSegment(segments[i], row, col)
  }

  ghost predicate Occupied<R>(cells: seq<LogicalCell<R>>, row: R, col: int) {
    exists i :: 0 <= i < |cells| && InCell(cells[i], row, col)
  }

  /** The rows a range touches, in order. */
  function RowsTouched<R(==)>(cells: seq<LogicalCell<R>>): (rows: seq<R>)
    ensures if cells == [] then rows == [] else rows != [] && rows[|rows| - 1] == cells[|cells| - 1].row
  {
    if cells == [] then []
    else
      var before, row := RowsTouched(cells[..|cells| - 1]), cells[|cells| - 1].row;
      if before != [] && before[|before| - 1] == row then before else before + [row]
  }

  function RowsOf<R>(segments: seq<Segment<R>>): (rows: seq<R>)
    ensures |rows| == |segments| && forall i :: 0 <= i < |rows| ==> rows[i] == segments[i].row
  {
    seq(|segments|, i requires 0 <= i < |segments| => segments[i].row)
  }

  /** The last segment ends with the last cell's row and reaches from at most its start to its end. */
  ghost predicate EndsWith<R>(segments: seq<Segment<R>>, c: LogicalCell<R>) {
    segments != [] && var s := segments[|segments| - 1]; s.row == c.row && s.colStart <= c.col && SpanEnd(c) <= s.colEnd
  }

  lemma {:induction false} InitIsLinked<R>(cells: seq<LogicalCell<R>>)
    requires Linked(cells) && cells != []
    ensures Linked(cells[..|cells| - 1])
  {
    assert forall i :: 0 <= i < |cells| - 1 ==> cells[..|cells| - 1][i] == cells[i];
  }

  lemma {:induction false} SegmentsEnd<R>(cells: seq<LogicalCell<R>>)
    requires Linked(cells) && cells != []
    ensures EndsWith(SegmentsOf(cells), cells[|cells| - 1])
  {
    var n := |cells| - 1;
    if n > 0 {
      InitIsLinked(cells);
      SegmentsEnd(cells[..n]);
      assert cells[..n][n - 1] == cells[n - 1];
    }
  }

  lemma {:induction false} OneSegmentPerRow<R>(cells: seq<LogicalCell<R>>)
    requires Linked(cells)
    ensures RowsOf(SegmentsOf(cells)) == RowsTouched(cells)
    ensures cells != [] ==> EndsWith(SegmentsOf(cells), cells[|cells| - 1])
  {
    if cells != [] {
      var init, c := cells[..|cells| - 1], cells[|cells| - 1];
      InitIsLinked(cells);
      OneSegmentPerRow(init);
      SegmentsEnd(cells);
      var before := SegmentsOf(init);
      if init != [] && init[|init| - 1].row == c.row {
        assert RowsOf(SegmentsOf(cells)) == RowsOf(before);
      } else {
        assert init != [] ==> RowsOf(before)[|before| - 1] == init[|init| - 1].row;
        assert RowsOf(SegmentsOf(cells)) == RowsOf(before) + [c.row];
      }
    }
  }

  lemma {:induction false} OccupiedGrows<R>(cells: seq<LogicalCell<R>>, c: LogicalCell<R>, row: R, col: int)
    ensures Occupied(cells + [c], row, col) <==> Occupied(cells, row, col) || InCell(c, row, col)
  {
    var all := cells + [c];
    assert all[|cells|] == c;
    assert forall i :: 0 <= i < |cells| ==> all[i] == cells[i];
  }

  lemma {:induction false} CoveredAppend<R>(segments: seq<Segment<R>>, s: Segment<R>, row: R, col: int)
    ensures Covered(segments + [s], row, col) <==> Covered(segments, row, col) || InSegment(s, row, col)
  {
    var all := segments + [s];
    assert all[|segments|] == s;
    assert forall i :: 0 <= i < |segments| ==> all[i] == segments[i];
  }

  lemma {:induction false} CoveredGrows<R>(cells: seq<LogicalCell<R>>, c: LogicalCell<R>, row: R, col: int)
    requires cells != [] ==> EndsWith(SegmentsOf(cells), cells[|cells| - 1])
    requires Linked(cells + [c])
    ensures Covered(SegmentsOf(cells + [c]), row, col) <==> Covered(SegmentsOf(cells), row, col) || InCell(c, row, col)
  {
    var before, after := SegmentsOf(cells), SegmentsOf(cells + [c]);
    assert (cells + [c])[..|cells|] == cells;
    if |after| == |before| {
      var n := |before| - 1;
      assert before == before[..n] + [before[n]] && after == before[..n] + [after[n]];
      CoveredAppend(before[..n], before[n], row, col);
      CoveredAppend(before[..n], after[n], row, col);
    } else {
      CoveredAppend(before, Segment(c.row, c.col, SpanEnd(c)), row, col);
    }
  }

  lemma {:induction false} CoverStep<R>(cells: seq<LogicalCell<R>>, c: LogicalCell<R>, row: R, col: int)
    requires Linked(cells) && Linked(cells + [c])
    requires Covered(SegmentsOf(cells), row, col) <==> Occupied(cells, row, col)
    ensures Covered(SegmentsOf(cells + [c]), row, col) <==> Occupied(cells + [c], row, col)
  {
    OneSegmentPerRow(cells);
    OccupiedGrows(cells, c, row, col);
    CoveredGrows(cells, c, row, col);
  }

  /** The segments cover exactly the columns of the cells. */
  lemma {:induction false} SegmentsCover<R>(cells: seq<LogicalCell<R>>, row: R, col: int)
    requires Linked(cells)
    ensures Covered(SegmentsOf(cells), row, col) <==> Occupied(cells, row, col)
  {
    if cells != [] {
      var init, c := cells[..|cells| - 1], cells[|cells| - 1];
      assert cells == init + [c];
      assert forall i :: 0 <= i < |init| ==> init[i] == cells[i];
      SegmentsCover(init, row, col);
      CoverStep(init, c, row, col);
    }
  }

  ghost predicate HasRow<R>(cells: seq<LogicalCell<R>>, row: R) {
    exists k :: 0 <= k < |cells| && cells[k].row == row
  }

  lemma {:induction false} HasRowGrows<R>(cells: seq<LogicalCell<R>>, c: LogicalCell<R>, row: R)
    ensures HasRow(cells + [c], row) <==> HasRow(cells, row) || c.row == row
  {
    var all := cells + [c];
    assert all[|cells|] == c;
    assert forall i :: 0 <= i < |cells| ==> all[i] == cells[i];
  }

  /** The rows touched are the rows of the cells. */
  lemma {:induction false} TouchedIsHad<R>(cells: seq<LogicalCell<R>>, row: R)
    ensures row in RowsTouched(cells) <==> HasRow(cells, row)
  {
    if cells != [] {
      var init, c := cells[..|cells| - 1], cells[|cells| - 1];
      TouchedIsHad(init, row);
      assert cells == init + [c];
      HasRowGrows(init, c, row);
    }
  }

  ghost predicate NoRepeats<T>(s: seq<T>) {
    forall i, j :: 0 <= i < j < |s| ==> s[i] != s[j]
  }

  lemma {:induction false} NewRow<R>(cells: seq<LogicalCell<R>>)
    requires Grouped(cells) && |cells| > 1 && cells[|cells| - 2].row != cells[|cells| - 1].row
    ensures !HasRow(cells[..|cells| - 1], cells[|cells| - 1].row)
  {
    var n := |cells| - 1;
    assert forall k :: 0 <= k < n - 1 ==> cells[k].row == cells[n].row ==> cells[n - 1].row == cells[n].row;
  }

  lemma {:induction false} GroupedRowsDistinct<R>(cells: seq<LogicalCell<R>>)
    requires Grouped(cells)
    ensures NoRepeats(RowsTouched(cells))
  {
    if cells != [] {
      var init, row := cells[..|cells| - 1], cells[|cells| - 1].row;
      assert forall i :: 0 <= i < |init| ==> init[i] == cells[i];
      GroupedRowsDistinct(init);
      TouchedIsHad(init, row);
      if init != [] && init[|init| - 1].row != row {
        NewRow(cells);
      }
    }
  }

  lemma {:induction false} RangeIsGrouped<R>(cells: seq<LogicalCell<R>>, from: nat, to: nat)
    requires Linked(cells) && Grouped(cells)
    ensures Linked(Range(cells, from, to)) && Grouped(Range(cells, from, to))
  {
    var range := Range(cells, from, to);
    assert forall i :: 0 <= i < |range| ==> range[i] == cells[from + i];
  }

  /** The columns of a cell: its width from its own column on, at least one, up to the last column that
      a `u16` can name. */
  lemma {:induction false} CellColumns<R>(c: LogicalCell<R>, row: R, col: int)
    ensures InCell(c, row, col)
            <==> c.row == row && c.col <= col < LIMIT16 - 1 && (col == c.col || col < c.col + c.width)
  {
  }

  /** One of the characters from `from` up to and not including `to` stands in the column. */
  ghost predicate CharStands<R>(cells: seq<LogicalCell<R>>, from: nat, to: nat, row: R, col: int) {
    exists k :: from <= k < to && k < |cells| && InCell(cells[k], row, col)
  }

  lemma {:induction false} RangeOccupies<R>(cells: seq<LogicalCell<R>>, from: nat, to: nat, row: R, col: int)
    ensures Occupied(Range(cells, from, to), row, col) <==> CharStands(cells, from, to, row, col)
  {
    var range := Range(cells, from, to);
    if Occupied(range, row, col) {
      var i :| 0 <= i < |range| && InCell(range[i], row, col);
      assert range[i] == cells[from + i];
    }
    if CharStands(cells, from, to, row, col) {
      var k :| from <= k < to && k < |cells| && InCell(cells[k], row, col);
      assert range[k - from] == cells[k];
    }
  }

  /** For a line built from rows with distinct coordinates and any character range: the segments cover
      exactly the columns of the characters from `from` up to and not including `to`, with one segment
      per row touched, in order. */
  lemma {:induction false} RangeCovered<R>(rows: seq<Row<R>>, from: nat, to: nat)
    requires DistinctRows(rows)
    ensures var cells := LineCells(rows);
      var segments := SegmentsOf(Range(cells, from, to));
      && (forall row, col: int :: Covered(segments, row, col) <==> CharStands(cells, from, to, row, col))
      && RowsOf(segments) == RowsTouched(Range(cells, from, to))
      && NoRepeats(RowsOf(segments))
  {
    var range := Range(LineCells(rows), from, to);
    LineIsGrouped(rows);
    RangeIsGrouped(LineCells(rows), from, to);
    forall row, col: int
      ensures Covered(SegmentsOf(range), row, col) <==> CharStands(LineCells(rows), from, to, row, col)
    {
      SegmentsCover(range, row, col);
      RangeOccupies(LineCells(rows), from, to, row, col);
    }
    OneSegmentPerRow(range);
    GroupedRowsDistinct(range);
  }

  /** The first cell at a position and every later one there belong to one column of one row: looking
      a cell's position up leads back to its column's first character. */
  lemma {:induction false} FirstAtPosition<R>(cells: seq<LogicalCell<R>>, m: nat, n: nat, k: nat)
    requires Linked(cells) && Grouped(cells)
    requires m <= k <= n < |cells| && cells[m].row == cells[n].row && cells[m].col == cells[n].col
    ensures cells[k].row == cells[m].row && cells[k].col == cells[m].col
    decreases n - m
  {
    if m < k < n {
      SameRowAscends(cells, m, k);
      SameRowAscends(cells, k, n);
    }
  }

  lemma {:induction false} SameRowAscends<R>(cells: seq<LogicalCell<R>>, i: nat, j: nat)
    requires Linked(cells) && Grouped(cells)
    requires i <= j < |cells| && cells[i].row == cells[j].row
    ensures cells[i].col <= cells[j].col
    decreases j - i
  {
    if i + 1 < j {
      SameRowAscends(cells, i, j - 1);
    }
  }
}
