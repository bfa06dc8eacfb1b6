/** The text selection of src-tauri/src/selection.rs: word boundaries, the pivot and scrollback
    eviction. The terminal core is the rows it holds. */
module Selections {
  import opened Integers

  // ----- the rows of the core -----

  /** What the standard library says of characters. */
  datatype CharClasses = CharClasses(alphanumeric: char -> bool, whitespace: char -> bool)

  /** Scrollback rows as glyphs with widths (continuation halves dropped), live rows by column. */
  datatype Core = Core(cols: u16, scrollback: seq<seq<(string, nat)>>, live: seq<seq<string>>, classes: CharClasses) {
    /** Rows are at most as wide as a `u16` can count, and live rows have one cell a column. */
    ghost predicate Valid() {
      && (forall i :: 0 <= i < |scrollback| ==> |Expanded(scrollback[i])| < LIMIT16)
      && (forall i :: 0 <= i < |live| ==> |live[i]| == cols)
    }
  }

  function Expanded(packed: seq<(string, nat)>): seq<string> {
    if packed == [] then []
    else
      var (glyph, width) := packed[|packed| - 1];
      Expanded(packed[..|packed| - 1]) + [glyph] + seq(if width > 1 then width - 1 else 0, _ => "")
  }

  /** A buffer row by column; empty outside the buffer. */
  function RowCells(core: Core, row: nat): seq<string> {
    if row < |core.scrollback| then Expanded(core.scrollback[row])
    else if row - |core.scrollback| < |core.live| then core.live[row - |core.scrollback|]
    else []
  }

  method ExpandRow(packed: seq<(string, nat)>) returns (out: seq<string>)
    ensures out == Expanded(packed)
  {
    out := [];
    for i := 0 to |packed|
      invariant out == Expanded(packed[..i])
    {
      assert packed[..i + 1][..i] == packed[..i];
      var (glyph, width) := packed[i];
      ghost var before := out;
      out := out + [glyph];
      var n := if width > 1 then width - 1 else 0;
      for k := 0 to n
        invariant out == before + [glyph] + seq(k, _ => "")
      {
        out := out + [""];
      }
    }
    assert packed[..|packed|] == packed;
  }

  /** The columns these glyphs take: at least one each. */
  function Columns(packed: seq<(string, nat)>): nat {
    if packed == [] then 0
    else Columns(packed[..|packed| - 1]) + ColumnsOf(packed[|packed| - 1].1)
  }

  function ColumnsOf(width: nat): nat { if width > 1 then width else 1 }

  lemma {:induction false} ExpandedLength(packed: seq<(string, nat)>)
    ensures |Expanded(packed)| == Columns(packed)
  {
    if packed != [] {
      ExpandedLength(packed[..|packed| - 1]);
    }
  }

  /** Glyph `i` stands on the first of its columns, after those of the glyphs before it, and its other
      columns are empty. */
  lemma {:induction false} GlyphAt(packed: seq<(string, nat)>, i: nat, k: nat)
    requires i < |packed| && k < ColumnsOf(packed[i].1)
    ensures var n := Columns(packed[..i]) + k;
      n < |Expanded(packed)| && Expanded(packed)[n] == if k == 0 then packed[i].0 else ""
    decreases |packed|
  {
    var init := packed[..|packed| - 1];
    ExpandedLength(init);
    if i < |init| {
      GlyphAt(init, i, k);
      assert init[..i] == packed[..i];
    }
  }

  predicate IsWordChar(classes: CharClasses, ch: string) {
    if ch == "" then false
    else if |ch| > 1 then !classes.whitespace(ch[0])
    else ch[0] == '_' || classes.alphanumeric(ch[0])
  }

  // ----- word boundaries -----

  /** Which cells are part of words. */
  function WordFlags(classes: CharClasses, cells: seq<string>): (w: seq<bool>)
    ensures |w| == |cells|
  {
    seq(|cells|, i requires 0 <= i < |cells| => IsWordChar(classes, cells[i]))
  }

  function WordCells(core: Core, row: nat): seq<bool> {
    WordFlags(core.classes, RowCells(core, row))
  }

  /** The first cell of the run of word cells that ends at `c`. */
  function RunStart(w: seq<bool>, c: nat): (s: nat)
    requires c < |w|
    ensures s <= c && (forall i :: s <= i < c ==> w[i]) && (s > 0 ==> !w[s - 1])
  {
    if c > 0 && w[c - 1] then RunStart(w, c - 1) else c
  }

  function RunEnd(w: seq<bool>, c: nat): (e: nat)
    requires c < |w|
    ensures c <= e < |w| && (forall i :: c < i <= e ==> w[i]) && (e + 1 < |w| ==> !w[e + 1])
    decreases |w| - c
  {
    if c + 1 < |w| && w[c + 1] then RunEnd(w, c + 1) else c
  }

  function Clamped(w: seq<bool>, col: nat): (c: nat)
    requires w != []
    ensures c < |w| && c <= col
  {
    if col < |w| then col else |w| - 1
  }

  /** The word at `col`, clamped to the row: one cell when it is not a word cell. */
  function Boundary(w: seq<bool>, col: nat): (r: (nat, nat))
    ensures r.0 <= r.1 && r.0 <= col && (w != [] ==> r.1 < |w|)
  {
    if w == [] then (col, col)
    else
      var c := Clamped(w, col);
      if w[c] then (RunStart(w, c), RunEnd(w, c)) else (c, c)
  }

  method ScanLeft(classes: CharClasses, cells: seq<string>, col: nat) returns (start: nat)
    requires col < |cells|
    ensures start == RunStart(WordFlags(classes, cells), col)
  {
    start := col;
    while start > 0
      invariant start <= col && RunStart(WordFlags(classes, cells), col) == RunStart(WordFlags(classes, cells), start)
    {
      if !IsWordChar(classes, cells[start - 1]) {
        break;
      }
      start := start - 1;
    }
  }

  method ScanRight(classes: CharClasses, cells: seq<string>, col: nat) returns (end: nat)
    requires col < |cells|
    ensures end == RunEnd(WordFlags(classes, cells), col)
  {
    end := col;
    while end + 1 < |cells|
      invariant col <= end < |cells| && RunEnd(WordFlags(classes, cells), col) == RunEnd(WordFlags(classes, cells), end)
    {
      if !IsWordChar(classes, cells[end + 1]) {
        break;
      }
      end := end + 1;
    }
  }

  method WordBoundary(core: Core, row: nat, col: u16) returns (start: u16, end: u16)
    requires core.Valid()
    ensures (start, end) == Boundary(WordCells(core, row), col)
  {
    var cells: seq<string>;
    if row >= |core.scrollback| {
      if core.cols == 0 || row - |core.scrollback| >= |core.live| {
        return col, col;
      }
      cells := core.live[row - |core.scrollback|];
    } else {
      cells := ExpandRow(core.scrollback[row]);
      if cells == [] {
        return col, col;
      }
    }
    var c: u16 := if col < |cells| - 1 then col else |cells| - 1;
    if !IsWordChar(core.classes, cells[c]) {
      return c, c;
    }
    start := ScanLeft(core.classes, cells, c);
    end := ScanRight(core.classes, cells, c);
  }

  lemma {:induction false} StartSame(w: seq<bool>, lo: nat, hi: nat)
    requires lo <= hi < |w| && forall i :: lo <= i < hi ==> w[i]
    ensures RunStart(w, hi) == RunStart(w, lo)
    decreases hi - lo
  {
    if lo < hi {
      StartSame(w, lo, hi - 1);
    }
  }

  lemma {:induction false} EndSame(w: seq<bool>, lo: nat, hi: nat)
    requires lo <= hi < |w| && forall i :: lo < i <= hi ==> w[i]
    ensures RunEnd(w, lo) == RunEnd(w, hi)
    decreases hi - lo
  {
    if lo < hi {
      EndSame(w, lo + 1, hi);
    }
  }

  /** Every cell of a word has the same boundary, and no cell outside it does. */
  lemma {:induction false} OneWordOneBoundary(w: seq<bool>, col: nat, other: nat)
    requires col < |w| && other < |w|
    ensures Boundary(w, other) == Boundary(w, col) <==> Boundary(w, col).0 <= other <= Boundary(w, col).1
  {
    var b := Boundary(w, col);
    if b.0 <= other <= b.1 && w[col] {
      StartSame(w, if col <= other then col else other, if col <= other then other else col);
      EndSame(w, if col <= other then col else other, if col <= other then other else col);
    }
  }

  /** The boundary at a column (clamped to the row) is the longest run of word cells around it, and
      just that cell when it is not a word cell. */
  lemma {:induction false} BoundaryExactly(w: seq<bool>, col: nat, c: nat, lo: nat, hi: nat)
    requires w != [] && c == (if col < |w| then col else |w| - 1)
    ensures Boundary(w, col) == (lo, hi)
            <==> if w[c] then IsRun(w, lo, hi) && lo <= c <= hi else lo == c == hi
  {
    if w[c] && IsRun(w, lo, hi) && lo <= c <= hi {
      assert lo > 0 ==> !w[lo - 1];
      assert hi + 1 < |w| ==> !w[hi + 1];
    }
  }

  /** The cells from `lo` to `hi` are word cells and their neighbours are not. */
  ghost predicate IsRun(w: seq<bool>, lo: nat, hi: nat) {
    && lo <= hi < |w| && (forall i :: lo <= i <= hi ==> w[i])
    && (lo > 0 ==> !w[lo - 1]) && (hi + 1 < |w| ==> !w[hi + 1])
  }

  // ----- the selection -----

  datatype Mode = Character | Word | Line

  datatype Pos = Pos(row: u32, col: u16)

  /** Reading order. */
  predicate AtMost(a: Pos, b: Pos) {
    a.row < b.row || (a.row == b.row && a.col <= b.col)
  }

  function Min(a: Pos, b: Pos): Pos { if AtMost(a, b) then a else b }
  function Max(a: Pos, b: Pos): Pos { if AtMost(a, b) then b else a }

  datatype State = State(anchor: Pos, extent: Pos, mode: Mode, origin: Pos) {
    function Ordered(): (Pos, Pos) {
      (Min(anchor, extent), Max(anchor, extent))
    }

    predicate Contains(row: nat, col: nat) {
      var (start, end) := Ordered();
      if row < start.row || row > end.row then false
      else if start.row == end.row then start.col <= col <= end.col
      else if row == start.row then col >= start.col
      else if row == end.row then col <= end.col
      else true
    }
  }

  function Pressed(at: Pos, mode: Mode): State {
    State(at, at, mode, at)
  }

  /** The first and last cell of the word at a position of a row with these word cells. */
  function WordOf(w: seq<bool>, p: Pos): (r: (Pos, Pos))
    requires |w| < LIMIT16
    ensures AtMost(r.0, r.1) && r.0.row == p.row == r.1.row
  {
    var b := Boundary(w, p.col);
    (Pos(p.row, b.0), Pos(p.row, b.1))
  }

  function WordAt(core: Core, p: Pos): (r: (Pos, Pos))
    requires core.Valid()
    ensures AtMost(r.0, r.1) && r.0.row == p.row == r.1.row
  {
    WordOf(WordCells(core, p.row), p)
  }

  function LastColumn(core: Core): u16 {
    if core.cols > 0 then core.cols - 1 else 0
  }

  /** The endpoints for a pivot and a pointer. */
  function Endpoints(s: State, p: Pos, core: Core): (Pos, Pos)
    requires core.Valid()
  {
    match s.mode
    case Character => (s.anchor, p)
    case Word =>
      var (originWord, pointerWord) := (WordAt(core, s.origin), WordAt(core, p));
      (Min(originWord.0, pointerWord.0), Max(pointerWord.1, originWord.1))
    case Line =>
      var (top, bottom) := if s.origin.row <= p.row then (s.origin.row, p.row) else (p.row, s.origin.row);
      (Pos(top, 0), Pos(bottom, LastColumn(core)))
  }

  function Extended(s: State, p: Pos, core: Core): State
    requires core.Valid()
  {
    var ends := Endpoints(s, p, core);
    s.(anchor := ends.0, extent := ends.1)
  }

  function ShiftedPos(p: Pos, delta: u32): Pos {
    if p.row >= delta then Pos(p.row - delta, p.col) else Pos(0, 0)
  }

  predicate Kept(s: State, delta: u32) {
    s.anchor.row >= delta || s.extent.row >= delta
  }

  function Shifted(s: State, delta: u32): State {
    State(ShiftedPos(s.anchor, delta), ShiftedPos(s.extent, delta), s.mode, ShiftedPos(s.origin, delta))
  }

  class Selection {
    var anchor: Pos
    var extent: Pos
    var mode: Mode
    var origin: Pos

    function Value(): State
      reads this
    {
      State(anchor, extent, mode, origin)
    }

    constructor (at: Pos, mode: Mode)
      ensures Value() == Pressed(at, mode)
    {
      anchor, extent, this.mode, origin := at, at, mode, at;
    }

    method Extend(p: Pos, core: Core)
      requires core.Valid()
      modifies this
      ensures Value() == Extended(old(Value()), p, core)
    {
      match mode
      case Character => extent := p;
      case Word =>
        var originStart, originEnd := WordBoundary(core, origin.row, origin.col);
        var pointerStart, pointerEnd := WordBoundary(core, p.row, p.col);
        anchor := Min(Pos(origin.row, originStart), Pos(p.row, pointerStart));
        extent := Max(Pos(p.row, pointerEnd), Pos(origin.row, originEnd));
      case Line =>
        var lastCol := LastColumn(core);
        var topRow, bottomRow := p.row, origin.row;
        if origin.row <= p.row {
          topRow, bottomRow := origin.row, p.row;
        }
        anchor := Pos(topRow, 0);
        extent := Pos(bottomRow, lastCol);
    }

    method ShiftRowsDown(delta: u32) returns (kept: bool)
      modifies this
      ensures kept == Kept(old(Value()), delta)
      ensures Value() == if kept then Shifted(old(Value()), delta) else old(Value())
    {
      if anchor.row < delta && extent.row < delta {
        return false;
      }
      anchor := ShiftedPos(anchor, delta);
      extent := ShiftedPos(extent, delta);
      origin := ShiftedPos(origin, delta);
      return true;
    }
  }

  // ----- what dragging keeps -----

  datatype Move = Move(to: Pos, core: Core)

  function Dragged(s: State, moves: seq<Move>): State
    requires forall m :: m in moves ==> m.core.Valid()
  {
    if moves == [] then s
    else
      var last := moves[|moves| - 1];
      Extended(Dragged(s, moves[..|moves| - 1]), last.to, last.core)
  }

  /** However many moves went before, and whatever the core held then, only the last one counts. */
  lemma {:induction false} OnlyTheLastMoveCounts(s: State, moves: seq<Move>)
    requires moves != [] && forall m :: m in moves ==> m.core.Valid()
    ensures var last := moves[|moves| - 1]; Dragged(s, moves) == Extended(s, last.to, last.core)
  {
    var init := moves[..|moves| - 1];
    assert forall m :: m in init ==> m in moves;
    if init != [] {
      OnlyTheLastMoveCounts(s, init);
    }
  }

  /** In word and line mode the old endpoints do not matter either. */
  lemma {:induction false} OnlyTheOriginCounts(s: State, t: State, p: Pos, core: Core)
    requires core.Valid() && s.mode == t.mode && s.mode != Character && s.origin == t.origin
    ensures Extended(s, p, core) == Extended(t, p, core)
  {
  }

  // ----- which cells a drag selects -----

  /** The first cell comes before the second in reading order, or is it. */
  predicate InOrder(row1: nat, col1: nat, row2: nat, col2: nat) {
    row1 < row2 || (row1 == row2 && col1 <= col2)
  }

  /** The cell lies between the two positions in reading order, ends included, whichever comes first. */
  predicate Between(a: Pos, b: Pos, row: nat, col: nat) {
    || (InOrder(a.row, a.col, row, col) && InOrder(row, col, b.row, b.col))
    || (InOrder(b.row, b.col, row, col) && InOrder(row, col, a.row, a.col))
  }

  lemma {:induction false} ContainsExactly(s: State, row: nat, col: nat)
    ensures s.Contains(row, col) <==> Between(s.anchor, s.extent, row, col)
  {
  }

  /** In character mode a drag selects exactly the cells from the pressed position to the pointer. */
  lemma {:induction false} CharacterDragSelects(at: Pos, moves: seq<Move>, row: nat, col: nat)
    requires moves != [] && forall m :: m in moves ==> m.core.Valid()
    ensures Dragged(Pressed(at, Character), moves).Contains(row, col)
            <==> Between(at, moves[|moves| - 1].to, row, col)
  {
    OnlyTheLastMoveCounts(Pressed(at, Character), moves);
    ContainsExactly(Dragged(Pressed(at, Character), moves), row, col);
  }

  /** In word mode it selects exactly the cells from the start of the pressed word or of the pointer's
      word, whichever comes first, to the end of either, whichever comes last. */
  lemma {:induction false} WordDragSelects(at: Pos, moves: seq<Move>, row: nat, col: nat)
    requires moves != [] && forall m :: m in moves ==> m.core.Valid()
    ensures var last := moves[|moves| - 1];
      var (pressed, pointed) := (WordAt(last.core, at), WordAt(last.core, last.to));
      Dragged(Pressed(at, Word), moves).Contains(row, col)
      <==> && (InOrder(pressed.0.row, pressed.0.col, row, col) || InOrder(pointed.0.row, pointed.0.col, row, col))
           && (InOrder(row, col, pressed.1.row, pressed.1.col) || InOrder(row, col, pointed.1.row, pointed.1.col))
  {
    OnlyTheLastMoveCounts(Pressed(at, Word), moves);
    ContainsExactly(Dragged(Pressed(at, Word), moves), row, col);
  }

  /** In line mode it selects the rows from the pressed one to the pointer's, the lower one up to the
      current width. */
  lemma {:induction false} LineDragSelects(at: Pos, moves: seq<Move>, row: nat, col: nat)
    requires moves != [] && forall m :: m in moves ==> m.core.Valid()
    ensures var last := moves[|moves| - 1];
      Dragged(Pressed(at, Line), moves).Contains(row, col)
      <==> && (at.row <= row || last.to.row <= row) && (row <= at.row || row <= last.to.row)
           && (at.row <= row && last.to.row <= row ==> col <= LastColumn(last.core))
  {
    OnlyTheLastMoveCounts(Pressed(at, Line), moves);
    ContainsExactly(Dragged(Pressed(at, Line), moves), row, col);
  }

  /** A press alone selects its cell. */
  lemma {:induction false} PressSelects(at: Pos, mode: Mode, row: nat, col: nat)
    ensures Pressed(at, mode).Contains(row, col) <==> row == at.row && col == at.col
  {
  }

  /** In word mode the selection holds the pressed word and the word under the pointer, whole; on the
      pressed row it holds nothing before that word when the pointer is below, nothing after it when
      the pointer is above, and on the same row just the span of the two words. */
  lemma {:induction false} WordModeHoldsOrigin(s: State, p: Pos, core: Core, col: nat)
    requires core.Valid() && s.mode == Word
    ensures var t, ow, pw := Extended(s, p, core), WordAt(core, s.origin), WordAt(core, p);
      && (ow.0.col <= col <= ow.1.col ==> t.Contains(s.origin.row, col))
      && (pw.0.col <= col <= pw.1.col ==> t.Contains(p.row, col))
      && (t.Contains(s.origin.row, col) <==>
           if s.origin.row < p.row then ow.0.col <= col
           else if s.origin.row > p.row then col <= ow.1.col
           else (ow.0.col <= col || pw.0.col <= col) && (col <= ow.1.col || col <= pw.1.col))
  {
  }

  /** In line mode a cell of the pressed row is selected exactly when the pointer is on a lower row or
      the cell is within the current width. */
  lemma {:induction false} LineModeOnOrigin(s: State, p: Pos, core: Core, col: nat)
    requires core.Valid() && s.mode == Line
    ensures Extended(s, p, core).Contains(s.origin.row, col) <==> s.origin.row < p.row || col <= LastColumn(core)
  {
  }

  /** The documented promise, that the pressed row stays selected whole, holds exactly when the pointer
      is below it or the row is no wider than the terminal is now. */
  lemma {:induction false} LineModeHoldsOrigin(s: State, p: Pos, core: Core)
    requires core.Valid() && s.mode == Line
    ensures (forall col :: 0 <= col < |RowCells(core, s.origin.row)| ==>
              Extended(s, p, core).Contains(s.origin.row, col))
            <==> s.origin.row < p.row || |RowCells(core, s.origin.row)| <= LastColumn(core) + 1
  {
    var t, n := Extended(s, p, core), |RowCells(core, s.origin.row)|;
    forall col: nat
      ensures t.Contains(s.origin.row, col) <==> s.origin.row < p.row || col <= LastColumn(core)
    {
      LineModeOnOrigin(s, p, core, col);
    }
    if n > 0 && !(s.origin.row < p.row) && n > LastColumn(core) + 1 {
      assert !t.Contains(s.origin.row, n - 1);
    }
  }

  /** A row that holds one double-width glyph, pressed after the terminal shrank to one column: its
      second cell is left out. */
  lemma {:induction false} WideRowIsCut()
    ensures var core := Core(1, [[("w", 2)]], [["x"]], CharClasses(_ => true, _ => false));
      var at := Pos(0, 0);
      core.Valid() && |RowCells(core, 0)| == 2 && !Extended(Pressed(at, Line), at, core).Contains(0, 1)
  {
    var packed: seq<(string, nat)> := [("w", 2)];
    assert packed[..0] == [] && |Expanded(packed)| == 2;
  }

  // ----- eviction -----

  /** An eviction keeps the selection exactly when it held some cell of a row that stays. */
  lemma {:induction false} KeptExactly(s: State, delta: u32)
    ensures Kept(s, delta) <==> exists row: nat, col: nat :: row >= delta && s.Contains(row, col)
  {
    var end := s.Ordered().1;
    if Kept(s, delta) {
      assert s.Contains(end.row, end.col);
    }
  }

  /** After an eviction that keeps the selection, exactly the cells of the remaining rows that were
      selected still are, clamped endpoints included. */
  lemma {:induction false} EvictionKeepsCells(s: State, delta: u32, row: nat, col: nat)
    requires Kept(s, delta) && row >= delta
    ensures Shifted(s, delta).Contains(row - delta, col) <==> s.Contains(row, col)
  {
  }

  /** The pivot's row lies between the endpoints' rows, and in character mode the pivot is the anchor. */
  predicate Pivoted(s: State) {
    && s.Ordered().0.row <= s.origin.row <= s.Ordered().1.row
    && (s.mode == Character ==> s.anchor == s.origin)
  }

  datatype Event = Drag(to: Pos, core: Core) | Evict(delta: u32)

  /** A press followed by events; nothing once an eviction dropped the selection. */
  function After(s: State, events: seq<Event>): (r: (bool, State))
    requires forall e :: e in events && e.Drag? ==> e.core.Valid()
  {
    if events == [] then (true, s)
    else
      var (alive, t) := After(s, events[..|events| - 1]);
      match events[|events| - 1]
      case Drag(to, core) => (alive, Extended(t, to, core))
      case Evict(delta) => (alive && Kept(t, delta), Shifted(t, delta))
  }

  lemma {:induction false} EveryRunIsPivoted(at: Pos, mode: Mode, events: seq<Event>)
    requires forall e :: e in events && e.Drag? ==> e.core.Valid()
    ensures Pivoted(After(Pressed(at, mode), events).1)
    ensures After(Pressed(at, mode), events).1.mode == mode
  {
    if events != [] {
      assert forall e :: e in events[..|events| - 1] ==> e in events;
      EveryRunIsPivoted(at, mode, events[..|events| - 1]);
    }
  }

  /** `after` shows the rows of `before` from row `delta` on. */
  ghost predicate Evicted(before: Core, after: Core, delta: nat) {
    && before.cols == after.cols && before.classes == after.classes
    && forall row: nat :: RowCells(after, row) == RowCells(before, row + delta)
  }

  lemma {:induction false} ShiftedWord(w: seq<bool>, p: Pos, delta: u32)
    requires |w| < LIMIT16 && p.row >= delta
    ensures WordOf(w, ShiftedPos(p, delta)) == (ShiftedPos(WordOf(w, p).0, delta), ShiftedPos(WordOf(w, p).1, delta))
  {
  }

  lemma {:induction false} EvictedWord(before: Core, after: Core, delta: u32, p: Pos)
    requires before.Valid() && after.Valid() && Evicted(before, after, delta) && p.row >= delta
    ensures WordAt(after, ShiftedPos(p, delta))
            == (ShiftedPos(WordAt(before, p).0, delta), ShiftedPos(WordAt(before, p).1, delta))
  {
    assert RowCells(after, p.row - delta) == RowCells(before, p.row);
    ShiftedWord(WordCells(before, p.row), p, delta);
  }

  /** Evicting and then dragging gives what dragging and then evicting gives, as long as the pivot and
      the pointer stay in the buffer. */
  lemma {:induction false} EvictionCommutes(s: State, p: Pos, delta: u32, before: Core, after: Core)
    requires before.Valid() && after.Valid() && Evicted(before, after, delta)
    requires Pivoted(s) && s.origin.row >= delta && p.row >= delta
    ensures Kept(s, delta) && Kept(Extended(s, p, before), delta)
    ensures Extended(Shifted(s, delta), ShiftedPos(p, delta), after) == Shifted(Extended(s, p, before), delta)
  {
    if s.mode == Word {
      EvictedWord(before, after, delta, s.origin);
      EvictedWord(before, after, delta, p);
    }
  }
}
