/** The report grammar of src-tauri/src/program_status.rs read off the pieces of a body: which bodies are
    accepted, and what an accepted report carries. */
module ProgramStatusGrammar {
  import opened Integers
  import opened Wrappers
  import opened Text
  import opened ProgramStatus
  import opened ProgramStatusReports
  import opened ProgramTables
  import opened ProgramTableRuns
  import Utf8

  // ----- one piece -----

  lemma {:induction false} PairFits(word: seq<byte>, k: Key, v: seq<byte>)
    requires IsPair(word + [EQUALS] + v, word, k, v)
    ensures Fitting(word + [EQUALS] + v) == Some((k, v))
  {
    var piece := word + [EQUALS] + v;
    IndexOfIs(word, EQUALS, v);
    NamesKey(Ascii(word), k);
    assert piece[..|word|] == word && piece[|word| + 1..] == v;
  }

  lemma {:induction false} FittingIsPair(piece: seq<byte>, k: Key, v: seq<byte>) returns (word: seq<byte>)
    requires Fitting(piece) == Some((k, v))
    ensures IsPair(piece, word, k, v)
  {
    var eq := IndexOf(piece, EQUALS).value;
    word := piece[..eq];
    NamesKey(Ascii(word), k);
    assert piece == piece[..eq] + [EQUALS] + piece[eq + 1..];
  }

  /** A piece fits exactly when it is a key of lower-case letters, an equals sign and value bytes. */
  lemma {:induction false} FittingExactly(piece: seq<byte>, k: Key, v: seq<byte>)
    ensures Fitting(piece) == Some((k, v)) <==> exists word: seq<byte> :: IsPair(piece, word, k, v)
  {
    if Fitting(piece) == Some((k, v)) {
      var word := FittingIsPair(piece, k, v);
    }
    if word: seq<byte> :| IsPair(piece, word, k, v) {
      PairFits(word, k, v);
    }
  }

  ghost predicate IsPair(piece: seq<byte>, word: seq<byte>, k: Key, v: seq<byte>) {
    && word != [] && AllLower(word) && AllValueBytes(v)
    && piece == word + [EQUALS] + v && Names(Ascii(word), k)
  }

  /** The names of the keys; any other name is a key that is ignored. */
  predicate Names(word: string, k: Key) {
    match k
    case StateKey => word == "state"
    case IdKey => word == "id"
    case KindKey => word == "kind"
    case ProgressKey => word == "progress"
    case AppKey => word == "app"
    case TitleKey => word == "title"
    case MsgKey => word == "msg"
    case OtherKey => word !in {"state", "id", "kind", "progress", "app", "title", "msg"}
  }

  lemma {:induction false} NamesKey(word: string, k: Key)
    ensures KeyNamed(word) == k <==> Names(word, k)
  {
  }

  // ----- the last piece that gives something -----

  /** Element `i` has the value `v` and no later element has any. */
  ghost predicate LastAt<X, V>(xs: seq<X>, f: X -> Option<V>, v: V, i: nat) {
    i < |xs| && f(xs[i]) == Some(v) && forall j :: i < j < |xs| ==> f(xs[j]).None?
  }

  ghost predicate IsLast<X, V>(xs: seq<X>, f: X -> Option<V>, v: V) {
    exists i: nat :: LastAt(xs, f, v, i)
  }

  ghost predicate Never<X, V>(xs: seq<X>, f: X -> Option<V>) {
    forall j :: 0 <= j < |xs| ==> f(xs[j]).None?
  }

  function LastOf<X, V>(xs: seq<X>, f: X -> Option<V>): Option<V> {
    if xs == [] then None
    else if f(xs[|xs| - 1]).Some? then f(xs[|xs| - 1])
    else LastOf(xs[..|xs| - 1], f)
  }

  lemma {:induction false} LastBefore<X, V>(xs: seq<X>, f: X -> Option<V>, v: V, i: nat)
    requires i < |xs| - 1
    ensures LastAt(xs, f, v, i) <==> LastAt(xs[..|xs| - 1], f, v, i) && f(xs[|xs| - 1]).None?
  {
    var init := xs[..|xs| - 1];
    assert forall j :: 0 <= j < |init| ==> init[j] == xs[j];
  }

  lemma {:induction false} LastOfIs<X, V>(xs: seq<X>, f: X -> Option<V>, v: V)
    ensures LastOf(xs, f) == Some(v) <==> IsLast(xs, f, v)
    ensures LastOf(xs, f) == None <==> Never(xs, f)
  {
    if xs != [] {
      var init, last := xs[..|xs| - 1], f(xs[|xs| - 1]);
      LastOfIs(init, f, v);
      forall i: nat | i < |init|
        ensures LastAt(xs, f, v, i) <==> LastAt(init, f, v, i) && last.None?
      {
        LastBefore(xs, f, v, i);
      }
      assert LastAt(xs, f, v, |init|) <==> last == Some(v);
      if i: nat :| LastAt(init, f, v, i) && last.None? {
        assert LastAt(xs, f, v, i);
      }
      assert forall j :: 0 <= j < |init| ==> init[j] == xs[j];
    }
  }

  /** The value a piece gives a key. */
  function ValueOf(k: Key): seq<byte> -> Option<seq<byte>> {
    (piece: seq<byte>) =>
      var r := Fitting(piece);
      if r.Some? && r.value.0 == k then Some(r.value.1) else None
  }

  /** The progress in range that a piece gives. */
  function ProgressOf(piece: seq<byte>): Option<u8> {
    var value := ValueOf(ProgressKey)(piece);
    if value.Some? then Progress(value.value) else None
  }

  ghost predicate NeverGiven(pieces: seq<seq<byte>>, k: Key) {
    Never(pieces, ValueOf(k))
  }

  ghost predicate LastGiven(pieces: seq<seq<byte>>, k: Key, v: seq<byte>) {
    IsLast(pieces, ValueOf(k), v)
  }

  ghost predicate LastInRange(pieces: seq<seq<byte>>, n: u8) {
    IsLast(pieces, ProgressOf, n)
  }

  lemma {:induction false} ValuesAre(pieces: seq<seq<byte>>, k: Key)
    ensures LastValue(pieces, k) == LastOf(pieces, ValueOf(k))
  {
    if pieces != [] {
      ValuesAre(pieces[..|pieces| - 1], k);
    }
  }

  lemma {:induction false} ProgressIs(pieces: seq<seq<byte>>)
    ensures LastProgress(pieces) == LastOf(pieces, ProgressOf)
  {
    if pieces != [] {
      ProgressIs(pieces[..|pieces| - 1]);
    }
  }

  /** The value kept for a key is that of the last piece that gives it. */
  lemma {:induction false} LastValueExactly(pieces: seq<seq<byte>>, k: Key, v: seq<byte>)
    ensures LastValue(pieces, k) == Some(v) <==> LastGiven(pieces, k, v)
    ensures LastValue(pieces, k) == None <==> NeverGiven(pieces, k)
  {
    ValuesAre(pieces, k);
    LastOfIs(pieces, ValueOf(k), v);
  }

  /** The progress kept is that of the last piece that gives one in range. */
  lemma {:induction false} LastProgressExactly(pieces: seq<seq<byte>>, n: u8)
    ensures LastProgress(pieces) == Some(n) <==> LastInRange(pieces, n)
  {
    ProgressIs(pieces);
    LastOfIs(pieces, ProgressOf, n);
  }

  // ----- what an accepted report carries -----

  /** The title or message of a record is what its value decodes to, absent when there is none or it is
      empty. */
  ghost predicate TextGiven(base64: Base64, pieces: seq<seq<byte>>, k: Key, text: Option<string>) {
    if text.Some? then
      text.value != "" && exists v :: LastGiven(pieces, k, v) && base64(v) == Some(Utf8.Encode(text.value))
    else NeverGiven(pieces, k) || exists v :: LastGiven(pieces, k, v) && base64(v) == Some([])
  }

  /** A text value that can be read: short enough before and after decoding, UTF-8, no controls. */
  ghost predicate Readable(base64: Base64, v: seq<byte>, maxEncoded: nat, maxDecoded: nat) {
    && |v| <= maxEncoded && base64(v).Some? && |base64(v).value| <= maxDecoded
    && exists text :: Utf8.Encode(text) == base64(v).value && !HasControl(text)
  }

  lemma {:induction false} ReadsText(base64: Base64, v: seq<byte>, maxEncoded: nat, maxDecoded: nat)
    ensures DecodeText(base64, Some(v), maxEncoded, maxDecoded).Some? <==> Readable(base64, v, maxEncoded, maxDecoded)
    ensures var r := DecodeText(base64, Some(v), maxEncoded, maxDecoded);
      r.Some? ==> if r.value.Some? then r.value.value != "" && base64(v) == Some(Utf8.Encode(r.value.value))
                  else base64(v) == Some([])
  {
    if base64(v).Some? {
      var bytes := base64(v).value;
      if Utf8.Decode(bytes).Some? {
        Utf8.EncodeDecode(bytes);
      }
      if text :| Utf8.Encode(text) == bytes && !HasControl(text) {
        Utf8.DecodeEncode(text);
      }
    }
  }

  /** The key is never given, or its last value can be read. */
  ghost predicate TextOk(base64: Base64, pieces: seq<seq<byte>>, k: Key, maxEncoded: nat, maxDecoded: nat) {
    NeverGiven(pieces, k) || exists v :: LastGiven(pieces, k, v) && Readable(base64, v, maxEncoded, maxDecoded)
  }

  lemma {:induction false} TextReadsGiven(base64: Base64, pieces: seq<seq<byte>>, k: Key,
                                          maxEncoded: nat, maxDecoded: nat)
    ensures var r := DecodeText(base64, LastValue(pieces, k), maxEncoded, maxDecoded);
      && (r.Some? <==> TextOk(base64, pieces, k, maxEncoded, maxDecoded))
      && (r.Some? ==> TextGiven(base64, pieces, k, r.value))
  {
    var last := LastValue(pieces, k);
    forall v
      ensures last == Some(v) <==> LastGiven(pieces, k, v)
      ensures last == None <==> NeverGiven(pieces, k)
    {
      LastValueExactly(pieces, k, v);
    }
    LastValueExactly(pieces, k, if last.Some? then last.value else []);
    if last.Some? {
      ReadsText(base64, last.value, maxEncoded, maxDecoded);
    }
  }

  /** The last value of the key is this text. */
  ghost predicate Given(pieces: seq<seq<byte>>, k: Key, text: string) {
    LastGiven(pieces, k, Utf8.Encode(text))
  }

  lemma {:induction false} GivenExactly(pieces: seq<seq<byte>>, k: Key, text: string)
    ensures Given(pieces, k, text)
            <==> LastValue(pieces, k).Some? && Ascii(LastValue(pieces, k).value) == text
  {
    LastValueExactly(pieces, k, Utf8.Encode(text));
    if LastValue(pieces, k).Some? {
      AsciiBack(LastValue(pieces, k).value);
    }
    AsciiOfEncoded(text);
  }

  ghost predicate IdGiven(pieces: seq<seq<byte>>, id: string) {
    if id == "" then NeverGiven(pieces, IdKey) else Given(pieces, IdKey, id)
  }

  ghost predicate IdOk(pieces: seq<seq<byte>>) {
    NeverGiven(pieces, IdKey) || exists v :: LastGiven(pieces, IdKey, v) && ValidId(v)
  }

  lemma {:induction false} IdOkExactly(pieces: seq<seq<byte>>)
    ensures IdOk(pieces) <==> LastValue(pieces, IdKey).None? || ValidId(LastValue(pieces, IdKey).value)
  {
    var last := LastValue(pieces, IdKey);
    LastValueExactly(pieces, IdKey, if last.Some? then last.value else []);
    if v :| LastGiven(pieces, IdKey, v) && ValidId(v) {
      LastValueExactly(pieces, IdKey, v);
    }
  }

  lemma {:induction false} AsciiNonEmpty(v: seq<byte>)
    requires AllValueBytes(v) && v != []
    ensures Ascii(v) != ""
  {
    AsciiBack(v);
  }

  lemma {:induction false} IdIsGiven(pieces: seq<seq<byte>>)
    requires LastValue(pieces, IdKey).Some? ==> LastValue(pieces, IdKey).value != []
    ensures var last := LastValue(pieces, IdKey);
      IdGiven(pieces, if last.Some? then Ascii(last.value) else "")
  {
    var last := LastValue(pieces, IdKey);
    if last.Some? {
      GivenExactly(pieces, IdKey, Ascii(last.value));
      AsciiNonEmpty(last.value);
    } else {
      LastValueExactly(pieces, IdKey, []);
    }
  }

  ghost predicate StateOk(pieces: seq<seq<byte>>) {
    Given(pieces, StateKey, "clear") || exists state: ProgramState :: Given(pieces, StateKey, state.Word())
  }

  lemma {:induction false} WordOf(word: string)
    ensures StateFromWord(word).Some? ==> StateFromWord(word).value.Word() == word
    ensures StateFromWord("clear").None?
  {
  }

  lemma {:induction false} StateExactly(pieces: seq<seq<byte>>)
    ensures var last := LastValue(pieces, StateKey);
      StateOk(pieces)
      <==> last.Some? && (Ascii(last.value) == "clear" || StateFromWord(Ascii(last.value)).Some?)
  {
    var last := LastValue(pieces, StateKey);
    GivenExactly(pieces, StateKey, "clear");
    forall state: ProgramState
      ensures Given(pieces, StateKey, state.Word()) <==> last.Some? && Ascii(last.value) == state.Word()
      ensures StateFromWord(state.Word()) == Some(state)
    {
      GivenExactly(pieces, StateKey, state.Word());
      WordsRead(state, Auth);
    }
    if last.Some? {
      WordOf(Ascii(last.value));
      if StateFromWord(Ascii(last.value)).Some? {
        assert Given(pieces, StateKey, StateFromWord(Ascii(last.value)).value.Word());
      }
    }
  }

  /** The pieces make a report: a state word or `clear`, a valid id if any, a readable title and message
      if any. Nothing else in the body can spoil it. */
  ghost predicate Acceptable(base64: Base64, pieces: seq<seq<byte>>) {
    && StateOk(pieces) && IdOk(pieces)
    && TextOk(base64, pieces, TitleKey, MAX_ENCODED_TITLE_BYTES, MAX_DECODED_TITLE_BYTES)
    && TextOk(base64, pieces, MsgKey, MAX_ENCODED_MSG_BYTES, MAX_DECODED_MSG_BYTES)
  }

  lemma {:induction false} JudgedExactly(base64: Base64, pieces: seq<seq<byte>>)
    ensures Judged(base64, PairsOf(pieces)).Accepted? <==> Acceptable(base64, pieces)
    ensures !Judged(base64, PairsOf(pieces)).Query?
  {
    StateExactly(pieces);
    IdOkExactly(pieces);
    TextReadsGiven(base64, pieces, TitleKey, MAX_ENCODED_TITLE_BYTES, MAX_DECODED_TITLE_BYTES);
    TextReadsGiven(base64, pieces, MsgKey, MAX_ENCODED_MSG_BYTES, MAX_DECODED_MSG_BYTES);
    WordOf("clear");
  }

  /** Only a lone question mark is a query; anything else is accepted exactly when the whole sequence is
      at most 4096 bytes long and its pieces make a report, and ignored otherwise. */
  lemma {:induction false} ParsedExactly(base64: Base64, body: seq<byte>, receivedLen: nat, terminator: Terminator)
    ensures var p := ParsedOf(base64, body, receivedLen, terminator);
      && (p.Query? <==> body == [0x3F])
      && (p.Accepted? <==> && body != [0x3F] && 2 + receivedLen + (if terminator.Bel? then 1 else 2) <= 4096
                           && Acceptable(base64, Split(body, COLON)))
  {
    JudgedExactly(base64, Split(body, COLON));
  }

  /** What the pieces say of a record. */
  ghost predicate RecordGiven(base64: Base64, pieces: seq<seq<byte>>, r: Record) {
    && Given(pieces, StateKey, r.state.Word())
    && (forall kind: Kind :: r.kind == Some(kind) <==> r.state.Blocked? && Given(pieces, KindKey, kind.Word()))
    && (forall n: u8 :: r.progress == Some(n) <==> (r.state.Working? || r.state.Blocked?) && LastInRange(pieces, n))
    && (forall app :: r.app == Some(app) <==> Given(pieces, AppKey, app) && ValidApp(Utf8.Encode(app)))
    && TextGiven(base64, pieces, TitleKey, r.title)
    && TextGiven(base64, pieces, MsgKey, r.msg)
  }

  lemma {:induction false} KindGiven(state: ProgramState, pieces: seq<seq<byte>>, title: Option<string>,
                                     msg: Option<string>, kind: Kind)
    ensures RecordOf(state, PairsOf(pieces), title, msg).kind == Some(kind)
            <==> state.Blocked? && Given(pieces, KindKey, kind.Word())
  {
    GivenExactly(pieces, KindKey, kind.Word());
    WordsRead(state, kind);
    if LastValue(pieces, KindKey).Some? {
      KindWord(Ascii(LastValue(pieces, KindKey).value));
    }
  }

  lemma {:induction false} KindWord(word: string)
    ensures KindFromWord(word).Some? ==> KindFromWord(word).value.Word() == word
  {
  }

  lemma {:induction false} AppGiven(state: ProgramState, pieces: seq<seq<byte>>, title: Option<string>,
                                    msg: Option<string>, app: string)
    ensures RecordOf(state, PairsOf(pieces), title, msg).app == Some(app)
            <==> Given(pieces, AppKey, app) && ValidApp(Utf8.Encode(app))
  {
    GivenExactly(pieces, AppKey, app);
    if LastValue(pieces, AppKey).Some? {
      AsciiBack(LastValue(pieces, AppKey).value);
    }
  }

  lemma {:induction false} RecordCarries(base64: Base64, pieces: seq<seq<byte>>, state: ProgramState,
                                         title: Option<string>, msg: Option<string>)
    requires Given(pieces, StateKey, state.Word())
    requires TextGiven(base64, pieces, TitleKey, title) && TextGiven(base64, pieces, MsgKey, msg)
    ensures RecordGiven(base64, pieces, RecordOf(state, PairsOf(pieces), title, msg))
  {
    var r := RecordOf(state, PairsOf(pieces), title, msg);
    forall kind: Kind
      ensures r.kind == Some(kind) <==> state.Blocked? && Given(pieces, KindKey, kind.Word())
    {
      KindGiven(state, pieces, title, msg, kind);
    }
    forall n: u8
      ensures r.progress == Some(n) <==> (state.Working? || state.Blocked?) && LastInRange(pieces, n)
    {
      LastProgressExactly(pieces, n);
    }
    forall app
      ensures r.app == Some(app) <==> Given(pieces, AppKey, app) && ValidApp(Utf8.Encode(app))
    {
      AppGiven(state, pieces, title, msg, app);
    }
  }

  /** What the pieces say of a report. */
  ghost predicate ReportGiven(base64: Base64, pieces: seq<seq<byte>>, report: Report) {
    && IdGiven(pieces, report.id)
    && match report
       case Clear(_) => Given(pieces, StateKey, "clear")
       case Set(_, record) => RecordGiven(base64, pieces, record)
  }

  /** An accepted report is what the last values of its keys say: the id, clear or the state, a kind only
      when blocked, a progress only when working or blocked, the app if it is valid, the texts as they
      decode. */
  lemma {:induction false} AcceptedCarries(base64: Base64, body: seq<byte>, receivedLen: nat, terminator: Terminator)
    ensures var p := ParsedOf(base64, body, receivedLen, terminator);
      p.Accepted? ==> ReportGiven(base64, Split(body, COLON), p.report)
  {
    var pieces := Split(body, COLON);
    if ParsedOf(base64, body, receivedLen, terminator).Accepted? {
      JudgedCarries(base64, pieces);
    }
  }

  lemma {:induction false} JudgedCarries(base64: Base64, pieces: seq<seq<byte>>)
    requires Judged(base64, PairsOf(pieces)).Accepted?
    ensures ReportGiven(base64, pieces, Judged(base64, PairsOf(pieces)).report)
  {
    var word := Ascii(LastValue(pieces, StateKey).value);
    IdIsGiven(pieces);
    GivenExactly(pieces, StateKey, word);
    TextReadsGiven(base64, pieces, TitleKey, MAX_ENCODED_TITLE_BYTES, MAX_DECODED_TITLE_BYTES);
    TextReadsGiven(base64, pieces, MsgKey, MAX_ENCODED_MSG_BYTES, MAX_DECODED_MSG_BYTES);
    WordOf(word);
    if StateFromWord(word).Some? {
      var title := DecodeText(base64, LastValue(pieces, TitleKey), MAX_ENCODED_TITLE_BYTES, MAX_DECODED_TITLE_BYTES);
      var msg := DecodeText(base64, LastValue(pieces, MsgKey), MAX_ENCODED_MSG_BYTES, MAX_DECODED_MSG_BYTES);
      RecordCarries(base64, pieces, StateFromWord(word).value, title.value, msg.value);
    }
  }

  // ----- the vocabulary -----

  predicate IsStateWord(word: string, state: ProgramState) {
    || (word == "idle" && state == Idle) || (word == "working" && state == Working) || (word == "done" && state == Done)
    || (word == "blocked" && state == Blocked) || (word == "error" && state == Error)
  }

  predicate IsKindWord(word: string, kind: Kind) {
    || (word == "permission" && kind == Permission) || (word == "question" && kind == Question)
    || (word == "auth" && kind == Auth)
  }

  /** The words of the states and kinds. */
  lemma {:induction false} Vocabulary(word: string, state: ProgramState, kind: Kind)
    ensures StateFromWord(word) == Some(state) <==> IsStateWord(word, state)
    ensures state.Word() == word <==> IsStateWord(word, state)
    ensures KindFromWord(word) == Some(kind) <==> IsKindWord(word, kind)
    ensures kind.Word() == word <==> IsKindWord(word, kind)
  {
  }

  lemma {:induction false} AloneReads(value: seq<byte>)
    requires AllValueBytes(value)
    ensures PairsOf(Field(StateKey, Some(value))) == Pairs(Some(value), None, None, None, None, None, None)
  {
    FieldReads(StateKey, Some(value), StateKey);
    FieldReads(StateKey, Some(value), IdKey);
    FieldReads(StateKey, Some(value), KindKey);
    FieldReads(StateKey, Some(value), AppKey);
    FieldReads(StateKey, Some(value), TitleKey);
    FieldReads(StateKey, Some(value), MsgKey);
  }

  lemma {:induction false} StateAlone(base64: Base64, state: ProgramState)
    ensures Judged(base64, PairsOf(Field(StateKey, Some(Utf8.Encode(state.Word())))))
            == Accepted(Set("", Record(state, None, None, None, None, None)))
  {
    var word := state.Word();
    assert LowerText(word);
    LowerBytes(word);
    AsciiOfEncoded(word);
    WordsRead(state, Auth);
    AloneReads(Utf8.Encode(word));
  }

  lemma {:induction false} StatePiece(word: string)
    requires LowerText(word)
    ensures Utf8.Encode("state=" + word) == Piece(StateKey, Utf8.Encode(word))
    ensures COLON !in Piece(StateKey, Utf8.Encode(word)) && |Piece(StateKey, Utf8.Encode(word))| > 1
  {
    Utf8.EncodeBoth("state" + "=", word);
    Utf8.EncodeBoth("state", "=");
    OneChar('=');
    LowerBytes(word);
    LowerBytes("state");
    PieceFits(StateKey, Utf8.Encode(word));
    assert "state" + "=" + word == "state=" + word;
  }

  /** A body with nothing but a state word sets the empty id to that state. */
  lemma {:induction false} PlainReport(base64: Base64, word: string, state: ProgramState, terminator: Terminator)
    requires IsStateWord(word, state)
    ensures var body := Utf8.Encode("state=" + word);
      forall receivedLen: nat :: receivedLen <= 4000 ==>
        ParsedOf(base64, body, receivedLen, terminator)
        == Accepted(Set("", Record(state, None, None, None, None, None)))
  {
    Vocabulary(word, state, Auth);
    StateAlone(base64, state);
    StatePiece(word);
    SplitOnly(Piece(StateKey, Utf8.Encode(word)), COLON);
  }

  // ----- clears -----

  /** The bytes of a clear report: `state=clear`, and `:id=` with the id unless it is empty. */
  function ClearBody(id: string): seq<byte> {
    Utf8.Encode("state=clear") + if id == "" then [] else Utf8.Encode(":id=") + Utf8.Encode(id)
  }

  function ClearPieces(id: string): seq<seq<byte>> {
    Field(StateKey, Some(Utf8.Encode("clear"))) + Field(IdKey, if id == "" then None else Some(Utf8.Encode(id)))
  }

  lemma {:induction false} OneChar(c: char)
    requires c as int < 0x80
    ensures Utf8.Encode([c]) == [c as int]
  {
    assert [c][1..] == "";
  }

  lemma {:induction false} StateClear()
    ensures Utf8.Encode("state=clear") == Piece(StateKey, Utf8.Encode("clear"))
    ensures AllValueBytes(Utf8.Encode("clear"))
  {
    Utf8.EncodeBoth("state" + "=", "clear");
    Utf8.EncodeBoth("state", "=");
    OneChar('=');
    LowerBytes("clear");
    assert "state" + "=" + "clear" == "state=clear";
  }

  lemma {:induction false} ColonId()
    ensures Utf8.Encode(":id=") == [COLON] + Utf8.Encode("id") + [EQUALS]
  {
    Utf8.EncodeBoth(":" + "id", "=");
    Utf8.EncodeBoth(":", "id");
    OneChar(':');
    OneChar('=');
    assert ":" + "id" + "=" == ":id=";
  }

  lemma {:induction false} ClearReads(id: string, k: Key)
    requires ValidKey(id)
    ensures Clean(ClearPieces(id)) && ClearPieces(id) != []
    ensures LastValue(ClearPieces(id), k)
            == if k == IdKey && id != "" then Some(Utf8.Encode(id))
               else if k == StateKey then Some(Utf8.Encode("clear"))
               else None
  {
    StateClear();
    if id != "" {
      SegmentsAreValues(Utf8.Encode(id));
    }
    ClearFields(Utf8.Encode("clear"), if id == "" then None else Some(Utf8.Encode(id)), k);
  }

  lemma {:induction false} ClearSplits(id: string)
    requires ValidKey(id)
    ensures Split(ClearBody(id), COLON) == ClearPieces(id)
  {
    ClearReads(id, StateKey);
    SplitJoin(ClearPieces(id));
    ClearJoins(id);
  }

  lemma {:induction false} ClearFields(first: seq<byte>, value: Option<seq<byte>>, k: Key)
    requires AllValueBytes(first) && (value.Some? ==> AllValueBytes(value.value))
    ensures var pieces := Field(StateKey, Some(first)) + Field(IdKey, value);
      && Clean(pieces) && pieces != []
      && LastValue(pieces, k) == if k == IdKey && value.Some? then value
                                 else if k == StateKey then Some(first)
                                 else None
  {
    FieldReads(StateKey, Some(first), k);
    AddField(Field(StateKey, Some(first)), IdKey, value, k);
  }

  lemma {:induction false} JoinTwo(a: seq<byte>, b: seq<byte>)
    ensures Join([a, b]) == a + [COLON] + b && Join([a]) == a
  {
    assert [a, b][1..] == [b];
  }

  lemma {:induction false} Regroup(a: seq<byte>, b: seq<byte>, c: seq<byte>, d: seq<byte>, e: seq<byte>)
    ensures a + (b + c + d + e) == a + b + (c + d + e)
  {
  }

  lemma {:induction false} ClearJoinsId(state: seq<byte>, bytes: seq<byte>)
    ensures Join([state] + Field(IdKey, Some(bytes))) == state + (Utf8.Encode(":id=") + bytes)
  {
    ColonId();
    JoinTwo(state, Piece(IdKey, bytes));
    Regroup(state, [COLON], Utf8.Encode("id"), [EQUALS], bytes);
    assert [state] + Field(IdKey, Some(bytes)) == [state, Piece(IdKey, bytes)];
  }

  lemma {:induction false} ClearJoins(id: string)
    ensures Join(ClearPieces(id)) == ClearBody(id)
  {
    var state := Utf8.Encode("state=clear");
    StateClear();
    ClearJoinsId(state, Utf8.Encode(id));
    JoinTwo(state, []);
    assert [state] + [] == [state] && state + [] == state;
  }

  lemma {:induction false} ClearJudged(base64: Base64, id: string)
    requires ValidKey(id)
    ensures Judged(base64, PairsOf(ClearPieces(id))) == Accepted(Clear(id))
  {
    ClearReads(id, StateKey);
    ClearReads(id, IdKey);
    ClearReads(id, TitleKey);
    ClearReads(id, MsgKey);
    AsciiOfEncoded("clear");
    AsciiOfEncoded(id);
    WordOf("clear");
  }

  lemma {:induction false} PieceIsLonger(k: Key, value: seq<byte>)
    requires !k.OtherKey?
    ensures |Piece(k, value)| > |value|
  {
  }

  lemma {:induction false} ClearIsNoQuery(id: string)
    ensures |ClearBody(id)| > 1
  {
    StateClear();
    PieceIsLonger(StateKey, Utf8.Encode("clear"));
    LowerBytes("clear");
  }

  /** Every valid id, the empty one included, has a clear report: these bytes, within the length limit,
      clear that id and no other. */
  lemma {:induction false} EveryIdHasAClear(base64: Base64, id: string, receivedLen: nat, terminator: Terminator)
    requires ValidKey(id) && OSC_INTRODUCER_BYTES + receivedLen + terminator.Len() <= MAX_SEQUENCE_BYTES
    ensures ParsedOf(base64, ClearBody(id), receivedLen, terminator) == Accepted(Clear(id))
  {
    ClearSplits(id);
    ClearJudged(base64, id);
    ClearIsNoQuery(id);
  }

  lemma {:induction false} FedReport(base64: Base64, inputs: seq<Input>, body: seq<byte>, receivedLen: nat,
                                     terminator: Terminator, report: Report)
    requires ParsedOf(base64, body, receivedLen, terminator) == Accepted(report)
    ensures Fed(base64, [], inputs + [Body(body, receivedLen, terminator)]) == Applied(Fed(base64, [], inputs), report)
  {
    assert (inputs + [Body(body, receivedLen, terminator)])[..|inputs|] == inputs;
  }

  lemma {:induction false} KeptOutside(entries: Entries, id: string, e: Entry)
    ensures e in Applied(entries, Clear(id)) <==> e in entries && e.id != id && id !in Ancestors(e.id)
  {
    ClearedExactly(entries, id);
    FilterHas(entries, NotUnder(id), e);
    WalkIsAbove(e.id, id);
  }

  lemma {:induction false} ClearInParts(a: Entries, b: Entries, id: string)
    ensures Applied(a + b, Clear(id)) == Applied(a, Clear(id)) + Applied(b, Clear(id))
  {
    ClearedExactly(a + b, id);
    ClearedExactly(a, id);
    ClearedExactly(b, id);
    FilterBoth(a, b, NotUnder(id));
  }

  /** Fed to a terminal, it removes exactly the records at or below the id and keeps the others in
      order: what it leaves of two halves of the table is what it leaves of the table. */
  lemma {:induction false} ClearReaches(base64: Base64, inputs: seq<Input>, id: string, receivedLen: nat,
                                        terminator: Terminator, a: Entries, b: Entries)
    requires ValidKey(id) && OSC_INTRODUCER_BYTES + receivedLen + terminator.Len() <= MAX_SEQUENCE_BYTES
    requires Fed(base64, [], inputs) == a + b
    ensures var after := Fed(base64, [], inputs + [Body(ClearBody(id), receivedLen, terminator)]);
      && (forall e :: e in after <==> e in a + b && e.id != id && id !in Ancestors(e.id))
      && after == Applied(a, Clear(id)) + Applied(b, Clear(id))
  {
    EveryIdHasAClear(base64, id, receivedLen, terminator);
    FedReport(base64, inputs, ClearBody(id), receivedLen, terminator, Clear(id));
    ClearInParts(a, b, id);
    forall e: Entry
      ensures e in Applied(a + b, Clear(id)) <==> e in a + b && e.id != id && id !in Ancestors(e.id)
    {
      KeptOutside(a + b, id, e);
    }
  }
}
