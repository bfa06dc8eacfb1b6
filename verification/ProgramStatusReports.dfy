/** The parser of OSC 7501 reports leaves nothing out: every record that may be stored has a report, so
    the tables that survive a handoff are exactly those a terminal can come to hold. */
module ProgramStatusReports {
  import opened Wrappers
  import opened Text
  import opened ProgramStatus
  import opened ProgramTables
  import opened ProgramTableRuns
  import StandardBase64
  import Utf8

  // ----- one field -----

  function KeyWord(k: Key): string
    requires !k.OtherKey?
  {
    match k
    case StateKey => "state"
    case IdKey => "id"
    case KindKey => "kind"
    case ProgressKey => "progress"
    case AppKey => "app"
    case TitleKey => "title"
    case MsgKey => "msg"
  }

  predicate LowerText(s: string) {
    forall i :: 0 <= i < |s| ==> 'a' <= s[i] <= 'z'
  }

  lemma {:induction false} KeyWordReads(k: Key)
    requires !k.OtherKey?
    ensures LowerText(KeyWord(k)) && KeyWord(k) != "" && KeyNamed(KeyWord(k)) == k
  {
  }

  lemma {:induction false} LowerBytes(s: string)
    requires LowerText(s)
    ensures |Utf8.Encode(s)| == |s| && AllLower(Utf8.Encode(s)) && AllValueBytes(Utf8.Encode(s))
  {
    AsciiBytes(s);
  }

  lemma {:induction false} AsciiOfEncoded(s: string)
    ensures Ascii(Utf8.Encode(s)) == s
  {
    Utf8.DecodeEncode(s);
  }

  function Piece(k: Key, value: seq<byte>): seq<byte>
    requires !k.OtherKey?
  {
    Utf8.Encode(KeyWord(k)) + [EQUALS] + value
  }

  lemma {:induction false} PieceFits(k: Key, value: seq<byte>)
    requires !k.OtherKey? && AllValueBytes(value)
    ensures Fitting(Piece(k, value)) == Some((k, value))
    ensures COLON !in Piece(k, value)
  {
    var key := Utf8.Encode(KeyWord(k));
    KeyWordReads(k);
    LowerBytes(KeyWord(k));
    AsciiOfEncoded(KeyWord(k));
    IndexOfIs(key, EQUALS, value);
    assert Piece(k, value)[..|key|] == key && Piece(k, value)[|key| + 1..] == value;
  }

  // ----- several fields -----

  function Field(k: Key, value: Option<seq<byte>>): (pieces: seq<seq<byte>>)
    requires !k.OtherKey?
    ensures |pieces| <= 1
  {
    if value.Some? then [Piece(k, value.value)] else []
  }

  ghost predicate Clean(pieces: seq<seq<byte>>) {
    forall i :: 0 <= i < |pieces| ==> COLON !in pieces[i]
  }

  lemma {:induction false} FieldReads(k: Key, value: Option<seq<byte>>, other: Key)
    requires !k.OtherKey? && (value.Some? ==> AllValueBytes(value.value))
    ensures LastValue(Field(k, value), other) == if k == other then value else None
    ensures Clean(Field(k, value))
    ensures LastProgress(Field(k, value)) == if k == ProgressKey && value.Some? then Progress(value.value) else None
  {
    if value.Some? {
      PieceFits(k, value.value);
      assert [Piece(k, value.value)][..0] == [];
    }
  }

  lemma {:induction false} LastOfBoth(a: seq<seq<byte>>, b: seq<seq<byte>>, k: Key)
    ensures LastValue(a + b, k) == if LastValue(b, k).Some? then LastValue(b, k) else LastValue(a, k)
    ensures LastProgress(a + b) == if LastProgress(b).Some? then LastProgress(b) else LastProgress(a)
    decreases |b|
  {
    if b == [] {
      assert a + b == a;
    } else {
      assert (a + b)[..|a + b| - 1] == a + b[..|b| - 1];
      LastOfBoth(a, b[..|b| - 1], k);
    }
  }

  /** One more field behind others. */
  lemma {:induction false} AddField(pieces: seq<seq<byte>>, k: Key, value: Option<seq<byte>>, other: Key)
    requires !k.OtherKey? && (value.Some? ==> AllValueBytes(value.value)) && Clean(pieces)
    ensures Clean(pieces + Field(k, value))
    ensures LastValue(pieces + Field(k, value), other)
            == if k == other && value.Some? then value else LastValue(pieces, other)
    ensures LastProgress(pieces + Field(k, value))
            == if k == ProgressKey && value.Some? && Progress(value.value).Some? then Progress(value.value)
               else LastProgress(pieces)
  {
    FieldReads(k, value, other);
    LastOfBoth(pieces, Field(k, value), other);
  }

  function Join(pieces: seq<seq<byte>>): seq<byte>
    requires pieces != []
  {
    if |pieces| == 1 then pieces[0] else pieces[0] + [COLON] + Join(pieces[1..])
  }

  lemma {:induction false} SplitJoin(pieces: seq<seq<byte>>)
    requires pieces != [] && Clean(pieces)
    ensures Split(Join(pieces), COLON) == pieces
  {
    if |pieces| == 1 {
      SplitOnly(pieces[0], COLON);
    } else {
      var first, rest := pieces[0], pieces[1..];
      SplitJoin(rest);
      SplitFirst(first, COLON, Join(rest));
      assert pieces == [first] + rest;
    }
  }

  function Size(pieces: seq<seq<byte>>): nat {
    if pieces == [] then 0 else |pieces[0]| + 1 + Size(pieces[1..])
  }

  lemma {:induction false} JoinSize(pieces: seq<seq<byte>>)
    requires pieces != []
    ensures |Join(pieces)| + 1 == Size(pieces)
  {
    if |pieces| > 1 {
      JoinSize(pieces[1..]);
    }
  }

  lemma {:induction false} SizeOfBoth(a: seq<seq<byte>>, b: seq<seq<byte>>)
    ensures Size(a + b) == Size(a) + Size(b)
  {
    if a == [] {
      assert a + b == b;
    } else {
      assert (a + b)[1..] == a[1..] + b;
      SizeOfBoth(a[1..], b);
    }
  }

  // ----- the values -----

  function Digits(n: nat): seq<byte> {
    if n < 10 then ['0' as int + n] else Digits(n / 10) + ['0' as int + n % 10]
  }

  lemma {:induction false} DigitsRead(n: nat)
    ensures Digits(n) != [] && AllDigits(Digits(n)) && Decimal(Digits(n)) == n
    ensures n <= MAX_PROGRESS ==> |Digits(n)| <= 3
  {
    if n >= 10 {
      DigitsRead(n / 10);
      assert Digits(n)[..|Digits(n)| - 1] == Digits(n / 10);
      if 100 <= n <= MAX_PROGRESS {
        assert Digits(n / 10) == Digits(1) + ['0' as int];
      }
    } else {
      assert Digits(n)[..0] == [];
    }
  }

  /** What is assumed of base64: some encoder that it undoes, of the usual length and alphabet. */
  ghost predicate Undoes(base64: Base64, encode: seq<byte> -> seq<byte>) {
    forall x :: base64(encode(x)) == Some(x) && |encode(x)| <= (|x| + 2) / 3 * 4 && AllValueBytes(encode(x))
  }

  function TextValue(encode: seq<byte> -> seq<byte>, text: Option<string>): Option<seq<byte>> {
    if text.Some? then Some(encode(Utf8.Encode(text.value))) else None
  }

  lemma {:induction false} TextReads(base64: Base64, encode: seq<byte> -> seq<byte>, text: Option<string>,
                                     maxEncoded: nat, maxDecoded: nat)
    requires Undoes(base64, encode) && StorableText(text, maxDecoded) && (maxDecoded + 2) / 3 * 4 <= maxEncoded
    ensures var v := TextValue(encode, text);
      && DecodeText(base64, v, maxEncoded, maxDecoded) == Some(text)
      && (v.Some? ==> AllValueBytes(v.value) && |v.value| <= maxEncoded)
  {
    if text.Some? {
      var bytes := Utf8.Encode(text.value);
      assert base64(encode(bytes)) == Some(bytes);
      assert (|bytes| + 2) / 3 <= (maxDecoded + 2) / 3;
      Utf8.DecodeEncode(text.value);
    }
  }

  /** A valid id is made of value bytes. */
  lemma {:induction false} SegmentsAreValues(id: seq<byte>)
    requires forall i :: 0 <= i < |Split(id, SLASH)| ==> AllNameBytes(Split(id, SLASH)[i])
    ensures AllValueBytes(id)
    decreases |id|
  {
    var segments := Split(id, SLASH);
    match IndexOf(id, SLASH)
    case None => assert segments[0] == id;
    case Some(n) =>
      var rest := id[n + 1..];
      assert segments == [id[..n]] + Split(rest, SLASH);
      assert forall i :: 0 <= i < |Split(rest, SLASH)| ==> Split(rest, SLASH)[i] == segments[i + 1];
      SegmentsAreValues(rest);
      assert AllNameBytes(segments[0]);
      assert id == id[..n] + [SLASH] + rest;
  }

  // ----- the report of a record -----

  datatype Values = Values(state: seq<byte>, id: Option<seq<byte>>, kind: Option<seq<byte>>,
                           progress: Option<seq<byte>>, app: Option<seq<byte>>, title: Option<seq<byte>>,
                           msg: Option<seq<byte>>)

  function ValuesOf(encode: seq<byte> -> seq<byte>, id: string, r: Record): Values {
    Values(
      Utf8.Encode(r.state.Word()),
      if id == "" then None else Some(Utf8.Encode(id)),
      if r.kind.Some? then Some(Utf8.Encode(r.kind.value.Word())) else None,
      if r.progress.Some? then Some(Digits(r.progress.value)) else None,
      if r.app.Some? then Some(Utf8.Encode(r.app.value)) else None,
      TextValue(encode, r.title),
      TextValue(encode, r.msg))
  }

  predicate Fits(value: Option<seq<byte>>, max: nat) {
    value.Some? ==> AllValueBytes(value.value) && |value.value| <= max
  }

  predicate AllFit(v: Values) {
    && Fits(Some(v.state), 7) && Fits(v.id, MAX_ID_BYTES) && Fits(v.kind, 10) && Fits(v.progress, 3)
    && Fits(v.app, MAX_APP_BYTES) && Fits(v.title, MAX_ENCODED_TITLE_BYTES) && Fits(v.msg, MAX_ENCODED_MSG_BYTES)
  }

  function FirstFields(v: Values): seq<seq<byte>> {
    Field(StateKey, Some(v.state)) + Field(IdKey, v.id) + Field(KindKey, v.kind) + Field(ProgressKey, v.progress)
  }

  function Fields(v: Values): seq<seq<byte>> {
    FirstFields(v) + Field(AppKey, v.app) + Field(TitleKey, v.title) + Field(MsgKey, v.msg)
  }

  lemma {:induction false} FirstFieldsRead(v: Values, k: Key)
    requires AllFit(v)
    ensures Clean(FirstFields(v))
    ensures LastValue(FirstFields(v), k)
            == if k == StateKey then Some(v.state)
               else if k == IdKey then v.id
               else if k == KindKey then v.kind
               else if k == ProgressKey then v.progress
               else None
    ensures LastProgress(FirstFields(v)) == if v.progress.Some? then Progress(v.progress.value) else None
  {
    var one := Field(StateKey, Some(v.state));
    FieldReads(StateKey, Some(v.state), k);
    AddField(one, IdKey, v.id, k);
    AddField(one + Field(IdKey, v.id), KindKey, v.kind, k);
    AddField(one + Field(IdKey, v.id) + Field(KindKey, v.kind), ProgressKey, v.progress, k);
  }

  lemma {:induction false} FieldsRead(v: Values, k: Key)
    requires AllFit(v)
    ensures Clean(Fields(v)) && Fields(v) != []
    ensures LastValue(Fields(v), k)
            == if k == AppKey then v.app
               else if k == TitleKey then v.title
               else if k == MsgKey then v.msg
               else LastValue(FirstFields(v), k)
    ensures LastProgress(Fields(v)) == LastProgress(FirstFields(v))
  {
    var first := FirstFields(v);
    FirstFieldsRead(v, k);
    AddField(first, AppKey, v.app, k);
    AddField(first + Field(AppKey, v.app), TitleKey, v.title, k);
    AddField(first + Field(AppKey, v.app) + Field(TitleKey, v.title), MsgKey, v.msg, k);
    assert Fields(v)[0] == Piece(StateKey, v.state);
  }

  lemma {:induction false} FieldSize(k: Key, value: Option<seq<byte>>, max: nat)
    requires !k.OtherKey? && Fits(value, max)
    ensures Size(Field(k, value)) <= max + 10
  {
    KeyWordReads(k);
    LowerBytes(KeyWord(k));
    if value.Some? {
      assert [Piece(k, value.value)][1..] == [];
    }
  }

  lemma {:induction false} FieldsSize(v: Values)
    requires AllFit(v)
    ensures Size(Fields(v)) <= 4000
  {
    var f, g := Field(StateKey, Some(v.state)), Field(IdKey, v.id);
    FieldSize(StateKey, Some(v.state), 7);
    FieldSize(IdKey, v.id, MAX_ID_BYTES);
    FieldSize(KindKey, v.kind, 10);
    FieldSize(ProgressKey, v.progress, 3);
    FieldSize(AppKey, v.app, MAX_APP_BYTES);
    FieldSize(TitleKey, v.title, MAX_ENCODED_TITLE_BYTES);
    FieldSize(MsgKey, v.msg, MAX_ENCODED_MSG_BYTES);
    SizeOfBoth(f, g);
    SizeOfBoth(f + g, Field(KindKey, v.kind));
    SizeOfBoth(f + g + Field(KindKey, v.kind), Field(ProgressKey, v.progress));
    var first := FirstFields(v);
    SizeOfBoth(first, Field(AppKey, v.app));
    SizeOfBoth(first + Field(AppKey, v.app), Field(TitleKey, v.title));
    SizeOfBoth(first + Field(AppKey, v.app) + Field(TitleKey, v.title), Field(MsgKey, v.msg));
  }

  function ReportBody(encode: seq<byte> -> seq<byte>, id: string, r: Record): seq<byte> {
    var fields := Fields(ValuesOf(encode, id, r));
    if fields == [] then [] else Join(fields)
  }

  lemma {:induction false} WordsFit(r: Record)
    ensures Fits(Some(Utf8.Encode(r.state.Word())), 7)
    ensures r.kind.Some? ==> Fits(Some(Utf8.Encode(r.kind.value.Word())), 10)
  {
    assert LowerText(r.state.Word()) && |r.state.Word()| <= 7;
    LowerBytes(r.state.Word());
    if r.kind.Some? {
      assert LowerText(r.kind.value.Word()) && |r.kind.value.Word()| <= 10;
      LowerBytes(r.kind.value.Word());
    }
  }

  lemma {:induction false} ValuesFit(base64: Base64, encode: seq<byte> -> seq<byte>, id: string, r: Record)
    requires Undoes(base64, encode) && ValidKey(id) && Storable(r)
    ensures AllFit(ValuesOf(encode, id, r))
  {
    WordsFit(r);
    if id != "" {
      SegmentsAreValues(Utf8.Encode(id));
    }
    if r.progress.Some? {
      DigitsRead(r.progress.value);
    }
    TextReads(base64, encode, r.title, MAX_ENCODED_TITLE_BYTES, MAX_DECODED_TITLE_BYTES);
    TextReads(base64, encode, r.msg, MAX_ENCODED_MSG_BYTES, MAX_DECODED_MSG_BYTES);
  }

  function PairsOfValues(v: Values): Pairs {
    Pairs(Some(v.state), v.id, v.kind, if v.progress.Some? then Progress(v.progress.value) else None,
          v.app, v.title, v.msg)
  }

  lemma {:induction false} PairsRead(v: Values)
    requires AllFit(v)
    ensures PairsOf(Fields(v)) == PairsOfValues(v)
  {
    FieldsRead(v, StateKey);
    FieldsRead(v, IdKey);
    FieldsRead(v, KindKey);
    FieldsRead(v, AppKey);
    FieldsRead(v, TitleKey);
    FieldsRead(v, MsgKey);
    FirstFieldsRead(v, StateKey);
    FirstFieldsRead(v, IdKey);
    FirstFieldsRead(v, KindKey);
  }

  lemma {:induction false} RecordReads(encode: seq<byte> -> seq<byte>, id: string, r: Record)
    requires Storable(r)
    ensures RecordOf(r.state, PairsOfValues(ValuesOf(encode, id, r)), r.title, r.msg) == r
  {
    WordsRead(r.state, if r.kind.Some? then r.kind.value else Auth);
    if r.kind.Some? {
      AsciiOfEncoded(r.kind.value.Word());
    }
    if r.progress.Some? {
      DigitsRead(r.progress.value);
    }
    if r.app.Some? {
      AsciiOfEncoded(r.app.value);
    }
  }

  lemma {:induction false} ReportJudged(base64: Base64, encode: seq<byte> -> seq<byte>, id: string, r: Record)
    requires Undoes(base64, encode) && ValidKey(id) && Storable(r)
    ensures Judged(base64, PairsOfValues(ValuesOf(encode, id, r))) == Accepted(Set(id, r))
  {
    TextReads(base64, encode, r.title, MAX_ENCODED_TITLE_BYTES, MAX_DECODED_TITLE_BYTES);
    TextReads(base64, encode, r.msg, MAX_ENCODED_MSG_BYTES, MAX_DECODED_MSG_BYTES);
    AsciiOfEncoded(r.state.Word());
    AsciiOfEncoded(id);
    WordsRead(r.state, Auth);
    RecordReads(encode, id, r);
  }

  /** Every valid id and storable record has a report within the length limit. */
  lemma {:induction false} EveryRecordHasAReport(base64: Base64, encode: seq<byte> -> seq<byte>, id: string, r: Record,
                                                 terminator: Terminator)
    requires Undoes(base64, encode) && ValidKey(id) && Storable(r)
    ensures var body := ReportBody(encode, id, r);
      ParsedOf(base64, body, 5 + |body|, terminator) == Accepted(Set(id, r))
  {
    var v := ValuesOf(encode, id, r);
    ValuesFit(base64, encode, id, r);
    FieldsRead(v, StateKey);
    PairsRead(v);
    SplitJoin(Fields(v));
    FieldsSize(v);
    JoinSize(Fields(v));
    ReportJudged(base64, encode, id, r);
    NotAQuery(v);
  }

  lemma {:induction false} NotAQuery(v: Values)
    requires AllFit(v)
    ensures Fields(v) != [] && |Join(Fields(v))| > 1
  {
    FieldsRead(v, StateKey);
    KeyWordReads(StateKey);
    LowerBytes(KeyWord(StateKey));
    assert |Fields(v)[0]| > 1;
  }

  // ----- tables -----

  function Reports(encode: seq<byte> -> seq<byte>, entries: Entries, terminator: Terminator): seq<Input> {
    if entries == [] then []
    else
      var last := entries[|entries| - 1];
      var body := ReportBody(encode, last.id, last.record);
      Reports(encode, entries[..|entries| - 1], terminator) + [Body(body, 5 + |body|, terminator)]
  }

  lemma {:induction false} FedOneMore(base64: Base64, inputs: seq<Input>, body: seq<byte>, len: nat,
                                      terminator: Terminator, id: string, r: Record)
    requires ParsedOf(base64, body, len, terminator) == Accepted(Set(id, r))
    ensures Fed(base64, [], inputs + [Body(body, len, terminator)]) == Put(Fed(base64, [], inputs), id, r)
  {
    assert (inputs + [Body(body, len, terminator)])[..|inputs|] == inputs;
  }

  lemma {:induction false} ReportsBuild(base64: Base64, encode: seq<byte> -> seq<byte>, entries: Entries,
                                        terminator: Terminator)
    requires Undoes(base64, encode) && AllStorable(entries)
    ensures Fed(base64, [], Reports(encode, entries, terminator)) == PutAll([], entries)
  {
    if entries != [] {
      var init, id, r := entries[..|entries| - 1], entries[|entries| - 1].id, entries[|entries| - 1].record;
      var body := ReportBody(encode, id, r);
      ReportsBuild(base64, encode, init, terminator);
      EveryRecordHasAReport(base64, encode, id, r, terminator);
      FedOneMore(base64, Reports(encode, init, terminator), body, 5 + |body|, terminator, id, r);
    }
  }

  /** Export and import keep the table, order included. */
  ghost predicate Survives(entries: Entries) {
    ImportOf(ExportOf(entries)) == entries
  }

  ghost predicate Reachable(base64: Base64, entries: Entries) {
    exists inputs :: Fed(base64, [], inputs) == entries
  }

  /** A table survives export and import unchanged exactly when some inputs produce it. */
  lemma {:induction false} HandoffKeepsExactlyReachable(base64: Base64, encode: seq<byte> -> seq<byte>,
                                                        entries: Entries)
    requires Undoes(base64, encode)
    ensures Survives(entries) <==> Reachable(base64, entries)
  {
    ImportExport(entries);
    if Bounded(entries) && AllStorable(entries) {
      ReportsBuild(base64, encode, entries, Bel);
      TableIsLatest(entries);
      UniqueIsLatest(entries);
      assert Fed(base64, [], Reports(encode, entries, Bel)) == entries;
    }
    if Reachable(base64, entries) {
      var inputs :| Fed(base64, [], inputs) == entries;
      FedIsStorable(base64, inputs);
    }
  }

  // ----- the standard alphabet -----

  /** Standard base64 meets the assumption. */
  lemma {:induction false} StandardUndoes()
    ensures Undoes(StandardBase64.Decode, StandardBase64.Encode)
  {
    forall x
      ensures var e := StandardBase64.Encode(x);
        StandardBase64.Decode(e) == Some(x) && |e| <= (|x| + 2) / 3 * 4 && AllValueBytes(e)
    {
      StandardBase64.DecodeEncode(x);
      StandardBase64.EncodedLength(x);
      StandardBase64.EncodedAlphabet(x);
    }
  }

  /** With standard base64 and no assumption: the tables that survive the handoff are the reachable
      ones. */
  lemma {:induction false} StandardHandoff(entries: Entries)
    ensures Survives(entries) <==> Reachable(StandardBase64.Decode, entries)
  {
    StandardUndoes();
    HandoffKeepsExactlyReachable(StandardBase64.Decode, StandardBase64.Encode, entries);
  }
}
