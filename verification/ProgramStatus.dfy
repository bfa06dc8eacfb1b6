/** The OSC 7501 report of src-tauri/src/program_status.rs: vocabulary, body grammar and the
    re-validation of exported records. Base64 is any partial function on bytes. */
module ProgramStatus {
  import opened Integers
  import opened Wrappers
  import opened Text
  import Utf8
  import AgentStatus

  type byte = Utf8.byte

  type Base64 = seq<byte> -> Option<seq<byte>>

  // ----- vocabulary -----

  datatype ProgramState = Idle | Working | Done | Blocked | Error {
    function Word(): string {
      match this
      case Idle => "idle"
      case Working => "working"
      case Done => "done"
      case Blocked => "blocked"
      case Error => "error"
    }

    function AgentState(): AgentStatus.AgentState {
      match this
      case Idle => AgentStatus.Idle
      case Working => AgentStatus.Working
      case Done => AgentStatus.Done
      case Blocked => AgentStatus.Blocked
      case Error => AgentStatus.Error
    }

    function Rank(): nat { AgentStatus.ComposeRank(AgentState()) }
  }

  function StateFromWord(word: string): Option<ProgramState> {
    if word == "idle" then Some(Idle)
    else if word == "working" then Some(Working)
    else if word == "done" then Some(Done)
    else if word == "blocked" then Some(Blocked)
    else if word == "error" then Some(Error)
    else None
  }

  datatype Kind = Permission | Question | Auth {
    function Word(): string {
      match this case Permission => "permission" case Question => "question" case Auth => "auth"
    }
  }

  function KindFromWord(word: string): Option<Kind> {
    if word == "permission" then Some(Permission)
    else if word == "question" then Some(Question)
    else if word == "auth" then Some(Auth)
    else None
  }

  lemma {:induction false} WordsRead(state: ProgramState, kind: Kind)
    ensures StateFromWord(state.Word()) == Some(state)
    ensures KindFromWord(kind.Word()) == Some(kind)
  {
  }

  datatype Terminator = Bel | St {
    function Len(): nat { if Bel? then 1 else 2 }
  }

  datatype Record = Record(state: ProgramState, kind: Option<Kind>, progress: Option<u8>,
                           app: Option<string>, title: Option<string>, msg: Option<string>)

  datatype Report = Set(id: string, record: Record) | Clear(id: string)

  datatype Parsed = Query | Accepted(report: Report) | Ignored

  const MAX_SEQUENCE_BYTES := 4096
  const OSC_INTRODUCER_BYTES := 2
  const MAX_ENCODED_TITLE_BYTES := 256
  const MAX_DECODED_TITLE_BYTES := 192
  const MAX_ENCODED_MSG_BYTES := 2732
  const MAX_DECODED_MSG_BYTES := 2048
  const MAX_ID_SEGMENTS := 8
  const MAX_ID_SEGMENT_BYTES := 32
  const MAX_ID_BYTES := 128
  const MAX_APP_BYTES := 32
  const MAX_PROGRESS := 100

  // ----- bytes -----

  const COLON: byte := 0x3A
  const EQUALS: byte := 0x3D
  const SLASH: byte := 0x2F

  predicate IsLower(b: byte) { 'a' as int <= b <= 'z' as int }
  predicate IsDigit(b: byte) { '0' as int <= b <= '9' as int }
  predicate IsNameByte(b: byte) {
    IsLower(b) || IsDigit(b) || 'A' as int <= b <= 'Z' as int
    || b == '_' as int || b == '.' as int || b == '+' as int || b == '-' as int
  }
  predicate IsValueByte(b: byte) {
    IsNameByte(b) || b == ',' as int || b == SLASH || b == EQUALS
  }

  predicate AllLower(s: seq<byte>) { forall i :: 0 <= i < |s| ==> IsLower(s[i]) }
  predicate AllDigits(s: seq<byte>) { forall i :: 0 <= i < |s| ==> IsDigit(s[i]) }
  predicate AllNameBytes(s: seq<byte>) { forall i :: 0 <= i < |s| ==> IsNameByte(s[i]) }
  predicate AllValueBytes(s: seq<byte>) { forall i :: 0 <= i < |s| ==> IsValueByte(s[i]) }

  function Ascii(value: seq<byte>): string {
    match Utf8.Decode(value) case Some(s) => s case None => ""
  }

  /** Bytes below 0x80 read as text and back. */
  lemma {:induction false} AsciiBack(value: seq<byte>)
    requires forall i :: 0 <= i < |value| ==> value[i] < 0x80
    ensures Utf8.Encode(Ascii(value)) == value
  {
    if value != [] {
      AsciiBack(value[1..]);
      AsciiReads(value[1..]);
      var rest := Ascii(value[1..]);
      assert Ascii(value) == [value[0] as char] + rest;
      assert ([value[0] as char] + rest)[1..] == rest;
    }
  }

  lemma {:induction false} AsciiReads(value: seq<byte>)
    requires forall i :: 0 <= i < |value| ==> value[i] < 0x80
    ensures Utf8.Decode(value).Some?
  {
    if value != [] {
      AsciiReads(value[1..]);
    }
  }

  // ----- the pair grammar -----

  datatype Key = StateKey | IdKey | KindKey | ProgressKey | AppKey | TitleKey | MsgKey | OtherKey

  function KeyNamed(key: string): Key {
    if key == "state" then StateKey
    else if key == "id" then IdKey
    else if key == "kind" then KindKey
    else if key == "progress" then ProgressKey
    else if key == "app" then AppKey
    else if key == "title" then TitleKey
    else if key == "msg" then MsgKey
    else OtherKey
  }

  /** A `key=value` piece that fits the grammar. */
  function Fitting(piece: seq<byte>): (r: Option<(Key, seq<byte>)>)
    ensures r.Some? ==> AllValueBytes(r.value.1)
  {
    var eq :- IndexOf(piece, EQUALS);
    var key, value := piece[..eq], piece[eq + 1..];
    if key == [] || !AllLower(key) || !AllValueBytes(value) then None else Some((KeyNamed(Ascii(key)), value))
  }

  /** The last fitting value of a key. */
  function LastValue(pieces: seq<seq<byte>>, key: Key): (r: Option<seq<byte>>)
    ensures r.Some? ==> AllValueBytes(r.value)
  {
    if pieces == [] then None
    else
      var last := Fitting(pieces[|pieces| - 1]);
      if last.Some? && last.value.0 == key then Some(last.value.1) else LastValue(pieces[..|pieces| - 1], key)
  }

  /** The last fitting progress that is a number in range; others do not displace it. */
  function LastProgress(pieces: seq<seq<byte>>): (r: Option<u8>)
    ensures r.Some? ==> r.value <= MAX_PROGRESS
  {
    if pieces == [] then None
    else
      var last := Fitting(pieces[|pieces| - 1]);
      if last.Some? && last.value.0 == ProgressKey && Progress(last.value.1).Some? then Progress(last.value.1)
      else LastProgress(pieces[..|pieces| - 1])
  }

  function Decimal(digits: seq<byte>): nat
    requires AllDigits(digits)
  {
    if digits == [] then 0 else 10 * Decimal(digits[..|digits| - 1]) + (digits[|digits| - 1] - '0' as int)
  }

  function Progress(value: seq<byte>): (r: Option<u8>)
    ensures r.Some? ==> r.value <= MAX_PROGRESS
  {
    if value == [] || !AllDigits(value) || Decimal(value) > MAX_PROGRESS then None else Some(Decimal(value))
  }

  lemma {:induction false} DecimalGrows(digits: seq<byte>, n: nat)
    requires AllDigits(digits) && n <= |digits|
    ensures Decimal(digits[..n]) <= Decimal(digits)
    decreases |digits|
  {
    if n < |digits| {
      var init := digits[..|digits| - 1];
      DecimalGrows(init, n);
      assert init[..n] == digits[..n];
    } else {
      assert digits[..n] == digits;
    }
  }

  /** The digit loop, which stops at the first prefix past the limit; its counter never exceeds 1009. */
  method ParseProgress(value: seq<byte>) returns (r: Option<u8>)
    ensures r == Progress(value)
  {
    if value == [] || !AllDigits(value) {
      return None;
    }
    var n: u32 := 0;
    for i := 0 to |value|
      invariant n == Decimal(value[..i]) <= MAX_PROGRESS
    {
      assert value[..i + 1][..i] == value[..i];
      n := n * 10 + (value[i] - '0' as int);
      if n > MAX_PROGRESS {
        DecimalGrows(value, i + 1);
        return None;
      }
    }
    assert value[..|value|] == value;
    return Some(n);
  }

  datatype Pairs = Pairs(state: Option<seq<byte>>, id: Option<seq<byte>>, kind: Option<seq<byte>>,
                         progress: Option<u8>, app: Option<seq<byte>>, title: Option<seq<byte>>, msg: Option<seq<byte>>)

  function PairsOf(pieces: seq<seq<byte>>): Pairs {
    Pairs(LastValue(pieces, StateKey), LastValue(pieces, IdKey), LastValue(pieces, KindKey), LastProgress(pieces),
          LastValue(pieces, AppKey), LastValue(pieces, TitleKey), LastValue(pieces, MsgKey))
  }

  method Collect(body: seq<byte>) returns (pairs: Pairs)
    ensures pairs == PairsOf(Split(body, COLON))
  {
    pairs := Pairs(None, None, None, None, None, None, None);
    var pieces := Split(body, COLON);
    for i := 0 to |pieces|
      invariant pairs == PairsOf(pieces[..i])
    {
      assert pieces[..i + 1][..i] == pieces[..i];
      var fitting := Fitting(pieces[i]);
      if fitting.None? {
        continue;
      }
      var value := fitting.value.1;
      match fitting.value.0
      case StateKey => pairs := pairs.(state := Some(value));
      case IdKey => pairs := pairs.(id := Some(value));
      case KindKey => pairs := pairs.(kind := Some(value));
      case ProgressKey =>
        var progress := ParseProgress(value);
        if progress.Some? {
          pairs := pairs.(progress := progress);
        }
      case AppKey => pairs := pairs.(app := Some(value));
      case TitleKey => pairs := pairs.(title := Some(value));
      case MsgKey => pairs := pairs.(msg := Some(value));
      case OtherKey =>
    }
    assert pieces[..|pieces|] == pieces;
  }

  // ----- the value rules -----

  predicate ValidSegment(segment: seq<byte>) {
    segment != [] && |segment| <= MAX_ID_SEGMENT_BYTES && AllNameBytes(segment)
  }

  predicate ValidId(id: seq<byte>) {
    var segments := Split(id, SLASH);
    && 0 < |id| <= MAX_ID_BYTES && |segments| <= MAX_ID_SEGMENTS
    && forall i :: 0 <= i < |segments| ==> ValidSegment(segments[i])
  }

  method CheckId(id: seq<byte>) returns (ok: bool)
    ensures ok == ValidId(id)
  {
    if id == [] || |id| > MAX_ID_BYTES {
      return false;
    }
    var segments := Split(id, SLASH);
    var count := 0;
    for i := 0 to |segments|
      invariant count == i <= MAX_ID_SEGMENTS
      invariant forall j :: 0 <= j < i ==> ValidSegment(segments[j])
    {
      var segment := segments[i];
      count := count + 1;
      if count > MAX_ID_SEGMENTS || segment == [] || |segment| > MAX_ID_SEGMENT_BYTES || !AllNameBytes(segment) {
        return false;
      }
    }
    return true;
  }

  predicate ValidApp(app: seq<byte>) {
    app != [] && |app| <= MAX_APP_BYTES && AllNameBytes(app)
  }

  /** The text of a base64 value: None when the report is to be discarded, absent when empty. */
  function DecodeText(base64: Base64, value: Option<seq<byte>>, maxEncoded: nat, maxDecoded: nat)
    : Option<Option<string>>
  {
    if value.None? then Some(None)
    else if |value.value| > maxEncoded then None
    else
      var bytes :- base64(value.value);
      if |bytes| > maxDecoded then None
      else
        var text :- Utf8.Decode(bytes);
        if HasControl(text) then None else Some(if text == "" then None else Some(text))
  }

  // ----- the report -----

  function Judged(base64: Base64, pairs: Pairs): Parsed {
    var title := DecodeText(base64, pairs.title, MAX_ENCODED_TITLE_BYTES, MAX_DECODED_TITLE_BYTES);
    var msg := DecodeText(base64, pairs.msg, MAX_ENCODED_MSG_BYTES, MAX_DECODED_MSG_BYTES);
    if title.None? || msg.None? || pairs.state.None? then Ignored
    else
      var word := Ascii(pairs.state.value);
      var state := StateFromWord(word);
      if word != "clear" && state.None? then Ignored
      else if pairs.id.Some? && !ValidId(pairs.id.value) then Ignored
      else
        var id := if pairs.id.Some? then Ascii(pairs.id.value) else "";
        if state.None? then Accepted(Clear(id))
        else Accepted(Set(id, RecordOf(state.value, pairs, title.value, msg.value)))
  }

  function RecordOf(state: ProgramState, pairs: Pairs, title: Option<string>, msg: Option<string>): Record {
    Record(
      state,
      if state.Blocked? && pairs.kind.Some? then KindFromWord(Ascii(pairs.kind.value)) else None,
      if state.Working? || state.Blocked? then pairs.progress else None,
      if pairs.app.Some? && ValidApp(pairs.app.value) then Some(Ascii(pairs.app.value)) else None,
      title,
      msg)
  }

  function ParsedOf(base64: Base64, body: seq<byte>, receivedLen: nat, terminator: Terminator): Parsed {
    if body == ['?' as int] then Query
    else if OSC_INTRODUCER_BYTES + receivedLen + terminator.Len() > MAX_SEQUENCE_BYTES then Ignored
    else Judged(base64, PairsOf(Split(body, COLON)))
  }

  method ParseReceived(base64: Base64, body: seq<byte>, receivedLen: nat, terminator: Terminator) returns (r: Parsed)
    ensures r == ParsedOf(base64, body, receivedLen, terminator)
  {
    if body == ['?' as int] {
      return Query;
    }
    if OSC_INTRODUCER_BYTES + receivedLen + terminator.Len() > MAX_SEQUENCE_BYTES {
      return Ignored;
    }
    var pairs := Collect(body);
    return Judged(base64, pairs);
  }

  // ----- what can be stored -----

  predicate ValidKey(id: string) {
    id == "" || ValidId(Utf8.Encode(id))
  }

  predicate StorableText(text: Option<string>, max: nat) {
    text.Some? ==> text.value != "" && |Utf8.Encode(text.value)| <= max && !HasControl(text.value)
  }

  predicate Storable(r: Record) {
    && (r.kind.Some? ==> r.state.Blocked?)
    && (r.progress.Some? ==> (r.state.Working? || r.state.Blocked?) && r.progress.value <= MAX_PROGRESS)
    && (r.app.Some? ==> ValidApp(Utf8.Encode(r.app.value)))
    && StorableText(r.title, MAX_DECODED_TITLE_BYTES)
    && StorableText(r.msg, MAX_DECODED_MSG_BYTES)
  }

  lemma {:induction false} DecodedIsStorable(base64: Base64, value: Option<seq<byte>>, maxEncoded: nat, maxDecoded: nat)
    ensures var r := DecodeText(base64, value, maxEncoded, maxDecoded); r.Some? ==> StorableText(r.value, maxDecoded)
  {
    if value.Some? && base64(value.value).Some? {
      var bytes := base64(value.value).value;
      if Utf8.Decode(bytes).Some? {
        Utf8.EncodeDecode(bytes);
      }
    }
  }

  lemma {:induction false} RecordIsStorable(state: ProgramState, pairs: Pairs,
                                                  title: Option<string>, msg: Option<string>)
    requires StorableText(title, MAX_DECODED_TITLE_BYTES) && StorableText(msg, MAX_DECODED_MSG_BYTES)
    requires pairs.progress.Some? ==> pairs.progress.value <= MAX_PROGRESS
    ensures Storable(RecordOf(state, pairs, title, msg))
  {
    if pairs.app.Some? && ValidApp(pairs.app.value) {
      AsciiBack(pairs.app.value);
    }
  }

  lemma {:induction false} JudgedIsStorable(base64: Base64, pairs: Pairs)
    requires pairs.progress.Some? ==> pairs.progress.value <= MAX_PROGRESS
    requires pairs.id.Some? ==> AllValueBytes(pairs.id.value)
    ensures var p := Judged(base64, pairs);
      p.Accepted? ==> ValidKey(p.report.id) && (p.report.Set? ==> Storable(p.report.record))
  {
    var title := DecodeText(base64, pairs.title, MAX_ENCODED_TITLE_BYTES, MAX_DECODED_TITLE_BYTES);
    var msg := DecodeText(base64, pairs.msg, MAX_ENCODED_MSG_BYTES, MAX_DECODED_MSG_BYTES);
    DecodedIsStorable(base64, pairs.title, MAX_ENCODED_TITLE_BYTES, MAX_DECODED_TITLE_BYTES);
    DecodedIsStorable(base64, pairs.msg, MAX_ENCODED_MSG_BYTES, MAX_DECODED_MSG_BYTES);
    if pairs.id.Some? {
      AsciiBack(pairs.id.value);
    }
    if title.Some? && msg.Some? && pairs.state.Some? && StateFromWord(Ascii(pairs.state.value)).Some? {
      RecordIsStorable(StateFromWord(Ascii(pairs.state.value)).value, pairs, title.value, msg.value);
    }
  }

  /** Every accepted report carries a valid id, and a set a storable record, whatever base64 does. */
  lemma {:induction false} AcceptedIsStorable(base64: Base64, body: seq<byte>, receivedLen: nat, terminator: Terminator)
    ensures var p := ParsedOf(base64, body, receivedLen, terminator);
      p.Accepted? ==> ValidKey(p.report.id) && (p.report.Set? ==> Storable(p.report.record))
  {
    JudgedIsStorable(base64, PairsOf(Split(body, COLON)));
  }

  // ----- export and re-validation of one record -----

  datatype ExportedRecord = ExportedRecord(id: string, state: string, kind: Option<string>, progress: Option<u32>,
                                           app: Option<string>, title: Option<string>, msg: Option<string>)

  function Exported(id: string, r: Record): ExportedRecord
  {
    ExportedRecord(id, r.state.Word(), if r.kind.Some? then Some(r.kind.value.Word()) else None,
                   if r.progress.Some? then Some(r.progress.value) else None, r.app, r.title, r.msg)
  }

  function ValidatedText(text: Option<string>, max: nat): Option<Option<string>> {
    if text.None? || text.value == "" then Some(None)
    else if |Utf8.Encode(text.value)| > max || HasControl(text.value) then None
    else Some(text)
  }

  function ValidatedKind(kind: Option<string>, state: ProgramState): Option<Option<Kind>> {
    if kind.None? then Some(None)
    else if state.Blocked? then
      var k :- KindFromWord(kind.value);
      Some(Some(k))
    else None
  }

  function ValidatedProgress(progress: Option<u32>, state: ProgramState): Option<Option<u8>> {
    if progress.None? then Some(None)
    else if (state.Working? || state.Blocked?) && progress.value <= MAX_PROGRESS then Some(Some(progress.value))
    else None
  }

  function Validated(e: ExportedRecord): Option<(string, Record)> {
    if !ValidKey(e.id) then None
    else
      var state :- StateFromWord(e.state);
      var kind :- ValidatedKind(e.kind, state);
      var progress :- ValidatedProgress(e.progress, state);
      if e.app.Some? && !ValidApp(Utf8.Encode(e.app.value)) then None
      else
        var title :- ValidatedText(e.title, MAX_DECODED_TITLE_BYTES);
        var msg :- ValidatedText(e.msg, MAX_DECODED_MSG_BYTES);
        Some((e.id, Record(state, kind, progress, e.app, title, msg)))
  }

  lemma {:induction false} TextExactly(text: Option<string>, max: nat)
    ensures ValidatedText(text, max) == Some(text) <==> StorableText(text, max)
  {
  }

  lemma {:induction false} KindExactly(kind: Option<Kind>, state: ProgramState)
    ensures ValidatedKind(if kind.Some? then Some(kind.value.Word()) else None, state) == Some(kind)
            <==> (kind.Some? ==> state.Blocked?)
  {
    WordsRead(state, if kind.Some? then kind.value else Auth);
  }

  /** The re-validator passes an exported record unchanged exactly when a parsed report could have
      stored it. */
  lemma {:induction false} ValidatedExactly(id: string, r: Record)
    ensures Validated(Exported(id, r)) == Some((id, r)) <==> ValidKey(id) && Storable(r)
  {
    WordsRead(r.state, Auth);
    KindExactly(r.kind, r.state);
    TextExactly(r.title, MAX_DECODED_TITLE_BYTES);
    TextExactly(r.msg, MAX_DECODED_MSG_BYTES);
  }

  /** Nothing else gets through: whatever the re-validator passes could have been stored. */
  lemma {:induction false} ValidatedIsStorable(e: ExportedRecord)
    requires Validated(e).Some?
    ensures ValidKey(Validated(e).value.0) && Storable(Validated(e).value.1)
  {
  }

  // ----- the re-validator, for every record -----

  /** An empty text is taken for none. */
  function Present(text: Option<string>): Option<string> {
    if text == Some("") then None else text
  }

  lemma {:induction false} TextValidated(text: Option<string>, max: nat, r: Option<string>)
    ensures ValidatedText(text, max) == Some(r) <==> r == Present(text) && StorableText(r, max)
  {
  }

  lemma {:induction false} KindValidated(kind: Option<string>, state: ProgramState, r: Option<Kind>)
    ensures ValidatedKind(kind, state) == Some(r)
            <==> (r.Some? ==> state.Blocked?) && kind == if r.Some? then Some(r.value.Word()) else None
  {
    WordsRead(state, if r.Some? then r.value else Auth);
  }

  lemma {:induction false} StateValidated(word: string, state: ProgramState)
    ensures StateFromWord(word) == Some(state) <==> word == state.Word()
  {
  }

  /** Each field passes as the corresponding one of `r`. */
  predicate FieldsPass(e: ExportedRecord, r: Record) {
    && StateFromWord(e.state) == Some(r.state)
    && ValidatedKind(e.kind, r.state) == Some(r.kind)
    && ValidatedProgress(e.progress, r.state) == Some(r.progress)
    && (e.app.Some? ==> ValidApp(Utf8.Encode(e.app.value))) && e.app == r.app
    && ValidatedText(e.title, MAX_DECODED_TITLE_BYTES) == Some(r.title)
    && ValidatedText(e.msg, MAX_DECODED_MSG_BYTES) == Some(r.msg)
  }

  lemma {:induction false} FieldsValidated(e: ExportedRecord, r: Record)
    requires ValidKey(e.id) && FieldsPass(e, r)
    ensures Validated(e) == Some((e.id, r))
  {
  }

  lemma {:induction false} ValidatedFields(e: ExportedRecord)
    requires Validated(e).Some?
    ensures var (id, r) := Validated(e).value; ValidKey(e.id) && e.id == id && FieldsPass(e, r)
  {
  }

  lemma {:induction false} ProgressValidated(progress: Option<u32>, state: ProgramState, r: Option<u8>)
    ensures ValidatedProgress(progress, state) == Some(r)
            <==> (r.Some? ==> (state.Working? || state.Blocked?) && r.value <= MAX_PROGRESS)
                 && progress == if r.Some? then Some(r.value) else None
  {
  }

  lemma {:induction false} FieldsStorable(e: ExportedRecord, id: string, r: Record)
    requires e.id == id
    ensures FieldsPass(e, r)
            <==> Storable(r) && e.(title := Present(e.title), msg := Present(e.msg)) == Exported(id, r)
  {
    StateValidated(e.state, r.state);
    KindValidated(e.kind, r.state, r.kind);
    ProgressValidated(e.progress, r.state, r.progress);
    TextValidated(e.title, MAX_DECODED_TITLE_BYTES, r.title);
    TextValidated(e.msg, MAX_DECODED_MSG_BYTES, r.msg);
  }

  /** A record passes exactly when, empty texts taken for none, it is the export of a record that could
      have been stored, and what passes is that record: nothing is repaired or dropped. */
  lemma {:induction false} ValidatedOnly(e: ExportedRecord, id: string, r: Record)
    ensures Validated(e) == Some((id, r))
            <==> ValidKey(id) && Storable(r) && e.(title := Present(e.title), msg := Present(e.msg)) == Exported(id, r)
  {
    if Validated(e).Some? {
      ValidatedFields(e);
    }
    if e.id == id {
      FieldsStorable(e, id, r);
      if ValidKey(id) && FieldsPass(e, r) {
        FieldsValidated(e, r);
      }
    }
  }

  // ----- progress -----

  lemma {:induction false} DecimalOfBoth(a: seq<byte>, b: seq<byte>)
    requires AllDigits(a) && AllDigits(b) && AllDigits(a + b)
    requires Decimal(a) == 0
    ensures Decimal(a + b) == Decimal(b)
    decreases |b|
  {
    if b == [] {
      assert a + b == a;
    } else {
      var init := b[..|b| - 1];
      assert (a + b)[..|a + b| - 1] == a + init;
      DecimalOfBoth(a, init);
    }
  }

  /** A leading zero changes no number. */
  lemma {:induction false} LeadingZero(value: seq<byte>)
    requires value != []
    ensures Progress(['0' as int] + value) == Progress(value)
  {
    var zero := ['0' as int];
    assert zero[..0] == [] && AllDigits(zero) && Decimal(zero) == 0;
    assert forall i :: 0 <= i < |value| ==> (zero + value)[i + 1] == value[i];
    if AllDigits(value) {
      DecimalOfBoth(zero, value);
    }
  }
}
