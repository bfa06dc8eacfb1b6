/** The OSC 777 agent-status payload of src-tauri/src/agent_status.rs: parser and builder. */
module AgentStatusWire {
  import opened Wrappers
  import opened Text
  import opened AgentStatus
  import Utf8

  const PAYLOAD_PREFIX := "emterm;agent-status;"

  // ----- fields -----

  /** The key of a token: what stands before the first `=`, or all of it. */
  function Key(token: string): string {
    match IndexOf(token, '=') case Some(i) => token[..i] case None => token
  }

  function FieldValue(token: string): string {
    match IndexOf(token, '=') case Some(i) => token[i + 1..] case None => ""
  }

  /** Every value given to `key`, in order. */
  function Values(tokens: seq<string>, key: string): seq<string> {
    if tokens == [] then []
    else
      var last := tokens[|tokens| - 1];
      Values(tokens[..|tokens| - 1], key) + if Key(last) == key then [FieldValue(last)] else []
  }

  lemma {:induction false} ValuesOfPrefix(tokens: seq<string>, n: nat, key: string)
    requires n <= |tokens|
    ensures Values(tokens[..n], key) <= Values(tokens, key)
    decreases |tokens|
  {
    if n < |tokens| {
      var init := tokens[..|tokens| - 1];
      ValuesOfPrefix(init, n, key);
      assert init[..n] == tokens[..n];
    } else {
      assert tokens[..n] == tokens;
    }
  }

  lemma {:induction false} ValuesAppend(a: seq<string>, b: seq<string>, key: string)
    ensures Values(a + b, key) == Values(a, key) + Values(b, key)
    decreases |b|
  {
    if b == [] {
      assert a + b == a;
    } else {
      assert (a + b)[..|a + b| - 1] == a + b[..|b| - 1];
      ValuesAppend(a, b[..|b| - 1], key);
    }
  }

  // ----- the grammar -----

  predicate StateOk(states: seq<string>) {
    |states| == 1 && ParseWire(states[0]).Some?
  }

  function NameText(value: string): Option<string> {
    var decoded :- Decoded(value);
    Some(SanitizeName(decoded))
  }

  method DecodeName(value: string) returns (r: Option<string>)
    ensures r == NameText(value)
  {
    var decoded := PercentDecode(value);
    return if decoded.Some? then Some(SanitizeName(decoded.value)) else None;
  }

  predicate NameOk(names: seq<string>) {
    names == [] || (|names| == 1 && NameText(names[0]).Some?)
  }

  function NameOf(names: seq<string>): Option<string> {
    if names == [] then None else NameText(names[0])
  }

  /** The event of the values given to the three keys. */
  function Judged(states: seq<string>, names: seq<string>, versions: seq<string>): Option<Event> {
    if StateOk(states) && NameOk(names) && |versions| <= 1 then Some(Set(ParseWire(states[0]).value, NameOf(names)))
    else None
  }

  /** The event of a list of fields: `state` exactly once and valid, `name` at most once and
      decodable, `v` at most once, anything else ignored. */
  function FromTokens(tokens: seq<string>): Option<Event> {
    Judged(Values(tokens, "state"), Values(tokens, "name"), Values(tokens, "v"))
  }

  function Parsed(payload: string): Option<Event> {
    var rest :- StripPrefix(payload, PAYLOAD_PREFIX);
    if rest == "clear" then Some(Clear) else FromTokens(Split(rest, ';'))
  }

  method Parse(payload: string) returns (r: Option<Event>)
    ensures r == Parsed(payload)
  {
    var rest :- StripPrefix(payload, PAYLOAD_PREFIX);
    if rest == "clear" {
      return Some(Clear);
    }
    r := ParseTokens(Split(rest, ';'));
  }

  lemma {:induction false} OneMore(tokens: seq<string>, i: nat, key: string)
    requires i < |tokens|
    ensures Values(tokens[..i + 1], key)
            == Values(tokens[..i], key) + if Key(tokens[i]) == key then [FieldValue(tokens[i])] else []
    ensures Values(tokens[..i + 1], key) <= Values(tokens, key)
  {
    assert tokens[..i + 1][..i] == tokens[..i];
    ValuesOfPrefix(tokens, i + 1, key);
  }

  method ParseTokens(tokens: seq<string>) returns (r: Option<Event>)
    ensures r == FromTokens(tokens)
  {
    var state: Option<AgentState> := None;
    var name: Option<string> := None;
    var seenState, seenName, seenVersion := false, false, false;
    ghost var states, names, versions: seq<string> := [], [], [];
    for i := 0 to |tokens|
      invariant states == Values(tokens[..i], "state")
      invariant names == Values(tokens[..i], "name")
      invariant versions == Values(tokens[..i], "v")
      invariant if seenState then StateOk(states) && state == ParseWire(states[0]) else states == [] && state == None
      invariant NameOk(names) && name == NameOf(names) && seenName == (names != [])
      invariant |versions| == if seenVersion then 1 else 0
    {
      var token := tokens[i];
      var key, value := Key(token), FieldValue(token);
      OneMore(tokens, i, "state");
      OneMore(tokens, i, "name");
      OneMore(tokens, i, "v");
      if token == "" {
        continue;
      }
      if key == "state" {
        states := states + [value];
        if seenState {
          return None;
        }
        seenState := true;
        state := ParseWire(value);
        if state.None? {
          return None;
        }
      } else if key == "name" {
        names := names + [value];
        if seenName {
          return None;
        }
        seenName := true;
        name := DecodeName(value);
        if name.None? {
          return None;
        }
      } else if key == "v" {
        versions := versions + [value];
        if seenVersion {
          return None;
        }
        seenVersion := true;
      }
    }
    assert tokens[..|tokens|] == tokens;
    if state.None? {
      return None;
    }
    return Some(Set(state.value, name));
  }

  /** A field with a key of its own is ignored wherever it stands. */
  lemma {:induction false} UnknownKeyIgnored(a: seq<string>, token: string, b: seq<string>)
    requires Key(token) != "state" && Key(token) != "name" && Key(token) != "v"
    ensures FromTokens(a + [token] + b) == FromTokens(a + b)
  {
    OtherKey(a, token, b, "state");
    OtherKey(a, token, b, "name");
    OtherKey(a, token, b, "v");
  }

  lemma {:induction false} OtherKey(a: seq<string>, token: string, b: seq<string>, key: string)
    requires Key(token) != key
    ensures Values(a + [token] + b, key) == Values(a + b, key)
  {
    ValuesAppend(a + [token], b, key);
    ValuesAppend(a, [token], key);
    ValuesAppend(a, b, key);
  }

  // ----- the builder -----

  function StateField(state: AgentState): string {
    "state" + "=" + AsWire(state)
  }

  function NameField(name: string): string {
    "name" + "=" + EncodedBytes(Utf8.Encode(name))
  }

  const VERSION_FIELD := "v" + "=" + "1"

  function BuiltFields(state: AgentState, name: Option<string>): string {
    VERSION_FIELD + ";" + StateField(state) + if name.Some? then ";" + NameField(name.value) else ""
  }

  function BuildPayload(event: Event): string {
    match event
    case Clear => PAYLOAD_PREFIX + "clear"
    case Set(state, name) => PAYLOAD_PREFIX + BuiltFields(state, name)
  }

  function Sanitized(event: Event): Event {
    match event
    case Set(state, Some(n)) => Set(state, Some(SanitizeName(n)))
    case _ => event
  }

  function BuiltTokens(state: AgentState, name: Option<string>): seq<string> {
    [VERSION_FIELD, StateField(state)] + if name.Some? then [NameField(name.value)] else []
  }

  lemma {:induction false} WireWord(state: AgentState)
    ensures ';' !in AsWire(state)
    ensures ParseWire(AsWire(state)) == if state == Error then None else Some(state)
  {
  }

  lemma {:induction false} SplitTwo(a: string, b: string)
    requires ';' !in a && ';' !in b
    ensures Split(a + ";" + b, ';') == [a, b]
  {
    SplitFirst(a, ';', b);
    SplitOnly(b, ';');
  }

  lemma {:induction false} SplitThree(a: string, b: string, c: string)
    requires ';' !in a && ';' !in b && ';' !in c
    ensures Split(a + ";" + b + (";" + c), ';') == [a, b, c]
  {
    assert a + ";" + b + (";" + c) == a + ";" + (b + ";" + c);
    SplitFirst(a, ';', b + ";" + c);
    SplitTwo(b, c);
  }

  lemma {:induction false} FieldsAreClean(state: AgentState, name: string)
    ensures ';' !in VERSION_FIELD && ';' !in StateField(state) && ';' !in NameField(name)
  {
    WireWord(state);
    EncodedIsAscii(Utf8.Encode(name));
  }

  lemma {:induction false} SplitBuilt(state: AgentState, name: Option<string>)
    ensures Split(BuiltFields(state, name), ';') == BuiltTokens(state, name)
  {
    var n := if name.Some? then name.value else "";
    FieldsAreClean(state, n);
    if name.Some? {
      SplitThree(VERSION_FIELD, StateField(state), NameField(n));
    } else {
      var s := VERSION_FIELD + ";" + StateField(state);
      assert s + "" == s;
      SplitTwo(VERSION_FIELD, StateField(state));
    }
  }

  lemma {:induction false} FieldIs(key: string, value: string)
    requires '=' !in key
    ensures Key(key + "=" + value) == key && FieldValue(key + "=" + value) == value
  {
    IndexOfIs(key, '=', value);
    var token := key + "=" + value;
    assert token[..|key|] == key && token[|key| + 1..] == value;
  }

  /** A token without an equals sign is a key with an empty value. */
  lemma {:induction false} BareField(token: string)
    requires '=' !in token
    ensures Key(token) == token && FieldValue(token) == ""
  {
    assert IndexOf(token, '=').Some? ==> '=' in token;
  }

  lemma {:induction false} FieldValues(k: string, value: string, key: string)
    requires '=' !in k
    ensures Values([k + "=" + value], key) == if k == key then [value] else []
  {
    FieldIs(k, value);
    assert [k + "=" + value][..0] == [];
  }

  lemma {:induction false} TwoFields(k: string, v: string, l: string, w: string, rest: seq<string>, key: string)
    requires '=' !in k && '=' !in l
    ensures Values([k + "=" + v, l + "=" + w] + rest, key)
            == (if k == key then [v] else []) + (if l == key then [w] else []) + Values(rest, key)
  {
    var a, b := [k + "=" + v], [l + "=" + w];
    assert [k + "=" + v, l + "=" + w] == a + b;
    ValuesAppend(a + b, rest, key);
    ValuesAppend(a, b, key);
    FieldValues(k, v, key);
    FieldValues(l, w, key);
  }

  lemma {:induction false} BuiltValues(state: AgentState, name: Option<string>, key: string)
    ensures Values(BuiltTokens(state, name), key)
            == (if "v" == key then ["1"] else []) + (if "state" == key then [AsWire(state)] else [])
               + if name.Some? && "name" == key then [EncodedBytes(Utf8.Encode(name.value))] else []
  {
    var last := if name.Some? then [NameField(name.value)] else [];
    TwoFields("v", "1", "state", AsWire(state), last, key);
    if name.Some? {
      FieldValues("name", EncodedBytes(Utf8.Encode(name.value)), key);
    }
  }

  lemma {:induction false} BuiltEvent(state: AgentState, name: Option<string>)
    ensures FromTokens(BuiltTokens(state, name))
            == if state == Error then None else Some(Sanitized(Set(state, name)))
  {
    BuiltValues(state, name, "v");
    BuiltValues(state, name, "state");
    BuiltValues(state, name, "name");
    WireWord(state);
    if name.Some? {
      PercentRoundTrip(name.value);
    }
  }

  lemma {:induction false} ParsedIs(rest: string)
    ensures Parsed(PAYLOAD_PREFIX + rest) == if rest == "clear" then Some(Clear) else FromTokens(Split(rest, ';'))
  {
    StripPrefixIs(PAYLOAD_PREFIX, rest);
  }

  /** Parsing what the builder wrote gives the event with its name sanitized, for every event and
      name, except that a report of Error is refused. */
  lemma {:induction false} ParseBuilt(event: Event)
    ensures Parsed(BuildPayload(event))
            == if event.Set? && event.state == Error then None else Some(Sanitized(event))
  {
    if event.Set? {
      var rest := BuiltFields(event.state, event.name);
      assert rest[0] == 'v';
      ParsedIs(rest);
      SplitBuilt(event.state, event.name);
      BuiltEvent(event.state, event.name);
    } else {
      ParsedIs("clear");
    }
  }

  lemma {:induction false} ParsedIsSanitized(tokens: seq<string>)
    ensures var r := FromTokens(tokens);
      r.Some? ==> r.value.Set? && r.value.state != Error && Sanitized(r.value) == r.value
  {
    var names := Values(tokens, "name");
    if NameOk(names) && names != [] {
      SanitizeIdempotent(Decoded(names[0]).value);
    }
  }

  /** Whatever the parser accepts, from whichever writer, survives a further round trip unchanged. */
  lemma {:induction false} ParsedIsCanonical(payload: string)
    requires Parsed(payload).Some?
    ensures Parsed(BuildPayload(Parsed(payload).value)) == Parsed(payload)
  {
    ParseBuilt(Parsed(payload).value);
    ParsedIsSanitized(Split(StripPrefix(payload, PAYLOAD_PREFIX).value, ';'));
  }

  // ----- which payloads are accepted, field by field -----

  /** The key is given at place `i` and nowhere else. */
  ghost predicate OnlyAt(tokens: seq<string>, key: string, i: nat) {
    && i < |tokens| && Key(tokens[i]) == key
    && forall j :: 0 <= j < |tokens| && j != i ==> Key(tokens[j]) != key
  }

  ghost predicate Absent(tokens: seq<string>, key: string) {
    forall j :: 0 <= j < |tokens| ==> Key(tokens[j]) != key
  }

  lemma {:induction false} AbsentGrows(init: seq<string>, last: string, key: string)
    ensures Absent(init + [last], key) <==> Absent(init, key) && Key(last) != key
  {
    var tokens := init + [last];
    assert tokens[|init|] == last && forall j :: 0 <= j < |init| ==> tokens[j] == init[j];
  }

  lemma {:induction false} AbsentExactly(tokens: seq<string>, key: string)
    ensures Values(tokens, key) == [] <==> Absent(tokens, key)
  {
    if tokens != [] {
      var init, last := tokens[..|tokens| - 1], tokens[|tokens| - 1];
      AbsentExactly(init, key);
      assert tokens == init + [last];
      AbsentGrows(init, last, key);
    }
  }

  ghost predicate OnlyValue(tokens: seq<string>, key: string, value: string) {
    exists i: nat :: OnlyAt(tokens, key, i) && FieldValue(tokens[i]) == value
  }

  lemma {:induction false} OnlyGrows(init: seq<string>, last: string, key: string, value: string)
    ensures OnlyValue(init + [last], key, value)
            <==> if Key(last) == key then Absent(init, key) && FieldValue(last) == value
                 else OnlyValue(init, key, value)
  {
    var tokens := init + [last];
    assert tokens[|init|] == last && forall j :: 0 <= j < |init| ==> tokens[j] == init[j];
    if Key(last) == key && Absent(init, key) {
      assert OnlyAt(tokens, key, |init|);
    }
    if Key(last) != key && OnlyValue(init, key, value) {
      var i: nat :| OnlyAt(init, key, i) && FieldValue(init[i]) == value;
      assert OnlyAt(tokens, key, i);
    }
    if Key(last) != key && OnlyValue(tokens, key, value) {
      var i: nat :| OnlyAt(tokens, key, i) && FieldValue(tokens[i]) == value;
      assert OnlyAt(init, key, i);
    }
  }

  lemma {:induction false} OnlyExactly(tokens: seq<string>, key: string, value: string)
    ensures Values(tokens, key) == [value] <==> OnlyValue(tokens, key, value)
  {
    if tokens != [] {
      var init, last := tokens[..|tokens| - 1], tokens[|tokens| - 1];
      OnlyExactly(init, key, value);
      AbsentExactly(init, key);
      assert tokens == init + [last];
      OnlyGrows(init, last, key, value);
      LastValueIs(Values(init, key), FieldValue(last), value);
    }
  }

  lemma {:induction false} LastValueIs(before: seq<string>, last: string, value: string)
    ensures before + [last] == [value] <==> before == [] && last == value
    ensures before + [] == [value] <==> before == [value]
  {
    assert before + [] == before;
    assert before + [last] == [value] ==> |before| == 0 && (before + [last])[|before|] == last;
  }

  /** The fields are accepted as this report exactly when `state` is given once, with the word of the
      state, `name` never or once, with a text that decodes to the name, and `v` at most once. */
  lemma {:induction false} AcceptedExactly(tokens: seq<string>, state: AgentState, name: Option<string>)
    ensures FromTokens(tokens) == Some(Set(state, name))
            <==> && state != Error && OnlyValue(tokens, "state", AsWire(state))
                 && (if name.None? then Absent(tokens, "name")
                     else exists text :: OnlyValue(tokens, "name", text) && NameText(text) == name)
                 && (Absent(tokens, "v") || exists version :: OnlyValue(tokens, "v", version))
  {
    var states, names, versions := Values(tokens, "state"), Values(tokens, "name"), Values(tokens, "v");
    AbsentExactly(tokens, "name");
    AbsentExactly(tokens, "v");
    forall value
      ensures states == [value] <==> OnlyValue(tokens, "state", value)
      ensures names == [value] <==> OnlyValue(tokens, "name", value)
      ensures versions == [value] <==> OnlyValue(tokens, "v", value)
    {
      OnlyExactly(tokens, "state", value);
      OnlyExactly(tokens, "name", value);
      OnlyExactly(tokens, "v", value);
    }
    JudgedExactly(states, names, versions, state, name);
  }

  lemma {:induction false} JudgedExactly(states: seq<string>, names: seq<string>, versions: seq<string>,
                                         state: AgentState, name: Option<string>)
    ensures Judged(states, names, versions) == Some(Set(state, name))
            <==> && state != Error && states == [AsWire(state)]
                 && (if name.None? then names == [] else exists text :: names == [text] && NameText(text) == name)
                 && (versions == [] || exists version :: versions == [version])
  {
    WordExactly(if |states| == 1 then states[0] else "", state);
    if |versions| == 1 {
      assert versions == [versions[0]];
    }
    if |names| == 1 {
      assert names == [names[0]];
    }
    if |states| == 1 {
      assert states == [states[0]];
    }
  }

  lemma {:induction false} WordExactly(word: string, state: AgentState)
    ensures ParseWire(word) == Some(state) <==> state != Error && word == AsWire(state)
  {
  }

  /** The words of the four states that a payload can set. */
  predicate IsWord(word: string, state: AgentState) {
    || (word == "idle" && state == Idle) || (word == "working" && state == Working)
    || (word == "blocked" && state == Blocked) || (word == "done" && state == Done)
  }

  lemma {:induction false} OneToken(word: string, state: AgentState)
    requires IsWord(word, state)
    ensures FromTokens(["state" + "=" + word]) == Some(Set(state, None))
  {
    FieldValues("state", word, "state");
    FieldValues("state", word, "name");
    FieldValues("state", word, "v");
  }

  lemma {:induction false} StateText(word: string, state: AgentState)
    requires IsWord(word, state)
    ensures var token := "state" + "=" + word; token != "clear" && Split(token, ';') == [token]
  {
    var token := "state" + "=" + word;
    assert ';' !in token && token[0] == 's';
    SplitOnly(token, ';');
  }

  /** A payload with nothing but a state sets that state, and the clear payload clears. */
  lemma {:induction false} PlainPayloads(word: string, state: AgentState)
    requires IsWord(word, state)
    ensures Parsed("emterm;agent-status;" + ("state" + "=" + word)) == Some(Set(state, None))
    ensures Parsed("emterm;agent-status;" + "clear") == Some(Clear)
  {
    var token := "state" + "=" + word;
    StateText(word, state);
    OneToken(word, state);
    ParsedIs(token);
    ParsedIs("clear");
  }

  lemma {:induction false} HeadIs()
    ensures "emterm;agent-status;" + "v=1;state=" == "emterm;agent-status;v=1;state="
    ensures VERSION_FIELD + ";" + "state" + "=" == "v=1;state="
  {
  }

  lemma {:induction false} Regroup(p: string, v: string, k: string, e: string, w: string, rest: string)
    ensures p + (v + (k + e + w) + rest) == p + (v + k + e) + w + rest
  {
  }

  lemma {:induction false} BuiltIs(state: AgentState, rest: string)
    ensures PAYLOAD_PREFIX + (VERSION_FIELD + ";" + StateField(state) + rest)
            == "emterm;agent-status;v=1;state=" + AsWire(state) + rest
  {
    HeadIs();
    Regroup(PAYLOAD_PREFIX, VERSION_FIELD + ";", "state", "=", AsWire(state), rest);
  }

  lemma {:induction false} NameIs(front: string, e: string)
    ensures front + (";" + ("name" + "=" + e)) == front + ";name=" + e && front + "" == front
  {
    assert ";" + ("name" + "=" + e) == ";name=" + e;
  }

  lemma {:induction false} WordIs(word: string, state: AgentState)
    requires IsWord(word, state)
    ensures AsWire(state) == word
  {
  }

  lemma {:induction false} ClearIs()
    ensures PAYLOAD_PREFIX + "clear" == "emterm;agent-status;clear"
  {
  }

  /** What the builder writes. */
  lemma {:induction false} BuiltExactly(word: string, state: AgentState, name: string)
    requires IsWord(word, state)
    ensures BuildPayload(Clear) == "emterm;agent-status;clear"
    ensures BuildPayload(Set(state, None)) == "emterm;agent-status;v=1;state=" + word
    ensures BuildPayload(Set(state, Some(name)))
            == "emterm;agent-status;v=1;state=" + word + ";name=" + EncodedBytes(Utf8.Encode(name))
  {
    var e := EncodedBytes(Utf8.Encode(name));
    ClearIs();
    WordIs(word, state);
    BuiltIs(state, "");
    BuiltIs(state, ";" + NameField(name));
    NameIs("emterm;agent-status;v=1;state=" + word, e);
  }
}
