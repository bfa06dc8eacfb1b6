/** The wire layout of crates/mux_ipc/src/handoff.rs: the fields of every type in the order in which
    they are derived, and that each layout is lawful. */
module HandoffLayout {
  import opened Integers
  import opened Wrappers
  import opened Bincode
  import opened LittleEndian
  import opened Codecs
  import opened Handoff

  // ----- the layout: the fields of each type in order -----

  const STATE := Codec<AgentState>.Codec(
    Variant(5),
    (s: AgentState) =>
      Number(match s case Idle => 0 case Working => 1 case Blocked => 2 case Done => 3 case Error => 4),
    (v: Value) => if !v.Number? || v.n == 0 then Idle else if v.n == 1 then Working
                  else if v.n == 2 then Blocked else if v.n == 3 then Done else Error)

  const OPT_STR := OptionOf(STRING)
  const OPT_U32 := OptionOf(U32)
  const OPT_I32 := OptionOf(I32)
  const OPT_STATE := OptionOf(STATE)
  const BYTES := VectorOf(BYTE)
  const U32S := VectorOf(U32)

  type RecordFields =
    And<Str, And<Str, And<Option<Str>, And<Option<u32>, And<Option<Str>, And<Option<Str>, Option<Str>>>>>>>

  const RECORD := As(Then(STRING, Then(STRING, Then(OPT_STR, Then(OPT_U32, Then(OPT_STR, Then(OPT_STR, OPT_STR)))))),
                     MakeRecord, RecordParts)

  function MakeRecord(t: RecordFields): ProgramRecord {
    var u := t.rest.rest;
    var w := u.rest.rest;
    ProgramRecord(t.first, t.rest.first, u.first, u.rest.first, w.first, w.rest.first, w.rest.rest)
  }

  function RecordParts(r: ProgramRecord): RecordFields {
    And(r.id, And(r.state, And(r.kind, And(r.progress, And(r.app, And(r.title, r.msg))))))
  }

  type Identity = And<u32, And<u16, And<u16, And<Option<Str>, Option<Str>>>>>
  type Agent = And<Option<AgentState>, And<Option<Str>, u64>>
  type Process = And<bool, And<Option<u32>, And<Option<i32>, Vec<byte>>>>
  type PaneV1Fields = And<Identity, And<Agent, Process>>

  const IDENTITY := Then(U32, Then(U16, Then(U16, Then(OPT_STR, OPT_STR))))
  const AGENT := Then(OPT_STATE, Then(OPT_STR, U64))
  const PROCESS := Then(BOOL, Then(OPT_U32, Then(OPT_I32, BYTES)))

  const PANE_V1 := As(Then(IDENTITY, Then(AGENT, PROCESS)), MakePaneV1, PaneV1Parts)

  function MakePaneV1(t: PaneV1Fields): PaneV1 {
    var i, a, p := t.first, t.rest.first, t.rest.rest;
    PaneV1(
      i.first, i.rest.first, i.rest.rest.first, i.rest.rest.rest.first, i.rest.rest.rest.rest,
      a.first, a.rest.first, a.rest.rest,
      p.first, p.rest.first, p.rest.rest.first, p.rest.rest.rest)
  }

  function PaneV1Parts(p: PaneV1): PaneV1Fields {
    And(And(p.id, And(p.cols, And(p.rows, And(p.cwd, p.title)))),
        And(And(p.agentState, And(p.agentName, p.agentRevision)),
            And(p.exited, And(p.childPid, And(p.masterFd, p.scrollback)))))
  }

  type Latch = And<bool, And<bool, u64>>

  const LATCH := Then(BOOL, Then(BOOL, U64))
  const PANE_V2 := As(Then(PANE_V1, LATCH), MakePaneV2, PaneV2Parts)

  function MakePaneV2(t: And<PaneV1, Latch>): PaneV2 {
    var p, latch := t.first, t.rest;
    PaneV2(
      p.id, p.cols, p.rows, p.cwd, p.title, p.agentState, p.agentName, p.agentRevision, p.exited, p.childPid,
      p.masterFd, p.scrollback, latch.first, latch.rest.first, latch.rest.rest)
  }

  function PaneV2Parts(p: PaneV2): And<PaneV1, Latch> {
    And(PaneV1(
      p.id, p.cols, p.rows, p.cwd, p.title, p.agentState, p.agentName, p.agentRevision, p.exited, p.childPid,
      p.masterFd, p.scrollback),
     And(p.latchArmed, And(p.latchCommandEnded, p.latchGeneration)))
  }

  type AltScreen = And<bool, Vec<byte>>

  const ALT_SCREEN := Then(BOOL, BYTES)
  const PANE_V3 := As(Then(PANE_V2, ALT_SCREEN), MakePaneV3, PaneV3Parts)

  function MakePaneV3(t: And<PaneV2, AltScreen>): PaneV3 {
    var p, alt := t.first, t.rest;
    PaneV3(
      p.id, p.cols, p.rows, p.cwd, p.title, p.agentState, p.agentName, p.agentRevision, p.exited, p.childPid,
      p.masterFd, p.scrollback, p.latchArmed, p.latchCommandEnded, p.latchGeneration, alt.first, alt.rest)
  }

  function PaneV3Parts(p: PaneV3): And<PaneV2, AltScreen> {
    And(PaneV2(
      p.id, p.cols, p.rows, p.cwd, p.title, p.agentState, p.agentName, p.agentRevision, p.exited, p.childPid,
      p.masterFd, p.scrollback, p.latchArmed, p.latchCommandEnded, p.latchGeneration),
     And(p.altScreen, p.altScreenDump))
  }

  const RECORDS := VectorOf(RECORD)
  const PANE := As(Then(PANE_V3, RECORDS), MakePane, PaneParts)

  function MakePane(t: And<PaneV3, Vec<ProgramRecord>>): Pane {
    var p := t.first;
    Pane(
      p.id, p.cols, p.rows, p.cwd, p.title, p.agentState, p.agentName, p.agentRevision, p.exited, p.childPid,
      p.masterFd, p.scrollback, p.latchArmed, p.latchCommandEnded, p.latchGeneration, p.altScreen,
      p.altScreenDump, t.rest)
  }

  function PaneParts(p: Pane): And<PaneV3, Vec<ProgramRecord>> {
    And(PaneV3(
      p.id, p.cols, p.rows, p.cwd, p.title, p.agentState, p.agentName, p.agentRevision, p.exited, p.childPid,
      p.masterFd, p.scrollback, p.latchArmed, p.latchCommandEnded, p.latchGeneration, p.altScreen,
      p.altScreenDump),
     p.programRecords)
  }

  type WindowFields<P> = And<u32, And<Str, And<Option<u32>, And<u32, Vec<P>>>>>

  function WindowOf<P>(pane: Codec<P>): Codec<Window<P>> {
    As(Then(U32, Then(STRING, Then(OPT_U32, Then(U32, VectorOf(pane))))), MakeWindow, WindowParts)
  }

  function MakeWindow<P>(t: WindowFields<P>): Window<P> {
    var u := t.rest.rest;
    Window(t.first, t.rest.first, u.first, u.rest.first, u.rest.rest)
  }

  function WindowParts<P>(w: Window<P>): WindowFields<P> {
    And(w.id, And(w.name, And(w.activePaneId, And(w.nextPaneId, w.panes))))
  }

  type SessionFields<P> = And<u32, And<Str, And<Vec<u32>, And<Option<u32>, And<u32, Vec<Window<P>>>>>>>

  function SessionOf<P>(pane: Codec<P>): Codec<Session<P>> {
    As(Then(U32, Then(STRING, Then(U32S, Then(OPT_U32, Then(U32, VectorOf(WindowOf(pane))))))),
       MakeSession, SessionParts)
  }

  function MakeSession<P>(t: SessionFields<P>): Session<P> {
    var u := t.rest.rest;
    Session(t.first, t.rest.first, u.first, u.rest.first, u.rest.rest.first, u.rest.rest.rest)
  }

  function SessionParts<P>(s: Session<P>): SessionFields<P> {
    And(s.id, And(s.name, And(s.windowOrder, And(s.activeWindowId, And(s.nextWindowId, s.windows)))))
  }

  type DocumentFields<P> = And<u32, AfterVersionFields<P>>

  function DocumentOf<P>(pane: Codec<P>): Codec<Document<P>> {
    As(Then(U32, AfterVersion(pane)), MakeDocument, DocumentParts)
  }

  type AfterVersionFields<P> = And<Str, And<i32, And<u32, And<u32, Vec<Session<P>>>>>>

  function AfterVersion<P>(pane: Codec<P>): Codec<AfterVersionFields<P>> {
    Then(STRING, Then(I32, Then(U32, Then(U32, VectorOf(SessionOf(pane))))))
  }

  function MakeDocument<P>(t: DocumentFields<P>): Document<P> {
    var u := t.rest.rest;
    Document(t.first, t.rest.first, u.first, u.rest.first, u.rest.rest.first, u.rest.rest.rest)
  }

  function DocumentParts<P>(d: Document<P>): DocumentFields<P> {
    And(d.schemaVersion, And(d.incarnation, And(d.listenFd, And(d.nextSessionId, And(d.nextPaneId, d.sessions)))))
  }

  // ----- every layout is lawful -----

  lemma {:induction false} StateLawful()
    ensures Lawful(STATE)
  {
    Widths();
  }

  lemma {:induction false} PartsLawful()
    ensures Lawful(U16) && Lawful(U32) && Lawful(U64) && Lawful(I32) && Lawful(BOOL) && Lawful(STRING)
    ensures Lawful(OPT_STR) && Lawful(OPT_U32) && Lawful(OPT_I32) && Lawful(OPT_STATE) && Lawful(BYTES) && Lawful(U32S)
  {
    BaseLawful();
    StateLawful();
    OptionLawful(STRING);
    OptionLawful(U32);
    OptionLawful(I32);
    OptionLawful(STATE);
    VectorLawful(BYTE);
    VectorLawful(U32);
  }

  lemma {:induction false} RecordLawful()
    ensures Lawful(RECORD)
  {
    PartsLawful();
    var c5 := Then(OPT_STR, OPT_STR);
    var c4 := Then(OPT_STR, c5);
    var c3 := Then(OPT_U32, c4);
    var c2 := Then(OPT_STR, c3);
    var c1 := Then(STRING, c2);
    ThenLawful(OPT_STR, OPT_STR);
    ThenLawful(OPT_STR, c5);
    ThenLawful(OPT_U32, c4);
    ThenLawful(OPT_STR, c3);
    ThenLawful(STRING, c2);
    ThenLawful(STRING, c1);
    AsLawful(Then(STRING, c1), MakeRecord, RecordParts);
  }

  lemma {:induction false} IdentityLawful()
    ensures Lawful(IDENTITY)
  {
    PartsLawful();
    var c3 := Then(OPT_STR, OPT_STR);
    var c2 := Then(U16, c3);
    var c1 := Then(U16, c2);
    ThenLawful(OPT_STR, OPT_STR);
    ThenLawful(U16, c3);
    ThenLawful(U16, c2);
    ThenLawful(U32, c1);
  }

  lemma {:induction false} AgentAndProcessLawful()
    ensures Lawful(AGENT) && Lawful(PROCESS)
  {
    PartsLawful();
    ThenLawful(OPT_STR, U64);
    ThenLawful(OPT_STATE, Then(OPT_STR, U64));
    ThenLawful(OPT_I32, BYTES);
    ThenLawful(OPT_U32, Then(OPT_I32, BYTES));
    ThenLawful(BOOL, Then(OPT_U32, Then(OPT_I32, BYTES)));
  }

  lemma {:induction false} LatchAndScreenLawful()
    ensures Lawful(LATCH) && Lawful(ALT_SCREEN)
  {
    PartsLawful();
    ThenLawful(BOOL, U64);
    ThenLawful(BOOL, Then(BOOL, U64));
    ThenLawful(BOOL, BYTES);
  }

  lemma {:induction false} PaneV1Lawful()
    ensures Lawful(PANE_V1)
  {
    IdentityLawful();
    AgentAndProcessLawful();
    ThenLawful(AGENT, PROCESS);
    ThenLawful(IDENTITY, Then(AGENT, PROCESS));
    AsLawful(Then(IDENTITY, Then(AGENT, PROCESS)), MakePaneV1, PaneV1Parts);
  }

  lemma {:induction false} PaneV2Lawful()
    ensures Lawful(PANE_V2)
  {
    PaneV1Lawful();
    LatchAndScreenLawful();
    ThenLawful(PANE_V1, LATCH);
    AsLawful(Then(PANE_V1, LATCH), MakePaneV2, PaneV2Parts);
  }

  lemma {:induction false} PaneV3Lawful()
    ensures Lawful(PANE_V3)
  {
    PaneV2Lawful();
    LatchAndScreenLawful();
    ThenLawful(PANE_V2, ALT_SCREEN);
    AsLawful(Then(PANE_V2, ALT_SCREEN), MakePaneV3, PaneV3Parts);
  }

  lemma {:induction false} PaneLawful()
    ensures Lawful(PANE)
  {
    PaneV3Lawful();
    RecordLawful();
    VectorLawful(RECORD);
    ThenLawful(PANE_V3, RECORDS);
    AsLawful(Then(PANE_V3, RECORDS), MakePane, PaneParts);
  }

  lemma {:induction false} PanesLawful()
    ensures Lawful(PANE_V1) && Lawful(PANE_V2) && Lawful(PANE_V3) && Lawful(PANE)
  {
    PaneV1Lawful();
    PaneV2Lawful();
    PaneV3Lawful();
    PaneLawful();
  }

  lemma {:induction false} WindowLawful<P(!new)>(pane: Codec<P>)
    requires Lawful(pane)
    ensures Lawful(WindowOf(pane))
  {
    PartsLawful();
    VectorLawful(pane);
    var c3 := Then(U32, VectorOf(pane));
    var c2 := Then(OPT_U32, c3);
    var c1 := Then(STRING, c2);
    ThenLawful(U32, VectorOf(pane));
    ThenLawful(OPT_U32, c3);
    ThenLawful(STRING, c2);
    ThenLawful(U32, c1);
    AsLawful(Then(U32, c1), MakeWindow<P>, WindowParts<P>);
  }

  lemma {:induction false} SessionLawful<P(!new)>(pane: Codec<P>)
    requires Lawful(pane)
    ensures Lawful(SessionOf(pane))
  {
    PartsLawful();
    WindowLawful(pane);
    VectorLawful(WindowOf(pane));
    var c4 := Then(U32, VectorOf(WindowOf(pane)));
    var c3 := Then(OPT_U32, c4);
    var c2 := Then(U32S, c3);
    var c1 := Then(STRING, c2);
    ThenLawful(U32, VectorOf(WindowOf(pane)));
    ThenLawful(OPT_U32, c4);
    ThenLawful(U32S, c3);
    ThenLawful(STRING, c2);
    ThenLawful(U32, c1);
    AsLawful(Then(U32, c1), MakeSession<P>, SessionParts<P>);
  }

  lemma {:induction false} DocumentLawful<P(!new)>(pane: Codec<P>)
    requires Lawful(pane)
    ensures Lawful(AfterVersion(pane)) && Lawful(DocumentOf(pane))
  {
    PartsLawful();
    SessionLawful(pane);
    VectorLawful(SessionOf(pane));
    var c3 := Then(U32, VectorOf(SessionOf(pane)));
    var c2 := Then(U32, c3);
    var c1 := Then(I32, c2);
    ThenLawful(U32, VectorOf(SessionOf(pane)));
    ThenLawful(U32, c3);
    ThenLawful(I32, c2);
    ThenLawful(STRING, c1);
    ThenLawful(U32, AfterVersion(pane));
    AsLawful(Then(U32, AfterVersion(pane)), MakeDocument<P>, DocumentParts<P>);
  }
}
