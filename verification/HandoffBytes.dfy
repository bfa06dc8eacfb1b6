/** The bytes of a hot-upgrade document, written out field by field: what another build or another
    program has to read and write (crates/mux_ipc/src/handoff.rs). Nothing here uses shapes, codecs or
    recursion over bytes; the theorems say that the codec writes exactly these bytes. */
module HandoffBytes {
  import opened Integers
  import opened Wrappers
  import opened LittleEndian
  import opened Bincode
  import opened Codecs
  import opened Handoff
  import opened HandoffLayout
  import opened HandoffCodec
  import Utf8

  // ----- the reference -----

  type Bytes = seq<byte>

  function Flat(parts: seq<Bytes>): Bytes {
    if parts == [] then [] else parts[0] + Flat(parts[1..])
  }

  function ByteBytes(b: byte): Bytes { [b] }

  function FlagBytes(on: bool): Bytes { if on then [1] else [0] }

  /** Two's complement. */
  function I32Bytes(n: i32): Bytes { U32Bytes(if n < 0 then n + LIMIT32 else n) }

  /** The length in bytes and the bytes. */
  function TextBytes(s: Str): Bytes { U64Bytes(|Utf8.Encode(s)|) + Utf8.Encode(s) }

  /** A zero byte, or a one and the value. */
  function OptionBytes<T>(o: Option<T>, f: T -> Bytes): Bytes {
    match o case None => [0] case Some(t) => [1] + f(t)
  }

  /** The number of elements and the elements. */
  function ListBytes<T>(s: Vec<T>, f: T -> Bytes): Bytes { U64Bytes(|s|) + Flat(Map(f, s)) }

  function OptText(o: Option<Str>): Bytes { OptionBytes(o, TextBytes) }
  function OptU32(o: Option<u32>): Bytes { OptionBytes(o, U32Bytes) }
  function OptI32(o: Option<i32>): Bytes { OptionBytes(o, I32Bytes) }
  function OptState(o: Option<AgentState>): Bytes { OptionBytes(o, StateBytes) }
  function ByteList(s: Vec<byte>): Bytes { ListBytes(s, ByteBytes) }
  function U32List(s: Vec<u32>): Bytes { ListBytes(s, U32Bytes) }
  function RecordList(s: Vec<ProgramRecord>): Bytes { ListBytes(s, RecordBytes) }

  /** The states in the order in which they are declared, as 32-bit variant indices. */
  function StateBytes(s: AgentState): Bytes {
    match s
    case Idle => [0, 0, 0, 0]
    case Working => [1, 0, 0, 0]
    case Blocked => [2, 0, 0, 0]
    case Done => [3, 0, 0, 0]
    case Error => [4, 0, 0, 0]
  }

  function RecordBytes(r: ProgramRecord): Bytes {
    Flat([TextBytes(r.id), TextBytes(r.state), OptText(r.kind), OptU32(r.progress),
          OptText(r.app), OptText(r.title), OptText(r.msg)])
  }

  function PaneV1Bytes(p: PaneV1): Bytes {
    Flat([U32Bytes(p.id), U16Bytes(p.cols), U16Bytes(p.rows), OptText(p.cwd), OptText(p.title)])
    + Flat([OptState(p.agentState), OptText(p.agentName), U64Bytes(p.agentRevision)])
    + Flat([FlagBytes(p.exited), OptU32(p.childPid), OptI32(p.masterFd), ByteList(p.scrollback)])
  }

  function PaneV2Bytes(p: PaneV2): Bytes {
    Flat([U32Bytes(p.id), U16Bytes(p.cols), U16Bytes(p.rows), OptText(p.cwd), OptText(p.title)])
    + Flat([OptState(p.agentState), OptText(p.agentName), U64Bytes(p.agentRevision)])
    + Flat([FlagBytes(p.exited), OptU32(p.childPid), OptI32(p.masterFd), ByteList(p.scrollback)])
    + Flat([FlagBytes(p.latchArmed), FlagBytes(p.latchCommandEnded), U64Bytes(p.latchGeneration)])
  }

  function PaneV3Bytes(p: PaneV3): Bytes {
    Flat([U32Bytes(p.id), U16Bytes(p.cols), U16Bytes(p.rows), OptText(p.cwd), OptText(p.title)])
    + Flat([OptState(p.agentState), OptText(p.agentName), U64Bytes(p.agentRevision)])
    + Flat([FlagBytes(p.exited), OptU32(p.childPid), OptI32(p.masterFd), ByteList(p.scrollback)])
    + Flat([FlagBytes(p.latchArmed), FlagBytes(p.latchCommandEnded), U64Bytes(p.latchGeneration)])
    + Flat([FlagBytes(p.altScreen), ByteList(p.altScreenDump)])
  }

  function PaneBytes(p: Pane): Bytes {
    Flat([U32Bytes(p.id), U16Bytes(p.cols), U16Bytes(p.rows), OptText(p.cwd), OptText(p.title)])
    + Flat([OptState(p.agentState), OptText(p.agentName), U64Bytes(p.agentRevision)])
    + Flat([FlagBytes(p.exited), OptU32(p.childPid), OptI32(p.masterFd), ByteList(p.scrollback)])
    + Flat([FlagBytes(p.latchArmed), FlagBytes(p.latchCommandEnded), U64Bytes(p.latchGeneration)])
    + Flat([FlagBytes(p.altScreen), ByteList(p.altScreenDump)])
    + RecordList(p.programRecords)
  }

  function WindowBytes<P>(w: Window<P>, pane: P -> Bytes): Bytes {
    Flat([U32Bytes(w.id), TextBytes(w.name), OptU32(w.activePaneId), U32Bytes(w.nextPaneId),
          ListBytes(w.panes, pane)])
  }

  function SessionBytes<P>(s: Session<P>, pane: P -> Bytes): Bytes {
    Flat([U32Bytes(s.id), TextBytes(s.name), U32List(s.windowOrder),
          OptU32(s.activeWindowId), U32Bytes(s.nextWindowId),
          ListBytes(s.windows, (w: Window<P>) => WindowBytes(w, pane))])
  }

  function DocumentBytes<P>(d: Document<P>, pane: P -> Bytes): Bytes {
    Flat([U32Bytes(d.schemaVersion), TextBytes(d.incarnation), I32Bytes(d.listenFd), U32Bytes(d.nextSessionId),
          U32Bytes(d.nextPaneId), ListBytes(d.sessions, (s: Session<P>) => SessionBytes(s, pane))])
  }

  // ----- what a codec writes -----

  function Written<T(!new)>(c: Codec<T>, t: T): Bytes
    requires Lawful(c)
  {
    Encode(c.shape, c.to(t))
  }

  ghost predicate Writes<T(!new)>(c: Codec<T>, f: T -> Bytes) {
    Lawful(c) && forall t: T :: Written(c, t) == f(t)
  }

  lemma {:induction false} BaseWrites()
    ensures Writes(U16, U16Bytes) && Writes(U32, U32Bytes) && Writes(U64, U64Bytes)
    ensures Writes(BYTE, ByteBytes) && Writes(BOOL, FlagBytes)
  {
    BaseLawful();
    forall n: u16 ensures Written(U16, n) == U16Bytes(n) { TwoBytes(n); }
    forall n: u32 ensures Written(U32, n) == U32Bytes(n) { FourBytes(n); }
    forall n: u64 ensures Written(U64, n) == U64Bytes(n) { EightBytes(n); }
    forall n: byte ensures Written(BYTE, n) == ByteBytes(n) { OneByteWrites(n); }
  }

  lemma {:induction false} OneByteWrites(n: byte)
    ensures ToLittleEndian(1, n) == [n]
  {
    assert ToLittleEndian(0, n / 256) == [];
  }

  lemma {:induction false} TwosComplement(n: i32)
    ensures n % LIMIT32 == if n < 0 then n + LIMIT32 else n
  {
  }

  lemma {:induction false} SignedWrites()
    ensures Writes(I32, I32Bytes)
  {
    SignedLawful();
    forall n: i32
      ensures Written(I32, n) == I32Bytes(n)
    {
      TwosComplement(n);
      FourBytes(if n < 0 then n + LIMIT32 else n);
    }
  }

  lemma {:induction false} TextWrites()
    ensures Writes(STRING, TextBytes)
  {
    BaseLawful();
    forall s: Str ensures Written(STRING, s) == TextBytes(s) { EightBytes(|Utf8.Encode(s)|); }
  }

  lemma {:induction false} IndexBytes(n: nat)
    requires n < 256
    ensures ToLittleEndian(4, n) == [n, 0, 0, 0]
  {
    FourBytes(n);
  }

  lemma {:induction false} StateWritten(s: AgentState)
    requires Lawful(STATE)
    ensures Written(STATE, s) == StateBytes(s)
  {
    IndexBytes(STATE.to(s).n);
  }

  lemma {:induction false} StateWrites()
    ensures Writes(STATE, StateBytes)
  {
    StateLawful();
    forall s ensures Written(STATE, s) == StateBytes(s) { StateWritten(s); }
  }

  lemma {:induction false} OptionWrites<T(!new)>(c: Codec<T>, f: T -> Bytes, g: Option<T> -> Bytes)
    requires Writes(c, f) && forall o: Option<T> :: g(o) == OptionBytes(o, f)
    ensures Writes(OptionOf(c), g)
  {
    OptionLawful(c);
    forall o: Option<T>
      ensures Written(OptionOf(c), o) == g(o)
    {
      assert o.Some? ==> Written(c, o.value) == f(o.value);
    }
  }

  lemma {:induction false} AllWrites<T(!new)>(c: Codec<T>, f: T -> Bytes, s: seq<T>)
    requires Writes(c, f)
    ensures AllFit(c.shape, Map(c.to, s)) && EncodeAll(c.shape, Map(c.to, s)) == Flat(Map(f, s))
    decreases |s|
  {
    AllFitIff(c.shape, Map(c.to, s));
    if s != [] {
      AllWrites(c, f, s[1..]);
      assert Written(c, s[0]) == f(s[0]);
      assert Map(c.to, s)[1..] == Map(c.to, s[1..]);
      assert Map(f, s)[1..] == Map(f, s[1..]);
    }
  }

  lemma {:induction false} VectorWrites<T(!new)>(c: Codec<T>, f: T -> Bytes, g: Vec<T> -> Bytes)
    requires Writes(c, f) && forall s: Vec<T> :: g(s) == ListBytes(s, f)
    ensures Writes(VectorOf(c), g)
  {
    VectorLawful(c);
    forall s: Vec<T>
      ensures Written(VectorOf(c), s) == g(s)
    {
      AllWrites(c, f, s);
      EightBytes(|s|);
    }
  }

  /** Two fields are written one behind the other. */
  lemma {:induction false} ThenWritten<A(!new), B(!new)>(a: Codec<A>, f: A -> Bytes, x: A,
                                                         b: Codec<B>, y: B, rest: Bytes)
    requires Writes(a, f) && Lawful(b) && Written(b, y) == rest
    ensures Lawful(Then(a, b)) && Written(Then(a, b), And(x, y)) == f(x) + rest
  {
    ThenLawful(a, b);
    assert Written(a, x) == f(x);
  }

  lemma {:induction false} AsWritten<A(!new), B(!new)>(c: Codec<A>, make: A -> B, parts: B -> A, b: B)
    requires Lawful(c) && Lawful(As(c, make, parts))
    ensures Written(As(c, make, parts), b) == Written(c, parts(b))
  {
  }

  lemma {:induction false} PartsWrite()
    ensures Writes(OPT_STR, OptText) && Writes(OPT_U32, OptU32) && Writes(OPT_I32, OptI32)
    ensures Writes(OPT_STATE, OptState) && Writes(BYTES, ByteList) && Writes(U32S, U32List)
  {
    BaseWrites();
    SignedWrites();
    TextWrites();
    StateWrites();
    OptionWrites(STRING, TextBytes, OptText);
    OptionWrites(U32, U32Bytes, OptU32);
    OptionWrites(I32, I32Bytes, OptI32);
    OptionWrites(STATE, StateBytes, OptState);
    VectorWrites(BYTE, ByteBytes, ByteList);
    VectorWrites(U32, U32Bytes, U32List);
  }

  // ----- lists of fields -----

  lemma {:induction false} FlatFirst(x: Bytes, rest: seq<Bytes>, parts: seq<Bytes>)
    requires parts == [x] + rest
    ensures Flat(parts) == x + Flat(rest)
  {
    assert parts[1..] == rest;
  }

  lemma {:induction false} FlatTwo(a: Bytes, b: Bytes)
    ensures Flat([a, b]) == a + b
  {
    FlatFirst(a, [b], [a, b]);
    FlatFirst(b, [], [b]);
  }

  lemma {:induction false} FlatThree(a: Bytes, b: Bytes, c: Bytes)
    ensures Flat([a, b, c]) == a + (b + c)
  {
    FlatTwo(b, c);
    FlatFirst(a, [b, c], [a, b, c]);
  }

  lemma {:induction false} FlatFour(a: Bytes, b: Bytes, c: Bytes, d: Bytes)
    ensures Flat([a, b, c, d]) == a + (b + (c + d))
  {
    FlatThree(b, c, d);
    FlatFirst(a, [b, c, d], [a, b, c, d]);
  }

  lemma {:induction false} FlatFive(a: Bytes, b: Bytes, c: Bytes, d: Bytes, e: Bytes)
    ensures Flat([a, b, c, d, e]) == a + (b + (c + (d + e)))
  {
    FlatFour(b, c, d, e);
    FlatFirst(a, [b, c, d, e], [a, b, c, d, e]);
  }

  lemma {:induction false} FlatSix(a: Bytes, b: Bytes, c: Bytes, d: Bytes, e: Bytes, f: Bytes)
    ensures Flat([a, b, c, d, e, f]) == a + (b + (c + (d + (e + f))))
  {
    FlatFive(b, c, d, e, f);
    FlatFirst(a, [b, c, d, e, f], [a, b, c, d, e, f]);
  }

  lemma {:induction false} FlatSeven(a: Bytes, b: Bytes, c: Bytes, d: Bytes, e: Bytes, f: Bytes, g: Bytes)
    ensures Flat([a, b, c, d, e, f, g]) == a + (b + (c + (d + (e + (f + g)))))
  {
    FlatSix(b, c, d, e, f, g);
    FlatFirst(a, [b, c, d, e, f, g], [a, b, c, d, e, f, g]);
  }

  // ----- panes -----

  lemma {:induction false} RecordWritten(r: ProgramRecord)
    requires Lawful(RECORD) && Writes(STRING, TextBytes) && Writes(OPT_STR, OptText) && Writes(OPT_U32, OptU32)
    ensures Written(RECORD, r) == RecordBytes(r)
  {
    var c5 := Then(OPT_STR, OPT_STR);
    var c4 := Then(OPT_STR, c5);
    var c3 := Then(OPT_U32, c4);
    var c2 := Then(OPT_STR, c3);
    var c1 := Then(STRING, c2);
    var v5 := And(r.title, r.msg);
    var v4 := And(r.app, v5);
    var v3 := And(r.progress, v4);
    var v2 := And(r.kind, v3);
    var v1 := And(r.state, v2);
    ThenWritten(OPT_STR, OptText, r.title, OPT_STR, r.msg, OptText(r.msg));
    ThenWritten(OPT_STR, OptText, r.app, c5, v5, Written(c5, v5));
    ThenWritten(OPT_U32, OptU32, r.progress, c4, v4, Written(c4, v4));
    ThenWritten(OPT_STR, OptText, r.kind, c3, v3, Written(c3, v3));
    ThenWritten(STRING, TextBytes, r.state, c2, v2, Written(c2, v2));
    ThenWritten(STRING, TextBytes, r.id, c1, v1, Written(c1, v1));
    AsWritten(Then(STRING, c1), MakeRecord, RecordParts, r);
    FlatSeven(TextBytes(r.id), TextBytes(r.state), OptText(r.kind), OptU32(r.progress), OptText(r.app),
              OptText(r.title), OptText(r.msg));
  }

  lemma {:induction false} RecordsWrite()
    ensures Writes(RECORD, RecordBytes) && Writes(RECORDS, RecordList)
  {
    TextWrites();
    PartsWrite();
    RecordLawful();
    forall r ensures Written(RECORD, r) == RecordBytes(r) { RecordWritten(r); }
    VectorWrites(RECORD, RecordBytes, RecordList);
  }

  lemma {:induction false} IdentityWritten(id: u32, cols: u16, rows: u16, cwd: Option<Str>, title: Option<Str>)
    ensures Lawful(IDENTITY)
    ensures Written(IDENTITY, And(id, And(cols, And(rows, And(cwd, title)))))
            == Flat([U32Bytes(id), U16Bytes(cols), U16Bytes(rows), OptText(cwd), OptText(title)])
  {
    BaseWrites();
    PartsWrite();
    var c3 := Then(OPT_STR, OPT_STR);
    var c2 := Then(U16, c3);
    var c1 := Then(U16, c2);
    var v3 := And(cwd, title);
    var v2 := And(rows, v3);
    var v1 := And(cols, v2);
    ThenWritten(OPT_STR, OptText, cwd, OPT_STR, title, OptText(title));
    ThenWritten(U16, U16Bytes, rows, c3, v3, Written(c3, v3));
    ThenWritten(U16, U16Bytes, cols, c2, v2, Written(c2, v2));
    ThenWritten(U32, U32Bytes, id, c1, v1, Written(c1, v1));
    FlatFive(U32Bytes(id), U16Bytes(cols), U16Bytes(rows), OptText(cwd), OptText(title));
  }

  lemma {:induction false} AgentWritten(state: Option<AgentState>, name: Option<Str>, revision: u64)
    ensures Lawful(AGENT)
    ensures Written(AGENT, And(state, And(name, revision)))
            == Flat([OptState(state), OptText(name), U64Bytes(revision)])
  {
    BaseWrites();
    PartsWrite();
    var c, v := Then(OPT_STR, U64), And(name, revision);
    ThenWritten(OPT_STR, OptText, name, U64, revision, U64Bytes(revision));
    ThenWritten(OPT_STATE, OptState, state, c, v, Written(c, v));
    FlatThree(OptState(state), OptText(name), U64Bytes(revision));
  }

  lemma {:induction false} ProcessWritten(exited: bool, pid: Option<u32>, fd: Option<i32>, scrollback: Vec<byte>)
    ensures Lawful(PROCESS)
    ensures Written(PROCESS, And(exited, And(pid, And(fd, scrollback))))
            == Flat([FlagBytes(exited), OptU32(pid), OptI32(fd), ByteList(scrollback)])
  {
    BaseWrites();
    PartsWrite();
    var c2, v2 := Then(OPT_I32, BYTES), And(fd, scrollback);
    var c1, v1 := Then(OPT_U32, c2), And(pid, v2);
    ThenWritten(OPT_I32, OptI32, fd, BYTES, scrollback, ByteList(scrollback));
    ThenWritten(OPT_U32, OptU32, pid, c2, v2, Written(c2, v2));
    ThenWritten(BOOL, FlagBytes, exited, c1, v1, Written(c1, v1));
    FlatFour(FlagBytes(exited), OptU32(pid), OptI32(fd), ByteList(scrollback));
  }

  lemma {:induction false} LatchWritten(armed: bool, ended: bool, generation: u64)
    ensures Lawful(LATCH)
    ensures Written(LATCH, And(armed, And(ended, generation)))
            == Flat([FlagBytes(armed), FlagBytes(ended), U64Bytes(generation)])
  {
    BaseWrites();
    var c, v := Then(BOOL, U64), And(ended, generation);
    ThenWritten(BOOL, FlagBytes, ended, U64, generation, U64Bytes(generation));
    ThenWritten(BOOL, FlagBytes, armed, c, v, Written(c, v));
    FlatThree(FlagBytes(armed), FlagBytes(ended), U64Bytes(generation));
  }

  lemma {:induction false} ScreenWritten(alt: bool, dump: Vec<byte>)
    ensures Lawful(ALT_SCREEN)
    ensures Written(ALT_SCREEN, And(alt, dump)) == Flat([FlagBytes(alt), ByteList(dump)])
  {
    BaseWrites();
    PartsWrite();
    ThenWritten(BOOL, FlagBytes, alt, BYTES, dump, ByteList(dump));
    FlatTwo(FlagBytes(alt), ByteList(dump));
  }

  lemma {:induction false} ThenIs<A(!new), B(!new)>(a: Codec<A>, x: A, b: Codec<B>, y: B)
    requires Lawful(a) && Lawful(b)
    ensures Lawful(Then(a, b)) && Written(Then(a, b), And(x, y)) == Written(a, x) + Written(b, y)
  {
    ThenLawful(a, b);
  }

  lemma {:induction false} PaneV1Written(p: PaneV1)
    ensures Lawful(PANE_V1) && Written(PANE_V1, p) == PaneV1Bytes(p)
  {
    PaneV1Lawful();
    var t := PaneV1Parts(p);
    IdentityWritten(p.id, p.cols, p.rows, p.cwd, p.title);
    AgentWritten(p.agentState, p.agentName, p.agentRevision);
    ProcessWritten(p.exited, p.childPid, p.masterFd, p.scrollback);
    ThenIs(AGENT, t.rest.first, PROCESS, t.rest.rest);
    ThenIs(IDENTITY, t.first, Then(AGENT, PROCESS), t.rest);
    AsWritten(Then(IDENTITY, Then(AGENT, PROCESS)), MakePaneV1, PaneV1Parts, p);
    AppendAssoc(Written(IDENTITY, t.first), Written(AGENT, t.rest.first), Written(PROCESS, t.rest.rest));
  }

  lemma {:induction false} PaneV2Written(p: PaneV2)
    ensures Lawful(PANE_V2) && Written(PANE_V2, p) == PaneV2Bytes(p)
  {
    PaneV2Lawful();
    var t := PaneV2Parts(p);
    PaneV1Written(t.first);
    LatchWritten(p.latchArmed, p.latchCommandEnded, p.latchGeneration);
    ThenIs(PANE_V1, t.first, LATCH, t.rest);
    AsWritten(Then(PANE_V1, LATCH), MakePaneV2, PaneV2Parts, p);
  }

  lemma {:induction false} PaneV3Written(p: PaneV3)
    ensures Lawful(PANE_V3) && Written(PANE_V3, p) == PaneV3Bytes(p)
  {
    PaneV3Lawful();
    var t := PaneV3Parts(p);
    PaneV2Written(t.first);
    ScreenWritten(p.altScreen, p.altScreenDump);
    ThenIs(PANE_V2, t.first, ALT_SCREEN, t.rest);
    AsWritten(Then(PANE_V2, ALT_SCREEN), MakePaneV3, PaneV3Parts, p);
  }

  lemma {:induction false} PaneWritten(p: Pane)
    ensures Lawful(PANE) && Written(PANE, p) == PaneBytes(p)
  {
    PaneLawful();
    RecordsWrite();
    var t := PaneParts(p);
    PaneV3Written(t.first);
    ThenIs(PANE_V3, t.first, RECORDS, t.rest);
    AsWritten(Then(PANE_V3, RECORDS), MakePane, PaneParts, p);
    assert Written(RECORDS, t.rest) == RecordList(t.rest);
  }

  // ----- documents -----

  lemma {:induction false} WindowWritten<P(!new)>(pane: Codec<P>, f: P -> Bytes, w: Window<P>)
    requires Writes(pane, f)
    ensures Lawful(WindowOf(pane)) && Written(WindowOf(pane), w) == WindowBytes(w, f)
  {
    BaseWrites();
    TextWrites();
    PartsWrite();
    WindowLawful(pane);
    var list := (s: Vec<P>) => ListBytes(s, f);
    VectorWrites(pane, f, list);
    var c4 := VectorOf(pane);
    var c3 := Then(U32, c4);
    var c2 := Then(OPT_U32, c3);
    var c1 := Then(STRING, c2);
    var v3 := And(w.nextPaneId, w.panes);
    var v2 := And(w.activePaneId, v3);
    var v1 := And(w.name, v2);
    ThenWritten(U32, U32Bytes, w.nextPaneId, c4, w.panes, list(w.panes));
    ThenWritten(OPT_U32, OptU32, w.activePaneId, c3, v3, Written(c3, v3));
    ThenWritten(STRING, TextBytes, w.name, c2, v2, Written(c2, v2));
    ThenWritten(U32, U32Bytes, w.id, c1, v1, Written(c1, v1));
    AsWritten(Then(U32, c1), MakeWindow<P>, WindowParts<P>, w);
    FlatFive(U32Bytes(w.id), TextBytes(w.name), OptU32(w.activePaneId), U32Bytes(w.nextPaneId), list(w.panes));
  }

  lemma {:induction false} SessionWritten<P(!new)>(pane: Codec<P>, f: P -> Bytes, s: Session<P>)
    requires Writes(pane, f)
    ensures Lawful(SessionOf(pane)) && Written(SessionOf(pane), s) == SessionBytes(s, f)
  {
    BaseWrites();
    TextWrites();
    PartsWrite();
    SessionLawful(pane);
    var windows := WindowsWrite(pane, f);
    var c5 := VectorOf(WindowOf(pane));
    var c4 := Then(U32, c5);
    var c3 := Then(OPT_U32, c4);
    var c2 := Then(U32S, c3);
    var c1 := Then(STRING, c2);
    var v4 := And(s.nextWindowId, s.windows);
    var v3 := And(s.activeWindowId, v4);
    var v2 := And(s.windowOrder, v3);
    var v1 := And(s.name, v2);
    ThenWritten(U32, U32Bytes, s.nextWindowId, c5, s.windows, windows(s.windows));
    ThenWritten(OPT_U32, OptU32, s.activeWindowId, c4, v4, Written(c4, v4));
    ThenWritten(U32S, U32List, s.windowOrder, c3, v3, Written(c3, v3));
    ThenWritten(STRING, TextBytes, s.name, c2, v2, Written(c2, v2));
    ThenWritten(U32, U32Bytes, s.id, c1, v1, Written(c1, v1));
    AsWritten(Then(U32, c1), MakeSession<P>, SessionParts<P>, s);
    FlatSix(U32Bytes(s.id), TextBytes(s.name), U32List(s.windowOrder), OptU32(s.activeWindowId),
            U32Bytes(s.nextWindowId), windows(s.windows));
  }

  lemma {:induction false} WindowsWrite<P(!new)>(pane: Codec<P>, f: P -> Bytes) returns (g: Vec<Window<P>> -> Bytes)
    requires Writes(pane, f)
    ensures Writes(VectorOf(WindowOf(pane)), g)
    ensures forall s: Vec<Window<P>> :: g(s) == ListBytes(s, (w: Window<P>) => WindowBytes(w, f))
  {
    var one := (w: Window<P>) => WindowBytes(w, f);
    g := (s: Vec<Window<P>>) => ListBytes(s, one);
    WindowLawful(pane);
    forall w: Window<P>
      ensures Written(WindowOf(pane), w) == one(w)
    {
      WindowWritten(pane, f, w);
    }
    VectorWrites(WindowOf(pane), one, g);
  }

  lemma {:induction false} SessionsWrite<P(!new)>(pane: Codec<P>, f: P -> Bytes) returns (g: Vec<Session<P>> -> Bytes)
    requires Writes(pane, f)
    ensures Writes(VectorOf(SessionOf(pane)), g)
    ensures forall s: Vec<Session<P>> :: g(s) == ListBytes(s, (t: Session<P>) => SessionBytes(t, f))
  {
    var one := (t: Session<P>) => SessionBytes(t, f);
    g := (s: Vec<Session<P>>) => ListBytes(s, one);
    SessionLawful(pane);
    forall t: Session<P>
      ensures Written(SessionOf(pane), t) == one(t)
    {
      SessionWritten(pane, f, t);
    }
    VectorWrites(SessionOf(pane), one, g);
  }

  /** A document layout with a pane layout that writes `f` writes the document's bytes. */
  lemma {:induction false} DocumentWritten<P(!new)>(pane: Codec<P>, f: P -> Bytes, d: Document<P>)
    requires Writes(pane, f)
    ensures Lawful(DocumentOf(pane)) && EncodeAs(DocumentOf(pane), d) == DocumentBytes(d, f)
  {
    BaseWrites();
    SignedWrites();
    TextWrites();
    DocumentLawful(pane);
    var sessions := SessionsWrite(pane, f);
    var c5 := VectorOf(SessionOf(pane));
    var c4 := Then(U32, c5);
    var c3 := Then(U32, c4);
    var c2 := Then(I32, c3);
    var c1 := Then(STRING, c2);
    var v4 := And(d.nextPaneId, d.sessions);
    var v3 := And(d.nextSessionId, v4);
    var v2 := And(d.listenFd, v3);
    var v1 := And(d.incarnation, v2);
    ThenWritten(U32, U32Bytes, d.nextPaneId, c5, d.sessions, sessions(d.sessions));
    ThenWritten(U32, U32Bytes, d.nextSessionId, c4, v4, Written(c4, v4));
    ThenWritten(I32, I32Bytes, d.listenFd, c3, v3, Written(c3, v3));
    ThenWritten(STRING, TextBytes, d.incarnation, c2, v2, Written(c2, v2));
    ThenWritten(U32, U32Bytes, d.schemaVersion, c1, v1, Written(c1, v1));
    AsWritten(Then(U32, c1), MakeDocument<P>, DocumentParts<P>, d);
    FlatSix(U32Bytes(d.schemaVersion), TextBytes(d.incarnation), I32Bytes(d.listenFd), U32Bytes(d.nextSessionId),
            U32Bytes(d.nextPaneId), sessions(d.sessions));
  }

  // ----- this build -----

  lemma {:induction false} PanesWrite()
    ensures Writes(PANE_V1, PaneV1Bytes) && Writes(PANE_V2, PaneV2Bytes)
    ensures Writes(PANE_V3, PaneV3Bytes) && Writes(PANE, PaneBytes)
  {
    PanesLawful();
    forall p ensures Written(PANE_V1, p) == PaneV1Bytes(p) { PaneV1Written(p); }
    forall p ensures Written(PANE_V2, p) == PaneV2Bytes(p) { PaneV2Written(p); }
    forall p ensures Written(PANE_V3, p) == PaneV3Bytes(p) { PaneV3Written(p); }
    forall p ensures Written(PANE, p) == PaneBytes(p) { PaneWritten(p); }
  }

  /** What this build writes, byte for byte. */
  lemma {:induction false} EncodedBytes(d: Document<Pane>)
    ensures Lawful(THIS_BUILD.v4) && EncodeDocument(THIS_BUILD, d) == DocumentBytes(d, PaneBytes)
  {
    PanesWrite();
    DocumentWritten(PANE, PaneBytes, d);
  }

  /** `b` is, byte for byte, a document of the version, and `d` is what it is upgraded to. */
  ghost predicate IsVersion<P(!new)>(version: int, f: P -> Bytes, upgrade: Document<P> -> Document<Pane>,
                                     b: Bytes, d: Document<Pane>)
  {
    exists e: Document<P> :: e.schemaVersion == version && b == DocumentBytes(e, f) && d == upgrade(e)
  }

  ghost predicate IsDocument(b: Bytes, d: Document<Pane>) {
    || IsVersion(1, PaneV1Bytes, FromV1, b, d)
    || IsVersion(2, PaneV2Bytes, FromV2, b, d)
    || IsVersion(3, PaneV3Bytes, FromV3, b, d)
    || (d.schemaVersion == 4 && b == DocumentBytes(d, PaneBytes))
  }

  lemma {:induction false} EncodesIs<P(!new)>(pane: Codec<P>, f: P -> Bytes, version: int, b: Bytes, e: Document<P>)
    requires Writes(pane, f)
    ensures EncodesAs(DocumentOf(pane), version, b, e) <==> e.schemaVersion == version && b == DocumentBytes(e, f)
  {
    DocumentVersioned(pane);
    DocumentWritten(pane, f, e);
  }

  lemma {:induction false} EncodesVersion<P(!new)>(pane: Codec<P>, version: int, f: P -> Bytes,
                                                   upgrade: Document<P> -> Document<Pane>, b: Bytes, d: Document<Pane>)
    requires Writes(pane, f)
    ensures (exists e :: EncodesAs(DocumentOf(pane), version, b, e) && d == upgrade(e))
            <==> IsVersion(version, f, upgrade, b, d)
  {
    forall e
      ensures EncodesAs(DocumentOf(pane), version, b, e) <==> e.schemaVersion == version && b == DocumentBytes(e, f)
    {
      EncodesIs(pane, f, version, b, e);
    }
  }

  lemma {:induction false} EncodesDocument(b: Bytes, d: Document<Pane>)
    ensures Encodes(THIS_BUILD, b, d) <==> IsDocument(b, d)
  {
    PanesWrite();
    EncodesVersion(PANE_V1, 1, PaneV1Bytes, FromV1, b, d);
    EncodesVersion(PANE_V2, 2, PaneV2Bytes, FromV2, b, d);
    EncodesVersion(PANE_V3, 3, PaneV3Bytes, FromV3, b, d);
    EncodesIs(PANE, PaneBytes, 4, b, d);
  }

  /** The decoder accepts exactly the bytes that start with those of a document of version 1 to 4,
      as they are written out above, and yields its upgrade. */
  lemma {:induction false} DecodesExactlyTheseBytes(b: Bytes, d: Document<Pane>)
    ensures DecodeDocument(THIS_BUILD, b) == Ok(d) <==> exists n: nat :: n <= |b| && IsDocument(b[..n], d)
  {
    ThisBuildIsLawful();
    DecodesExactly(THIS_BUILD, b, d);
    forall n: nat | n <= |b|
      ensures Encodes(THIS_BUILD, b[..n], d) <==> IsDocument(b[..n], d)
    {
      EncodesDocument(b[..n], d);
    }
  }
}
