/** The hot-upgrade document of crates/mux_ipc/src/handoff.rs: the tree in its four schema versions and
    the upgrade chain. The window, session and document levels are the same in every version but for
    the panes they hold, so they are generic in the pane. */
module Handoff {
  import opened Integers
  import opened Wrappers
  import opened Codecs
  import Utf8

  type byte = Utf8.byte

  const SCHEMA_VERSION := 4

  datatype AgentState = Idle | Working | Blocked | Done | Error

  /** One OSC 7501 record as plain values. */
  datatype ProgramRecord = ProgramRecord(
    id: Str, state: Str, kind: Option<Str>, progress: Option<u32>, app: Option<Str>, title: Option<Str>,
    msg: Option<Str>)

  /** Panes before the inferred-clear latch was carried. */
  datatype PaneV1 = PaneV1(
    id: u32, cols: u16, rows: u16, cwd: Option<Str>, title: Option<Str>, agentState: Option<AgentState>,
    agentName: Option<Str>, agentRevision: u64, exited: bool, childPid: Option<u32>, masterFd: Option<i32>,
    scrollback: Vec<byte>)

  /** Panes before the alternate screen was carried. */
  datatype PaneV2 = PaneV2(
    id: u32, cols: u16, rows: u16, cwd: Option<Str>, title: Option<Str>, agentState: Option<AgentState>,
    agentName: Option<Str>, agentRevision: u64, exited: bool, childPid: Option<u32>, masterFd: Option<i32>,
    scrollback: Vec<byte>, latchArmed: bool, latchCommandEnded: bool, latchGeneration: u64)

  /** Panes before OSC 7501 records were carried. */
  datatype PaneV3 = PaneV3(
    id: u32, cols: u16, rows: u16, cwd: Option<Str>, title: Option<Str>, agentState: Option<AgentState>,
    agentName: Option<Str>, agentRevision: u64, exited: bool, childPid: Option<u32>, masterFd: Option<i32>,
    scrollback: Vec<byte>, latchArmed: bool, latchCommandEnded: bool, latchGeneration: u64, altScreen: bool,
    altScreenDump: Vec<byte>)

  /** The current pane. */
  datatype Pane = Pane(
    id: u32, cols: u16, rows: u16, cwd: Option<Str>, title: Option<Str>, agentState: Option<AgentState>,
    agentName: Option<Str>, agentRevision: u64, exited: bool, childPid: Option<u32>, masterFd: Option<i32>,
    scrollback: Vec<byte>, latchArmed: bool, latchCommandEnded: bool, latchGeneration: u64, altScreen: bool,
    altScreenDump: Vec<byte>, programRecords: Vec<ProgramRecord>)

  datatype Window<P> = Window(id: u32, name: Str, activePaneId: Option<u32>, nextPaneId: u32, panes: Vec<P>)

  datatype Session<P> = Session(
    id: u32, name: Str, windowOrder: Vec<u32>, activeWindowId: Option<u32>, nextWindowId: u32, windows: Vec<Window<P>>)

  datatype Document<P> = Document(
    schemaVersion: u32, incarnation: Str, listenFd: i32, nextSessionId: u32, nextPaneId: u32, sessions: Vec<Session<P>>)

  // ----- the upgrade chain -----

  /** A version-1 pane has a disarmed latch. */
  function UpgradePane1(p: PaneV1): PaneV2 {
    PaneV2(
      p.id, p.cols, p.rows, p.cwd, p.title, p.agentState, p.agentName, p.agentRevision, p.exited, p.childPid,
      p.masterFd, p.scrollback, false, false, 0)
  }

  /** A version-2 pane is on the main screen with no dump. */
  function UpgradePane2(p: PaneV2): PaneV3 {
    PaneV3(
      p.id, p.cols, p.rows, p.cwd, p.title, p.agentState, p.agentName, p.agentRevision, p.exited, p.childPid,
      p.masterFd, p.scrollback, p.latchArmed, p.latchCommandEnded, p.latchGeneration, false, [])
  }

  /** A version-3 pane carries no records. */
  function UpgradePane3(p: PaneV3): Pane {
    Pane(
      p.id, p.cols, p.rows, p.cwd, p.title, p.agentState, p.agentName, p.agentRevision, p.exited, p.childPid,
      p.masterFd, p.scrollback, p.latchArmed, p.latchCommandEnded, p.latchGeneration, p.altScreen,
      p.altScreenDump, [])
  }

  function UpgradeWindow<P, Q>(f: P -> Q, w: Window<P>): Window<Q> {
    Window(w.id, w.name, w.activePaneId, w.nextPaneId, Map(f, w.panes))
  }

  function UpgradeSession<P, Q>(f: P -> Q, s: Session<P>): Session<Q> {
    Session(s.id, s.name, s.windowOrder, s.activeWindowId, s.nextWindowId, Map(w => UpgradeWindow(f, w), s.windows))
  }

  function UpgradeDocument<P, Q>(f: P -> Q, version: u32, d: Document<P>): Document<Q> {
    Document(version, d.incarnation, d.listenFd, d.nextSessionId, d.nextPaneId,
             Map(s => UpgradeSession(f, s), d.sessions))
  }

  function FromV3(d: Document<PaneV3>): Document<Pane> {
    UpgradeDocument(UpgradePane3, SCHEMA_VERSION, d)
  }

  function FromV2(d: Document<PaneV2>): Document<Pane> {
    FromV3(UpgradeDocument(UpgradePane2, 3, d))
  }

  function FromV1(d: Document<PaneV1>): Document<Pane> {
    FromV2(UpgradeDocument(UpgradePane1, 2, d))
  }
}
