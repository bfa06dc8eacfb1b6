/** The merged agent-status store of src-tauri/src/agent_status_model.rs: its state and the effect of
    every call on it. */
module AgentStatusStore {
  import opened Integers
  import opened Wrappers
  import opened AgentStatus
  import opened ExitLatch

  datatype PaneKey = Tab(id: u64) | MuxPane(scope: u64, pane: u32)

  /** A pane's OSC 7501 part. */
  datatype Summary = Summary(state: AgentState, title: Option<string>, app: Option<string>)

  /** What an entry is computed from: the OSC 777 state and name and the OSC 7501 summary. */
  datatype Parts = Parts(state: Option<AgentState>, name: Option<string>, summary: Option<Summary>)

  datatype Status = Status(state: Option<AgentState>, name: Option<string>, revision: nat, unseen: bool, parts: Parts)

  datatype Transition = Transition(pane: PaneKey, oldState: Option<AgentState>, newState: Option<AgentState>,
                                   name: Option<string>)

  datatype Store = Store(entries: map<PaneKey, Status>, transitions: seq<Transition>, latches: map<u64, State>)

  const Empty := Store(map[], [], map[])

  // ----- the composite -----

  function Composite(parts: Parts): Option<AgentState> {
    Compose(parts.state, if parts.summary.Some? then Some(parts.summary.value.state) else None)
  }

  function CompositeName(parts: Parts): Option<string> {
    if Composite(parts).None? then None
    else if parts.summary.None? then parts.name
    else
      var s := parts.summary.value;
      if parts.state.None? || ComposeRank(s.state) >= ComposeRank(parts.state.value) then
        if s.title.Some? then s.title else if s.app.Some? then s.app else parts.name
      else parts.name
  }

  // ----- one report -----

  /** The composite state a pane shows; none when it is not tracked. */
  function StateOf(s: Store, k: PaneKey): Option<AgentState> {
    if k in s.entries then s.entries[k].state else None
  }

  /** A report: the pane's complete new parts. */
  datatype Report = Report(pane: PaneKey, parts: Parts, revision: nat, replayDerived: bool)

  predicate Changes(s: Store, r: Report) {
    r.pane !in s.entries || s.entries[r.pane].state != Composite(r.parts)
  }

  function EntryAfter(s: Store, r: Report): Status {
    Status(Composite(r.parts), CompositeName(r.parts), r.revision,
           Changes(s, r) || (r.pane in s.entries && s.entries[r.pane].unseen), r.parts)
  }

  function Emitted(s: Store, r: Report): seq<Transition> {
    if Changes(s, r) && !r.replayDerived then
      [Transition(r.pane, StateOf(s, r.pane), Composite(r.parts), CompositeName(r.parts))]
    else []
  }

  function Applied(s: Store, r: Report): Store {
    s.(entries := s.entries[r.pane := EntryAfter(s, r)], transitions := s.transitions + Emitted(s, r))
  }

  // ----- the calls -----

  datatype Call =
    | PlainTabEvent(tab: u64, event: Event)
    | PlainTabSummary(tab: u64, summary: Option<Summary>)
    | DaemonUpdate(scope: u64, pane: u32, parts: Parts, revision: nat, replayDerived: bool)
    | Discard(key: PaneKey)
    | LatchSet(tab: u64)
    | LatchClear(tab: u64)
    | LivePromptMark(tab: u64, kind: PromptMarkKind)
    | MarkSeen(keys: seq<PaneKey>)
    | DrainTransitions

  function Minted(s: Store, k: PaneKey): nat {
    if k in s.entries then s.entries[k].revision + 1 else 1
  }

  function PartsOf(s: Store, k: PaneKey): Parts {
    if k in s.entries then s.entries[k].parts else Parts(None, None, None)
  }

  function EventReport(s: Store, tab: u64, event: Event): Report {
    var k := Tab(tab);
    var summary := PartsOf(s, k).summary;
    var parts :=
      match event
      case Set(state, name) => Parts(Some(state), name, summary)
      case Clear => Parts(None, None, summary);
    Report(k, parts, Minted(s, k), false)
  }

  function LatchOf(s: Store, tab: u64): State {
    if tab in s.latches then s.latches[tab] else Fresh
  }

  /** The latch input a call is, if any, and the tab it goes to. */
  function LatchInput(c: Call): Option<(u64, Input)> {
    match c
    case LatchSet(tab) => Some((tab, Input.Set))
    case LatchClear(tab) => Some((tab, Input.Clear))
    case LivePromptMark(tab, kind) => Some((tab, Mark(kind)))
    case _ => None
  }

  /** The report a call makes, if any. */
  function ReportOf(s: Store, c: Call): Option<Report> {
    match c
    case PlainTabEvent(tab, event) => Some(EventReport(s, tab, event))
    case PlainTabSummary(tab, summary) =>
      Some(Report(Tab(tab), PartsOf(s, Tab(tab)).(summary := summary), Minted(s, Tab(tab)), false))
    case DaemonUpdate(scope, pane, parts, revision, replay) =>
      Some(Report(MuxPane(scope, pane), parts, revision, replay))
    case LivePromptMark(tab, kind) =>
      if Fires(LatchOf(s, tab), Mark(kind)) then Some(EventReport(s, tab, Event.Clear)) else None
    case _ => None
  }

  function Seen(entries: map<PaneKey, Status>, keys: seq<PaneKey>): map<PaneKey, Status> {
    map k | k in entries :: if k in keys then entries[k].(unseen := false) else entries[k]
  }

  function Fed(s: Store, c: Call): Store {
    match LatchInput(c)
    case Some((tab, input)) => s.(latches := s.latches[tab := After(LatchOf(s, tab), input)])
    case None => s
  }

  function Step(s: Store, c: Call): Store {
    match c
    case Discard(k) => s.(entries := s.entries - {k}, latches := if k.Tab? then s.latches - {k.id} else s.latches)
    case MarkSeen(keys) => s.(entries := Seen(s.entries, keys))
    case DrainTransitions => s.(transitions := [])
    case _ =>
      match ReportOf(s, c)
      case Some(r) => Applied(Fed(s, c), r)
      case None => Fed(s, c)
  }

  // ----- the aggregate of several panes -----

  function PriorityRank(state: AgentState, unseen: bool): nat {
    match state
    case Blocked => 6
    case Error => if unseen then 5 else 2
    case Done => if unseen then 4 else 1
    case Working => 3
    case Idle => 0
  }

  datatype Aggregated = Aggregated(state: AgentState, unseen: bool)

  /** The key order of the maximum: by rank, then seen before unseen. */
  predicate AtMost(a: Aggregated, b: Aggregated) {
    var ra, rb := PriorityRank(a.state, a.unseen), PriorityRank(b.state, b.unseen);
    ra < rb || (ra == rb && (a.unseen ==> b.unseen))
  }

  function Contribution(s: Store, k: PaneKey): Option<Aggregated> {
    if StateOf(s, k).Some? then Some(Aggregated(s.entries[k].state.value, s.entries[k].unseen)) else None
  }

  /** The last of the greatest contributions. */
  function Aggregate(s: Store, keys: seq<PaneKey>): Option<Aggregated> {
    if keys == [] then None
    else
      var best, last := Aggregate(s, keys[..|keys| - 1]), Contribution(s, keys[|keys| - 1]);
      if last.None? || (best.Some? && !AtMost(best.value, last.value)) then best else last
  }

  /** The aggregate is a contribution that no other exceeds, and it is missing only when nothing is
      contributed. */
  lemma {:induction false} AggregateIsGreatest(s: Store, keys: seq<PaneKey>)
    ensures var r := Aggregate(s, keys);
      && (forall k :: k in keys && Contribution(s, k).Some? ==> r.Some? && AtMost(Contribution(s, k).value, r.value))
      && (r.Some? ==> exists k :: k in keys && Contribution(s, k) == r)
  {
    if keys != [] {
      var init, last := keys[..|keys| - 1], keys[|keys| - 1];
      AggregateIsGreatest(s, init);
      assert forall k :: k in keys <==> k in init || k == last;
    }
  }

  lemma {:induction false} RankDecides(a: Aggregated, b: Aggregated)
    requires AtMost(a, b) && AtMost(b, a)
    ensures a == b
  {
  }

  /** The aggregate depends only on which panes are asked about, not on their order or repetition. */
  lemma {:induction false} AggregateIgnoresOrder(s: Store, a: seq<PaneKey>, b: seq<PaneKey>)
    requires forall k :: k in a <==> k in b
    ensures Aggregate(s, a) == Aggregate(s, b)
  {
    AggregateIsGreatest(s, a);
    AggregateIsGreatest(s, b);
    var ra, rb := Aggregate(s, a), Aggregate(s, b);
    if ra.Some? && rb.Some? {
      RankDecides(ra.value, rb.value);
    }
  }
}
