/** What every run of the agent-status store keeps. */
module AgentStatusRuns {
  import opened Integers
  import opened Wrappers
  import opened AgentStatus
  import opened AgentStatusStore
  import ExitLatch

  function Run(s: Store, calls: seq<Call>): Store {
    if calls == [] then s else Step(Run(s, calls[..|calls| - 1]), calls[|calls| - 1])
  }

  // ----- every entry is the composite of its parts -----

  ghost predicate Consistent(s: Store) {
    forall k :: k in s.entries ==>
      s.entries[k].state == Composite(s.entries[k].parts) && s.entries[k].name == CompositeName(s.entries[k].parts)
  }

  lemma {:induction false} RunsStayConsistent(s: Store, calls: seq<Call>)
    requires Consistent(s)
    ensures Consistent(Run(s, calls))
  {
    if calls != [] {
      RunsStayConsistent(s, calls[..|calls| - 1]);
      StepStaysConsistent(Run(s, calls[..|calls| - 1]), calls[|calls| - 1]);
    }
  }

  lemma {:induction false} StepStaysConsistent(s: Store, c: Call)
    requires Consistent(s)
    ensures Consistent(Step(s, c))
  {
    match ReportOf(s, c)
    case Some(r) => assert Step(s, c).entries == s.entries[r.pane := EntryAfter(s, r)];
    case None =>
  }

  // ----- other keys -----

  /** The panes a call names. */
  predicate Names(c: Call, k: PaneKey) {
    match c
    case PlainTabEvent(tab, _) => k == Tab(tab)
    case PlainTabSummary(tab, _) => k == Tab(tab)
    case DaemonUpdate(scope, pane, _, _, _) => k == MuxPane(scope, pane)
    case Discard(key) => k == key
    case LivePromptMark(tab, _) => k == Tab(tab)
    case MarkSeen(keys) => k in keys
    case _ => false
  }

  lemma {:induction false} StepLeavesOthers(s: Store, c: Call, k: PaneKey)
    requires !Names(c, k)
    ensures Lookup(Step(s, c).entries, k) == Lookup(s.entries, k)
  {
  }

  lemma {:induction false} OthersUntouched(s: Store, calls: seq<Call>, k: PaneKey)
    requires forall c :: c in calls ==> !Names(c, k)
    ensures Lookup(Run(s, calls).entries, k) == Lookup(s.entries, k)
  {
    if calls != [] {
      OthersUntouched(s, calls[..|calls| - 1], k);
      StepLeavesOthers(Run(s, calls[..|calls| - 1]), calls[|calls| - 1], k);
    }
  }

  // ----- the transition log -----

  function Emits(s: Store, c: Call): seq<Transition> {
    match ReportOf(s, c) case Some(r) => Emitted(s, r) case None => []
  }

  /** Every transition a run ever queues, drained or not. */
  function Log(s: Store, calls: seq<Call>): seq<Transition> {
    if calls == [] then []
    else
      var init := calls[..|calls| - 1];
      Log(s, init) + Emits(Run(s, init), calls[|calls| - 1])
  }

  function Drained(s: Store, calls: seq<Call>): seq<Transition> {
    if calls == [] then []
    else
      var init := calls[..|calls| - 1];
      Drained(s, init) + if calls[|calls| - 1].DrainTransitions? then Run(s, init).transitions else []
  }

  lemma {:induction false} StepQueues(s: Store, c: Call)
    ensures Step(s, c).transitions == if c.DrainTransitions? then [] else s.transitions + Emits(s, c)
    ensures c.DrainTransitions? ==> Emits(s, c) == []
  {
  }

  /** Appending to the log and to the queue, or moving the queue to what was drained. */
  lemma {:induction false} Balance<T>(start: seq<T>, log: seq<T>, drained: seq<T>, queue: seq<T>, more: seq<T>)
    requires start + log == drained + queue
    ensures start + (log + more) == drained + (queue + more)
    ensures start + (log + []) == drained + queue + []
  {
    assert start + (log + more) == start + log + more;
    assert log + [] == log;
  }

  /** Drains deliver every transition once, in order. */
  lemma {:induction false} NothingLost(s: Store, calls: seq<Call>)
    ensures s.transitions + Log(s, calls) == Drained(s, calls) + Run(s, calls).transitions
  {
    if calls != [] {
      var init, last := calls[..|calls| - 1], calls[|calls| - 1];
      NothingLost(s, init);
      StepQueues(Run(s, init), last);
      Balance(s.transitions, Log(s, init), Drained(s, init), Run(s, init).transitions, Emits(Run(s, init), last));
      assert Drained(s, init) + [] == Drained(s, init);
    }
  }

  function OfPane(k: PaneKey, log: seq<Transition>): seq<Transition> {
    if log == [] then []
    else
      var last := log[|log| - 1];
      OfPane(k, log[..|log| - 1]) + if last.pane == k then [last] else []
  }

  /** Each transition starts where the one before ended. */
  predicate Chain(from: Option<AgentState>, ts: seq<Transition>, to: Option<AgentState>) {
    if ts == [] then from == to
    else ts[|ts| - 1].newState == to && Chain(from, ts[..|ts| - 1], ts[|ts| - 1].oldState)
  }

  /** A call that changes what `k` shows without queueing a transition. */
  predicate Silent(s: Store, c: Call, k: PaneKey) {
    || (c == Discard(k) && StateOf(s, k) != None)
    || (c.DaemonUpdate? && c.replayDerived && k == MuxPane(c.scope, c.pane) && StateOf(s, k) != Composite(c.parts))
  }

  lemma {:induction false} OneLink(from: Option<AgentState>, ts: seq<Transition>, to: Option<AgentState>)
    requires |ts| <= 1
    ensures Chain(from, ts, to) <==> if ts == [] then from == to else ts[0].oldState == from && ts[0].newState == to
  {
    if ts != [] {
      assert ts[..0] == [];
    }
  }

  lemma {:induction false} ReportLinks(s: Store, r: Report, k: PaneKey)
    ensures Chain(StateOf(s, k), OfPane(k, Emitted(s, r)), if r.pane == k then Composite(r.parts) else StateOf(s, k))
            <==> !(r.replayDerived && r.pane == k && StateOf(s, k) != Composite(r.parts))
  {
    OfPaneOne(k, Emitted(s, r));
    OneLink(StateOf(s, k), OfPane(k, Emitted(s, r)), if r.pane == k then Composite(r.parts) else StateOf(s, k));
  }

  lemma {:induction false} SilentCalls(s: Store, c: Call, k: PaneKey)
    ensures var r := ReportOf(s, c);
      Silent(s, c, k) <==>
        if r.Some? then r.value.replayDerived && r.value.pane == k && StateOf(s, k) != Composite(r.value.parts)
        else c == Discard(k) && StateOf(s, k) != None
  {
  }

  /** One call continues a pane's chain unless it is silent for that pane. */
  lemma {:induction false} LinkExactly(s: Store, c: Call, k: PaneKey)
    ensures Chain(StateOf(s, k), OfPane(k, Emits(s, c)), StateOf(Step(s, c), k)) <==> !Silent(s, c, k)
  {
    StepShows(s, c, k);
    SilentCalls(s, c, k);
    var r := ReportOf(s, c);
    if r.Some? {
      ReportLinks(s, r.value, k);
      assert c != Discard(k);
    } else {
      OneLink(StateOf(s, k), [], StateOf(Step(s, c), k));
    }
  }

  lemma {:induction false} StepShows(s: Store, c: Call, k: PaneKey)
    ensures var r := ReportOf(s, c);
      StateOf(Step(s, c), k) ==
        if r.Some? && r.value.pane == k then Composite(r.value.parts)
        else if c == Discard(k) then None
        else StateOf(s, k)
  {
  }

  lemma {:induction false} OfPaneOne(k: PaneKey, ts: seq<Transition>)
    requires |ts| <= 1
    ensures OfPane(k, ts) == if ts != [] && ts[0].pane == k then ts else []
  {
    if ts != [] {
      assert ts[..0] == [];
    }
  }

  lemma {:induction false} OfPaneAppend(k: PaneKey, a: seq<Transition>, b: seq<Transition>)
    ensures OfPane(k, a + b) == OfPane(k, a) + OfPane(k, b)
    decreases |b|
  {
    if b == [] {
      assert a + b == a;
    } else {
      assert (a + b)[..|a + b| - 1] == a + b[..|b| - 1];
      OfPaneAppend(k, a, b[..|b| - 1]);
    }
  }

  lemma {:induction false} ChainAppend(from: Option<AgentState>, a: seq<Transition>, mid: Option<AgentState>,
                                       b: seq<Transition>, to: Option<AgentState>)
    requires Chain(from, a, mid) && Chain(mid, b, to)
    ensures Chain(from, a + b, to)
    decreases |b|
  {
    if b == [] {
      assert a + b == a;
    } else {
      assert (a + b)[..|a + b| - 1] == a + b[..|b| - 1];
      ChainAppend(from, a, mid, b[..|b| - 1], b[|b| - 1].oldState);
    }
  }

  /** Over a run with no silent call for `k`, its transitions chain from the state it showed at the
      start to the state it shows at the end. Discards and replay-derived updates are the only calls
      that can be silent. */
  lemma {:induction false} TransitionsChain(s: Store, calls: seq<Call>, k: PaneKey)
    requires forall i :: 0 <= i < |calls| ==> !Silent(Run(s, calls[..i]), calls[i], k)
    ensures Chain(StateOf(s, k), OfPane(k, Log(s, calls)), StateOf(Run(s, calls), k))
  {
    if calls != [] {
      var init, last := calls[..|calls| - 1], calls[|calls| - 1];
      assert forall i :: 0 <= i < |init| ==> init[..i] == calls[..i];
      TransitionsChain(s, init, k);
      var t := Run(s, init);
      LinkExactly(t, last, k);
      OfPaneAppend(k, Log(s, init), Emits(t, last));
      ChainAppend(StateOf(s, k), OfPane(k, Log(s, init)), StateOf(t, k), OfPane(k, Emits(t, last)),
                  StateOf(Step(t, last), k));
    }
  }

  lemma {:induction false} EmitsAreReal(s: Store, c: Call, t: Transition)
    requires t in Emits(s, c)
    ensures t.oldState == StateOf(s, t.pane) && t.newState == StateOf(Step(s, c), t.pane)
    ensures t.pane in Step(s, c).entries && t.name == Step(s, c).entries[t.pane].name
    ensures t.oldState == t.newState ==> t.pane !in s.entries && t.newState == None
  {
  }

  /** Every transition of a run was queued by a call before which its pane showed the old state and
      after which it shows the new one, under the name it carries; and it repeats a state only as the
      first report of an untracked pane, when the report shows nothing. */
  lemma {:induction false} TransitionsAreReal(s: Store, calls: seq<Call>, t: Transition) returns (i: nat)
    requires t in Log(s, calls)
    ensures i < |calls| && t in Emits(Run(s, calls[..i]), calls[i])
    ensures t.oldState == StateOf(Run(s, calls[..i]), t.pane)
    ensures var after := Step(Run(s, calls[..i]), calls[i]);
      t.pane in after.entries && t.newState == StateOf(after, t.pane) && t.name == after.entries[t.pane].name
    ensures t.oldState == t.newState ==> t.pane !in Run(s, calls[..i]).entries && t.newState == None
  {
    var init := calls[..|calls| - 1];
    if t in Log(s, init) {
      i := TransitionsAreReal(s, init, t);
      assert init[..i] == calls[..i];
    } else {
      i := |calls| - 1;
      EmitsAreReal(Run(s, init), calls[i], t);
    }
  }

  // ----- revisions and the unseen flag -----

  function RevisionOf(s: Store, k: PaneKey): nat {
    if k in s.entries then s.entries[k].revision else 0
  }

  function ReportsTo(s: Store, calls: seq<Call>, k: PaneKey): nat {
    if calls == [] then 0
    else
      var init := calls[..|calls| - 1];
      var r := ReportOf(Run(s, init), calls[|calls| - 1]);
      ReportsTo(s, init, k) + if r.Some? && r.value.pane == k then 1 else 0
  }

  lemma {:induction false} StepMints(s: Store, c: Call, tab: u64)
    requires c != Discard(Tab(tab))
    ensures var r, k := ReportOf(s, c), Tab(tab);
      RevisionOf(Step(s, c), k) == RevisionOf(s, k) + if r.Some? && r.value.pane == k then 1 else 0
  {
  }

  /** A plain tab's revision counts the reports it accepted, inferred clears among them. */
  lemma {:induction false} RevisionCountsReports(s: Store, calls: seq<Call>, tab: u64)
    requires Discard(Tab(tab)) !in calls
    ensures RevisionOf(Run(s, calls), Tab(tab)) == RevisionOf(s, Tab(tab)) + ReportsTo(s, calls, Tab(tab))
  {
    if calls != [] {
      RevisionCountsReports(s, calls[..|calls| - 1], tab);
      StepMints(Run(s, calls[..|calls| - 1]), calls[|calls| - 1], tab);
    }
  }

  lemma {:induction false} StepFlagsChanges(s: Store, c: Call, k: PaneKey)
    requires k in s.entries && c != Discard(k) && !(c.MarkSeen? && k in c.keys)
    ensures k in Step(s, c).entries
    ensures !Step(s, c).entries[k].unseen ==> !s.entries[k].unseen && StateOf(Step(s, c), k) == StateOf(s, k)
  {
  }

  /** A pane that is still marked seen shows what it showed when the run began. */
  lemma {:induction false} SeenMeansUnchanged(s: Store, calls: seq<Call>, k: PaneKey)
    requires k in s.entries
    requires forall c :: c in calls ==> c != Discard(k) && !(c.MarkSeen? && k in c.keys)
    ensures k in Run(s, calls).entries
    ensures !Run(s, calls).entries[k].unseen ==> !s.entries[k].unseen && StateOf(Run(s, calls), k) == StateOf(s, k)
  {
    if calls != [] {
      var init, last := calls[..|calls| - 1], calls[|calls| - 1];
      assert last in calls && forall c :: c in init ==> c in calls;
      SeenMeansUnchanged(s, init, k);
      StepFlagsChanges(Run(s, init), last, k);
    }
  }

  // ----- the inferred clear -----

  /** The latch inputs of a tab since it was last discarded. */
  function LatchTrace(calls: seq<Call>, tab: u64): seq<ExitLatch.Input> {
    if calls == [] then []
    else
      var before, last := LatchTrace(calls[..|calls| - 1], tab), calls[|calls| - 1];
      if last == Discard(Tab(tab)) then []
      else if LatchInput(last).Some? && LatchInput(last).value.0 == tab then before + [LatchInput(last).value.1]
      else before
  }

  lemma {:induction false} StepLatches(s: Store, c: Call, tab: u64)
    ensures var input := LatchInput(c);
      LatchOf(Step(s, c), tab) ==
        if c == Discard(Tab(tab)) then ExitLatch.Fresh
        else if input.Some? && input.value.0 == tab then ExitLatch.After(LatchOf(s, tab), input.value.1)
        else LatchOf(s, tab)
  {
  }

  lemma {:induction false} LatchFollowsTrace(calls: seq<Call>, tab: u64)
    ensures LatchOf(Run(Empty, calls), tab) == ExitLatch.Run(ExitLatch.Fresh, LatchTrace(calls, tab))
  {
    if calls != [] {
      var init, last := calls[..|calls| - 1], calls[|calls| - 1];
      LatchFollowsTrace(init, tab);
      StepLatches(Run(Empty, init), last, tab);
      var before := LatchTrace(init, tab);
      if LatchInput(last).Some? && LatchInput(last).value.0 == tab {
        assert (before + [LatchInput(last).value.1])[..|before|] == before;
      }
    }
  }

  /** In every reachable store, a live mark clears the tab's OSC 777 part exactly when the tab's latch
      inputs call for it, whatever else the run did. */
  lemma {:induction false} InferredClear(calls: seq<Call>, tab: u64, kind: ExitLatch.PromptMarkKind)
    ensures var s, c, trace := Run(Empty, calls), LivePromptMark(tab, kind), LatchTrace(calls, tab);
      var s' := Step(s, c);
      && (ReportOf(s, c).Some? <==> ExitLatch.ShouldFire(trace + [ExitLatch.Mark(kind)], |trace|))
      && (ReportOf(s, c).Some? ==> Tab(tab) in s'.entries)
      && (ReportOf(s, c).Some? ==> PartsOf(s', Tab(tab)) == PartsOf(s, Tab(tab)).(state := None, name := None))
      && (ReportOf(s, c).None? ==> s'.entries == s.entries)
  {
    var trace := LatchTrace(calls, tab);
    LatchFollowsTrace(calls, tab);
    ExitLatch.FiresExactly(trace + [ExitLatch.Mark(kind)], |trace|);
    assert (trace + [ExitLatch.Mark(kind)])[..|trace|] == trace;
  }
}
