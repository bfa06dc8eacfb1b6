/** What the agent-status store shows of each pane after any run of calls
    (src-tauri/src/agent_status_model.rs), told from the calls alone: which state, under which name, and
    whether it was seen. */
module AgentStatusShown {
  import opened Integers
  import opened Wrappers
  import opened AgentStatus
  import opened AgentStatusStore
  import opened AgentStatusRuns
  import ExitLatch

  // ----- what a pane was told -----

  const Nothing := Parts(None, None, None)

  /** The parts a pane was last told: a tab's OSC 777 state and name by its last event or inferred clear,
      its OSC 7501 summary by its last summary, a daemon pane's parts all at once; nothing once it is
      discarded. */
  ghost function Told(calls: seq<Call>, k: PaneKey): Parts {
    if calls == [] then Nothing
    else
      var init, last := calls[..|calls| - 1], calls[|calls| - 1];
      var before := Told(init, k);
      match last
      case PlainTabEvent(tab, Set(state, name)) =>
        if k == Tab(tab) then before.(state := Some(state), name := name) else before
      case PlainTabEvent(tab, Clear) => if k == Tab(tab) then before.(state := None, name := None) else before
      case PlainTabSummary(tab, summary) => if k == Tab(tab) then before.(summary := summary) else before
      case DaemonUpdate(scope, pane, parts, _, _) => if k == MuxPane(scope, pane) then parts else before
      case Discard(key) => if k == key then Nothing else before
      case LivePromptMark(tab, kind) =>
        if k == Tab(tab) && ClearInferred(init, tab, kind) then before.(state := None, name := None) else before
      case _ => before
  }

  /** The tab's latch inputs so far make this mark an inferred clear. */
  ghost predicate ClearInferred(calls: seq<Call>, tab: u64, kind: ExitLatch.PromptMarkKind) {
    var trace := LatchTrace(calls, tab);
    ExitLatch.ShouldFire(trace + [ExitLatch.Mark(kind)], |trace|)
  }

  lemma {:induction false} MarkTells(calls: seq<Call>, tab: u64, kind: ExitLatch.PromptMarkKind, k: PaneKey)
    ensures var s, t := Run(Empty, calls), Step(Run(Empty, calls), LivePromptMark(tab, kind));
      PartsOf(t, k) == if k == Tab(tab) && ClearInferred(calls, tab, kind)
                       then PartsOf(s, k).(state := None, name := None) else PartsOf(s, k)
  {
    InferredClear(calls, tab, kind);
  }

  lemma {:induction false} CallTells(s: Store, c: Call, k: PaneKey)
    requires !c.LivePromptMark?
    ensures PartsOf(Step(s, c), k) == match c
      case PlainTabEvent(tab, Set(state, name)) =>
        if k == Tab(tab) then PartsOf(s, k).(state := Some(state), name := name) else PartsOf(s, k)
      case PlainTabEvent(tab, Clear) =>
        if k == Tab(tab) then PartsOf(s, k).(state := None, name := None) else PartsOf(s, k)
      case PlainTabSummary(tab, summary) =>
        if k == Tab(tab) then PartsOf(s, k).(summary := summary) else PartsOf(s, k)
      case DaemonUpdate(scope, pane, parts, _, _) => if k == MuxPane(scope, pane) then parts else PartsOf(s, k)
      case Discard(key) => if k == key then Nothing else PartsOf(s, k)
      case _ => PartsOf(s, k)
  {
  }

  lemma {:induction false} PartsAreTold(calls: seq<Call>, k: PaneKey)
    ensures PartsOf(Run(Empty, calls), k) == Told(calls, k)
  {
    if calls != [] {
      var init, last := calls[..|calls| - 1], calls[|calls| - 1];
      PartsAreTold(init, k);
      match last
      case LivePromptMark(tab, kind) => MarkTells(init, tab, kind, k);
      case _ => CallTells(Run(Empty, init), last, k);
    }
  }

  // ----- what is shown of it -----

  function StatesOf(parts: Parts): set<AgentState> {
    Reported(parts.state) + if parts.summary.Some? then {parts.summary.value.state} else {}
  }

  /** The name that goes with the shown state: that of the OSC 7501 part when its state is the one shown,
      its title before its app, and otherwise the one reported with OSC 777. */
  function NameFor(parts: Parts, shown: Option<AgentState>): Option<string> {
    if shown.None? then None
    else if parts.summary.Some? && parts.summary.value.state == shown.value && parts.summary.value.title.Some? then
      parts.summary.value.title
    else if parts.summary.Some? && parts.summary.value.state == shown.value && parts.summary.value.app.Some? then
      parts.summary.value.app
    else parts.name
  }

  lemma {:induction false} CompositeShows(parts: Parts)
    ensures Shows(StatesOf(parts), Composite(parts))
  {
    ComposeShows(parts.state, if parts.summary.Some? then Some(parts.summary.value.state) else None);
  }

  lemma {:induction false} CompositeNamed(parts: Parts)
    ensures CompositeName(parts) == NameFor(parts, Composite(parts))
  {
  }

  /** Over every run a pane shows the first of blocked, working, error, done and idle among the states it
      was last told, nothing when it was told none, and the name that goes with it. */
  lemma {:induction false} ShownExactly(calls: seq<Call>, k: PaneKey)
    ensures var s, told := Run(Empty, calls), Told(calls, k);
      && Shows(StatesOf(told), StateOf(s, k))
      && (k in s.entries ==> s.entries[k].name == NameFor(told, s.entries[k].state))
  {
    var s, told := Run(Empty, calls), Told(calls, k);
    RunsStayConsistent(Empty, calls);
    PartsAreTold(calls, k);
    CompositeShows(told);
    CompositeNamed(told);
  }

  /** The revision a daemon pane was last told; 0 when it is not tracked. */
  function ToldRevision(calls: seq<Call>, scope: u64, pane: u32): nat {
    if calls == [] then 0
    else
      var before, last := ToldRevision(calls[..|calls| - 1], scope, pane), calls[|calls| - 1];
      if last.DaemonUpdate? && last.scope == scope && last.pane == pane then last.revision
      else if last == Discard(MuxPane(scope, pane)) then 0
      else before
  }

  /** A daemon pane's revision is the one that came with its last update. */
  lemma {:induction false} RevisionIsTold(calls: seq<Call>, scope: u64, pane: u32)
    ensures RevisionOf(Run(Empty, calls), MuxPane(scope, pane)) == ToldRevision(calls, scope, pane)
  {
    if calls != [] {
      RevisionIsTold(calls[..|calls| - 1], scope, pane);
    }
  }

  // ----- what was seen -----

  /** Call `i` changed what the pane shows, or began to track it. */
  ghost predicate Altered(calls: seq<Call>, i: nat, k: PaneKey)
    requires i < |calls|
  {
    var s, t := Run(Empty, calls[..i]), Run(Empty, calls[..i + 1]);
    k in t.entries && (k !in s.entries || StateOf(t, k) != StateOf(s, k))
  }

  predicate Marks(c: Call, k: PaneKey) { c.MarkSeen? && k in c.keys }

  /** The pane was altered and not marked seen since. */
  ghost predicate AlteredUnseen(calls: seq<Call>, k: PaneKey, i: nat) {
    i < |calls| && Altered(calls, i, k) && forall j :: i < j < |calls| ==> !Marks(calls[j], k)
  }

  lemma {:induction false} StepUnseen(s: Store, c: Call, k: PaneKey)
    requires k in Step(s, c).entries
    ensures Step(s, c).entries[k].unseen
            <==> k !in s.entries || StateOf(Step(s, c), k) != StateOf(s, k) || (s.entries[k].unseen && !Marks(c, k))
  {
  }

  lemma {:induction false} StepAlters(init: seq<Call>, last: Call, k: PaneKey, i: nat)
    requires i < |init|
    ensures AlteredUnseen(init + [last], k, i) <==> AlteredUnseen(init, k, i) && !Marks(last, k)
  {
    var calls := init + [last];
    assert calls[..i] == init[..i] && calls[..i + 1] == init[..i + 1];
    assert calls[|init|] == last;
    assert forall j :: 0 <= j < |init| ==> calls[j] == init[j];
  }

  lemma {:induction false} LastAlters(init: seq<Call>, last: Call, k: PaneKey)
    requires k in Run(Empty, init + [last]).entries
    ensures var s, t := Run(Empty, init), Run(Empty, init + [last]);
      AlteredUnseen(init + [last], k, |init|) <==> k !in s.entries || StateOf(t, k) != StateOf(s, k)
  {
    var calls := init + [last];
    assert calls[..|init|] == init && calls[..|init| + 1] == calls;
  }

  ghost predicate Unseen(calls: seq<Call>, k: PaneKey) {
    exists i: nat :: AlteredUnseen(calls, k, i)
  }

  lemma {:induction false} UnseenGrows(init: seq<Call>, last: Call, k: PaneKey)
    ensures Unseen(init + [last], k)
            <==> (Unseen(init, k) && !Marks(last, k)) || AlteredUnseen(init + [last], k, |init|)
  {
    var calls := init + [last];
    forall i: nat | i < |init|
      ensures AlteredUnseen(calls, k, i) <==> AlteredUnseen(init, k, i) && !Marks(last, k)
    {
      StepAlters(init, last, k, i);
    }
    if Unseen(init, k) && !Marks(last, k) {
      var i: nat :| AlteredUnseen(init, k, i);
      assert AlteredUnseen(calls, k, i);
    }
  }

  /** Over every run a tracked pane is unseen exactly when some call changed what it shows, or began to
      track it, and no later call marked it seen. */
  lemma {:induction false} UnseenExactly(calls: seq<Call>, k: PaneKey)
    requires k in Run(Empty, calls).entries
    ensures Run(Empty, calls).entries[k].unseen <==> exists i: nat :: AlteredUnseen(calls, k, i)
  {
    var init, last := calls[..|calls| - 1], calls[|calls| - 1];
    assert calls == init + [last];
    StepUnseen(Run(Empty, init), last, k);
    LastAlters(init, last, k);
    UnseenGrows(init, last, k);
    if k in Run(Empty, init).entries {
      UnseenExactly(init, k);
    }
  }

  // ----- the aggregate -----

  /** The order in which states lead: blocked, unseen error, unseen done, working, seen error, seen done,
      idle. */
  predicate InClass(n: nat, a: Aggregated) {
    match n
    case 0 => a.state == Blocked
    case 1 => a.state == Error && a.unseen
    case 2 => a.state == Done && a.unseen
    case 3 => a.state == Working
    case 4 => a.state == Error && !a.unseen
    case 5 => a.state == Done && !a.unseen
    case _ => n == 6 && a.state == Idle
  }

  /** Some queried pane shows a state of this class. */
  ghost predicate HasClass(s: Store, keys: seq<PaneKey>, n: nat) {
    exists k :: k in keys && Contribution(s, k).Some? && InClass(n, Contribution(s, k).value)
  }

  lemma {:induction false} ClassOf(a: Aggregated) returns (n: nat)
    ensures n < 7 && InClass(n, a) && PriorityRank(a.state, a.unseen) == 6 - n
    ensures forall m: nat :: InClass(m, a) ==> m == n
  {
    n := 6 - PriorityRank(a.state, a.unseen);
  }

  lemma {:induction false} AtMostClass(a: Aggregated, b: Aggregated, m: nat, n: nat)
    requires InClass(m, a) && InClass(n, b)
    ensures AtMost(a, b) <==> n < m || (n == m && (a.unseen ==> b.unseen))
  {
    var p := ClassOf(a);
    var q := ClassOf(b);
  }

  /** The aggregate is of the first class that any queried pane shows, and unseen when some pane shows
      that state unseen; there is none exactly when no pane shows a state. */
  lemma {:induction false} AggregateExactly(s: Store, keys: seq<PaneKey>) returns (n: nat)
    ensures var r := Aggregate(s, keys);
      && (r.None? <==> forall k :: k in keys ==> StateOf(s, k).None?)
      && (r.Some? ==> InClass(n, r.value) && HasClass(s, keys, n) && forall m: nat :: m < n ==> !HasClass(s, keys, m))
      && (r.Some? ==>
           (r.value.unseen <==> exists k :: k in keys && Contribution(s, k) == Some(Aggregated(r.value.state, true))))
  {
    AggregateIsGreatest(s, keys);
    var r := Aggregate(s, keys);
    n := 0;
    if r.Some? {
      n := ClassOf(r.value);
      forall k | k in keys && Contribution(s, k).Some?
        ensures forall m: nat :: InClass(m, Contribution(s, k).value) ==> n <= m
      {
        var m := ClassOf(Contribution(s, k).value);
        AtMostClass(Contribution(s, k).value, r.value, m, n);
      }
    }
  }
}
