/** The store as the program keeps it: fields updated in place, each method one `Step`. */
module AgentStatusModels {
  import opened Integers
  import opened Wrappers
  import opened AgentStatus
  import opened ExitLatch
  import opened AgentStatusStore

  class AgentStatusModel {
    var entries: map<PaneKey, Status>
    var transitions: seq<Transition>
    var latches: map<u64, State>

    function Value(): Store
      reads this
    {
      Store(entries, transitions, latches)
    }

    constructor ()
      ensures Value() == Empty
    {
      entries, transitions, latches := map[], [], map[];
    }

    method ApplyPlainTabEvent(tab: u64, event: Event)
      modifies this`entries, this`transitions
      ensures Value() == Step(old(Value()), PlainTabEvent(tab, event))
    {
      var key := Tab(tab);
      var newState, name := None, None;
      if event.Set? {
        newState, name := Some(event.state), event.name;
      }
      var revision, summary := 1, None;
      if key in entries {
        revision, summary := entries[key].revision + 1, entries[key].parts.summary;
      }
      ApplyReport(key, newState, name, summary, revision, false);
    }

    method ApplyPlainTabSummary(tab: u64, summary: Option<Summary>)
      modifies this`entries, this`transitions
      ensures Value() == Step(old(Value()), PlainTabSummary(tab, summary))
    {
      var key := Tab(tab);
      var revision, state, name := 1, None, None;
      if key in entries {
        revision, state, name := entries[key].revision + 1, entries[key].parts.state, entries[key].parts.name;
      }
      ApplyReport(key, state, name, summary, revision, false);
    }

    method ApplyDaemonUpdate(scope: u64, pane: u32, state: Option<AgentState>, name: Option<string>, revision: nat,
                             summary: Option<Summary>, replayDerived: bool)
      modifies this`entries, this`transitions
      ensures Value()
              == Step(old(Value()), DaemonUpdate(scope, pane, Parts(state, name, summary), revision, replayDerived))
    {
      ApplyReport(MuxPane(scope, pane), state, name, summary, revision, replayDerived);
    }

    method ApplyReport(key: PaneKey, state: Option<AgentState>, name: Option<string>, summary: Option<Summary>,
                       revision: nat, replayDerived: bool)
      modifies this`entries, this`transitions
      ensures Value() == Applied(old(Value()), Report(key, Parts(state, name, summary), revision, replayDerived))
    {
      var existed := key in entries;
      var prevState := if existed then entries[key].state else None;
      var parts := Parts(state, name, summary);
      var newState, newName := Composite(parts), CompositeName(parts);
      var changed := !existed || prevState != newState;
      var unseen := existed && entries[key].unseen;
      if changed {
        unseen := true;
      }
      entries := entries[key := Status(newState, newName, revision, unseen, parts)];
      if changed && !replayDerived {
        transitions := transitions + [Transition(key, prevState, newState, newName)];
      }
    }

    method DiscardPane(key: PaneKey)
      modifies this`entries, this`latches
      ensures Value() == Step(old(Value()), Discard(key))
    {
      entries := entries - {key};
      if key.Tab? {
        latches := latches - {key.id};
      }
    }

    /** The latch kept for `tab`, made on first use. */
    method LatchFor(tab: u64) returns (latch: AgentStatusExitLatch)
      ensures fresh(latch) && latch.StateParts() == LatchOf(Value(), tab)
    {
      if tab in latches {
        latch := new AgentStatusExitLatch.FromStateParts(latches[tab]);
      } else {
        latch := new AgentStatusExitLatch();
      }
    }

    method RecordLatchSet(tab: u64)
      modifies this`latches
      ensures Value() == Step(old(Value()), LatchSet(tab))
    {
      var latch := LatchFor(tab);
      latch.RecordSet();
      latches := latches[tab := latch.StateParts()];
    }

    method RecordLatchClear(tab: u64)
      modifies this`latches
      ensures Value() == Step(old(Value()), LatchClear(tab))
    {
      var latch := LatchFor(tab);
      latch.RecordClear();
      latches := latches[tab := latch.StateParts()];
    }

    method RecordLivePromptMark(tab: u64, kind: PromptMarkKind)
      modifies this
      ensures Value() == Step(old(Value()), LivePromptMark(tab, kind))
    {
      var latch := LatchFor(tab);
      var fire := latch.RecordMark(kind);
      latches := latches[tab := latch.StateParts()];
      if fire {
        ApplyPlainTabEvent(tab, Event.Clear);
      }
    }

    method MarkPanesSeen(keys: seq<PaneKey>)
      modifies this`entries
      ensures Value() == Step(old(Value()), MarkSeen(keys))
    {
      ghost var was := entries;
      assert Seen(was, keys[..0]) == was;
      for i := 0 to |keys|
        invariant entries == Seen(was, keys[..i])
      {
        var key := keys[i];
        assert forall k :: k in keys[..i + 1] <==> k in keys[..i] || k == key;
        if key in entries {
          entries := entries[key := entries[key].(unseen := false)];
        }
      }
      assert keys[..|keys|] == keys;
    }

    method Drain() returns (out: seq<Transition>)
      modifies this`transitions
      ensures out == old(transitions)
      ensures Value() == Step(old(Value()), DrainTransitions)
    {
      out := transitions;
      transitions := [];
    }
  }
}
