/** A pane's latch over a hot upgrade: its parts travel in the handoff document
    (crates/mux_ipc/src/handoff.rs, `latch_armed`, `latch_command_ended`, `latch_generation`). */
module LatchHandoff {
  import opened Integers
  import opened Wrappers
  import opened Codecs
  import opened Handoff
  import opened HandoffCodec
  import ExitLatch

  datatype Place = Place(session: nat, window: nat, pane: nat)

  predicate Holds(d: Document<Pane>, at: Place) {
    && at.session < |d.sessions| && at.window < |d.sessions[at.session].windows|
    && at.pane < |d.sessions[at.session].windows[at.window].panes|
  }

  function PaneAt(d: Document<Pane>, at: Place): Pane
    requires Holds(d, at)
  {
    d.sessions[at.session].windows[at.window].panes[at.pane]
  }

  /** The same document with one pane replaced. */
  function WithPane(d: Document<Pane>, at: Place, p: Pane): (r: Document<Pane>)
    requires Holds(d, at)
    ensures Holds(r, at) && PaneAt(r, at) == p && r.schemaVersion == d.schemaVersion
  {
    var s := d.sessions[at.session];
    var w := s.windows[at.window];
    d.(sessions := d.sessions[at.session := s.(windows := s.windows[at.window := w.(panes := w.panes[at.pane := p])])])
  }

  method Ship(sent: Document<Pane>) returns (received: Document<Pane>)
    requires sent.schemaVersion == SCHEMA_VERSION
    ensures received == sent
  {
    ThisBuildIsLawful();
    CurrentRoundTrip(THIS_BUILD, sent, []);
    var bytes := EncodeDocument(THIS_BUILD, sent);
    assert bytes + [] == bytes;
    return DecodeDocument(THIS_BUILD, bytes).document;
  }

  /** Feeds `a` to a pane's latch, hands the pane over in an encoded document, and feeds `b` to the
      latch rebuilt from what was decoded: no answer differs from those of a latch never cut, and the
      document sent carries the latch's own parts under their names. */
  method HandOver(d: Document<Pane>, at: Place, a: seq<ExitLatch.Input>, b: seq<ExitLatch.Input>)
    returns (answers: seq<bool>, sent: Document<Pane>)
    requires Holds(d, at) && d.schemaVersion == SCHEMA_VERSION
    ensures answers == ExitLatch.Firings(ExitLatch.Fresh, a + b)
    ensures var latch := ExitLatch.Run(ExitLatch.Fresh, a);
      sent == WithPane(d, at, PaneAt(d, at).(latchArmed := latch.armed, latchCommandEnded := latch.commandEnded,
                                             latchGeneration := latch.generation))
  {
    var latch := new ExitLatch.AgentStatusExitLatch();
    var before := ExitLatch.Feed(latch, a);
    var parts := latch.StateParts();
    sent := WithPane(d, at, PaneAt(d, at).(
      latchArmed := parts.armed, latchCommandEnded := parts.commandEnded, latchGeneration := parts.generation));
    var received := Ship(sent);
    var p := PaneAt(received, at);
    var rebuilt := new ExitLatch.AgentStatusExitLatch.FromStateParts(
      ExitLatch.State(p.latchArmed, p.latchCommandEnded, p.latchGeneration));
    var after := ExitLatch.Feed(rebuilt, b);
    ExitLatch.CutChangesNothing(ExitLatch.Fresh, a, b);
    answers := before + after;
  }
}
