/** The inferred-clear latch of src-tauri/src/agent_status_exit_latch.rs, and what it does over a
    whole trace of reports and prompt marks. */
module ExitLatch {
  import opened Integers
  import opened Wrappers

  datatype PromptMarkKind = PromptStart | CommandStart | CommandExec | CommandEnd

  /** The resolved inputs of src-tauri/src/agent_status_model.rs (`ResolvedLatchInput`). */
  datatype Input = Set | Clear | Mark(kind: PromptMarkKind)

  datatype State = State(armed: bool, commandEnded: bool, generation: u64)

  const Fresh := State(false, false, 0)

  // ----- one step -----

  predicate Fires(s: State, input: Input) {
    input == Mark(PromptStart) && s.armed && s.commandEnded
  }

  function After(s: State, input: Input): State {
    match input
    case Set => State(true, false, (s.generation + 1) % LIMIT64)
    case Clear => s.(armed := false, commandEnded := false)
    case Mark(kind) =>
      if kind == CommandEnd && s.armed then s.(commandEnded := true)
      else if Fires(s, input) then s.(armed := false, commandEnded := false)
      else s
  }

  class AgentStatusExitLatch {
    var armed: bool
    var commandEnded: bool
    var generation: u64

    function StateParts(): State
      reads this
    {
      State(armed, commandEnded, generation)
    }

    constructor ()
      ensures StateParts() == Fresh
    {
      armed, commandEnded, generation := false, false, 0;
    }

    constructor FromStateParts(parts: State)
      ensures StateParts() == parts
    {
      armed, commandEnded, generation := parts.armed, parts.commandEnded, parts.generation;
    }

    method RecordSet()
      modifies this
      ensures StateParts() == After(old(StateParts()), Set)
    {
      generation := (generation + 1) % LIMIT64;
      armed := true;
      commandEnded := false;
    }

    method RecordClear()
      modifies this
      ensures StateParts() == After(old(StateParts()), Clear)
    {
      armed := false;
      commandEnded := false;
    }

    method RecordMark(kind: PromptMarkKind) returns (fire: bool)
      modifies this
      ensures fire == Fires(old(StateParts()), Mark(kind))
      ensures StateParts() == After(old(StateParts()), Mark(kind))
    {
      fire := false;
      match kind
      case CommandEnd =>
        if armed && !commandEnded {
          commandEnded := true;
        }
      case PromptStart =>
        if armed && commandEnded {
          armed := false;
          commandEnded := false;
          fire := true;
        }
      case CommandStart =>
      case CommandExec =>
    }
  }

  // ----- whole traces -----

  function Run(s: State, trace: seq<Input>): State {
    if trace == [] then s else After(Run(s, trace[..|trace| - 1]), trace[|trace| - 1])
  }

  /** Whether the input at each position fires. */
  function Firings(s: State, trace: seq<Input>): (f: seq<bool>)
    ensures |f| == |trace|
  {
    if trace == [] then []
    else
      var init := trace[..|trace| - 1];
      Firings(s, init) + [Fires(Run(s, init), trace[|trace| - 1])]
  }

  /** Replacing the latch by one rebuilt from its parts, anywhere in a run, changes no firing. */
  lemma {:induction false} CutChangesNothing(s: State, a: seq<Input>, b: seq<Input>)
    ensures Run(s, a + b) == Run(Run(s, a), b)
    ensures Firings(s, a + b) == Firings(s, a) + Firings(Run(s, a), b)
    decreases |b|
  {
    if b == [] {
      assert a + b == a;
    } else {
      var init := b[..|b| - 1];
      assert (a + b)[..|a + b| - 1] == a + init;
      CutChangesNothing(s, a, init);
    }
  }

  lemma {:induction false} OneMore(s: State, inputs: seq<Input>, i: nat)
    requires i < |inputs|
    ensures Run(s, inputs[..i + 1]) == After(Run(s, inputs[..i]), inputs[i])
    ensures Firings(s, inputs[..i + 1]) == Firings(s, inputs[..i]) + [Fires(Run(s, inputs[..i]), inputs[i])]
  {
    assert inputs[..i + 1][..i] == inputs[..i];
  }

  method FeedOne(latch: AgentStatusExitLatch, input: Input) returns (fired: bool)
    modifies latch
    ensures fired == Fires(old(latch.StateParts()), input)
    ensures latch.StateParts() == After(old(latch.StateParts()), input)
  {
    fired := false;
    match input
    case Set => latch.RecordSet();
    case Clear => latch.RecordClear();
    case Mark(kind) => fired := latch.RecordMark(kind);
  }

  method Feed(latch: AgentStatusExitLatch, inputs: seq<Input>) returns (answers: seq<bool>)
    modifies latch
    ensures answers == Firings(old(latch.StateParts()), inputs)
    ensures latch.StateParts() == Run(old(latch.StateParts()), inputs)
  {
    answers := [];
    ghost var start := latch.StateParts();
    for i := 0 to |inputs|
      invariant answers == Firings(start, inputs[..i])
      invariant latch.StateParts() == Run(start, inputs[..i])
    {
      OneMore(start, inputs, i);
      var fired := FeedOne(latch, inputs[i]);
      answers := answers + [fired];
    }
    assert inputs[..|inputs|] == inputs;
  }

  /** A latch taken apart after `a` and rebuilt for `b` answers as one that was never cut. */
  method FeedAndRebuild(a: seq<Input>, b: seq<Input>) returns (answers: seq<bool>)
    ensures answers == Firings(Fresh, a + b)
  {
    var latch := new AgentStatusExitLatch();
    var before := Feed(latch, a);
    var rebuilt := new AgentStatusExitLatch.FromStateParts(latch.StateParts());
    var after := Feed(rebuilt, b);
    CutChangesNothing(Fresh, a, b);
    return before + after;
  }

  predicate IsReport(i: Input) { i.Set? || i.Clear? }

  /** The latest report before `n`. */
  function LatestReport(trace: seq<Input>, n: nat): (r: Option<nat>)
    requires n <= |trace|
    ensures r.Some? ==> r.value < n && IsReport(trace[r.value]) && forall i :: r.value < i < n ==> !IsReport(trace[i])
    ensures r.None? ==> forall i :: 0 <= i < n ==> !IsReport(trace[i])
  {
    if n == 0 then None else if IsReport(trace[n - 1]) then Some(n - 1) else LatestReport(trace, n - 1)
  }

  /** The first command end strictly between `from` and `n`. */
  function FirstEnd(trace: seq<Input>, from: nat, n: nat): (r: Option<nat>)
    requires from < n <= |trace|
    ensures r.Some? ==> from < r.value < n && trace[r.value] == Mark(CommandEnd)
                        && forall i :: from < i < r.value ==> trace[i] != Mark(CommandEnd)
    ensures r.None? ==> forall i :: from < i < n ==> trace[i] != Mark(CommandEnd)
  {
    if n == from + 1 then None
    else
      var r := FirstEnd(trace, from, n - 1);
      if r.Some? then r else if trace[n - 1] == Mark(CommandEnd) then Some(n - 1) else None
  }

  ghost predicate StartIn(trace: seq<Input>, from: nat, n: nat)
    requires n <= |trace|
  {
    exists i :: from < i < n && trace[i] == Mark(PromptStart)
  }

  /** The state after `n` inputs, read off the trace. */
  lemma {:induction false} StateFromTrace(trace: seq<Input>, n: nat)
    requires n <= |trace|
    ensures var s, r := Run(Fresh, trace[..n]), LatestReport(trace, n);
      if r.None? || trace[r.value] == Clear then !s.armed && !s.commandEnded
      else
        var e := FirstEnd(trace, r.value, n);
        s.armed == !(e.Some? && StartIn(trace, e.value, n)) && s.commandEnded == (s.armed && e.Some?)
  {
    if n > 0 {
      StateFromTrace(trace, n - 1);
      assert trace[..n][..n - 1] == trace[..n - 1];
      if !IsReport(trace[n - 1]) {
        StartGrows(trace, n);
      }
    }
  }

  lemma {:induction false} StartGrows(trace: seq<Input>, n: nat)
    requires 0 < n <= |trace|
    ensures forall from: nat ::
      StartIn(trace, from, n) <==> StartIn(trace, from, n - 1) || (from < n - 1 && trace[n - 1] == Mark(PromptStart))
  {
  }

  /** The condition of the design: the latest report is a Set, a command end follows it, and no
      prompt start lies between that first command end and position `n`. */
  ghost predicate ShouldFire(trace: seq<Input>, n: nat)
    requires n < |trace|
  {
    trace[n] == Mark(PromptStart) && exists s, e :: ArmedBy(trace, n, s, e) && !StartIn(trace, e, n)
  }

  ghost predicate NoReportIn(trace: seq<Input>, from: nat, n: nat)
    requires n <= |trace|
  {
    forall i :: from < i < n ==> !IsReport(trace[i])
  }

  ghost predicate NoEndIn(trace: seq<Input>, from: nat, n: nat)
    requires n <= |trace|
  {
    forall i :: from < i < n ==> trace[i] != Mark(CommandEnd)
  }

  /** `s` and `e` are the Set and the command end that arm position `n`. */
  ghost predicate ArmedBy(trace: seq<Input>, n: nat, s: int, e: int)
    requires n <= |trace|
  {
    && 0 <= s < e < n && trace[s] == Set && trace[e] == Mark(CommandEnd)
    && NoReportIn(trace, s, n) && NoEndIn(trace, s, e)
  }

  lemma {:induction false} ArmedByIs(trace: seq<Input>, n: nat, s: nat, e: nat)
    requires n <= |trace| && ArmedBy(trace, n, s, e)
    ensures LatestReport(trace, n) == Some(s) && FirstEnd(trace, s, n) == Some(e)
  {
  }

  /** A fresh latch fires exactly where the design says, on every trace. */
  lemma {:induction false} FiresExactly(trace: seq<Input>, n: nat)
    requires n < |trace|
    ensures Fires(Run(Fresh, trace[..n]), trace[n]) <==> ShouldFire(trace, n)
  {
    StateFromTrace(trace, n);
    if ShouldFire(trace, n) {
      var s, e :| ArmedBy(trace, n, s, e) && !StartIn(trace, e, n);
      ArmedByIs(trace, n, s, e);
    }
    if Fires(Run(Fresh, trace[..n]), trace[n]) {
      var s := LatestReport(trace, n).value;
      var e := FirstEnd(trace, s, n).value;
      assert ArmedBy(trace, n, s, e) && !StartIn(trace, e, n);
    }
  }

  /** The firing at each position of a run is what the condition says. */
  lemma {:induction false} FiringAt(s: State, trace: seq<Input>, n: nat)
    requires n < |trace|
    ensures Firings(s, trace)[n] == Fires(Run(s, trace[..n]), trace[n])
    decreases |trace|
  {
    var init := trace[..|trace| - 1];
    if n < |init| {
      FiringAt(s, init, n);
      assert init[..n] == trace[..n];
    }
  }

  function SetsIn(trace: seq<Input>): nat {
    if trace == [] then 0 else SetsIn(trace[..|trace| - 1]) + if trace[|trace| - 1] == Set then 1 else 0
  }

  /** The generation counts the Sets, wrapping at 2^64. */
  lemma {:induction false} GenerationCounts(trace: seq<Input>)
    ensures Run(Fresh, trace).generation == SetsIn(trace) % LIMIT64
  {
    if trace != [] {
      GenerationCounts(trace[..|trace| - 1]);
      NextWrapped(SetsIn(trace[..|trace| - 1]));
    }
  }

  lemma {:induction false} NextWrapped(n: nat)
    ensures (n % LIMIT64 + 1) % LIMIT64 == (n + 1) % LIMIT64
  {
  }
}
