/** The two notification rate limiters of src-tauri/src/callbacks.rs and src-tauri/src/notifications.rs,
    against a limiter that never forgets. Instants and durations count nanoseconds. */
module RateLimiters {
  import opened Integers
  import opened Wrappers

  const NANOS := 1_000_000_000
  const MAX_DURATION := LIMIT64 * NANOS - 1
  const AGENT_NOTIFICATION_RATE_LIMIT := 30 * NANOS

  type Duration = n: int | 0 <= n <= MAX_DURATION

  /** `now.duration_since(t)`, zero when `t` is later. */
  function Since(now: nat, t: nat): nat {
    if now >= t then now - t else 0
  }

  // ----- the limiter that never forgets -----

  /** An attempt, with whether everything but the limiter allows it, or the end of a key. */
  datatype Event<K> = Try(key: K, now: nat, allowed: bool) | Discard(key: K)

  /** The last fire of a key since it was last discarded. */
  function LastFire<K(==)>(window: nat, events: seq<Event<K>>, key: K): Option<nat>
    decreases |events|, 0
  {
    if events == [] then None
    else
      var init, e := events[..|events| - 1], events[|events| - 1];
      if e.key != key then LastFire(window, init, key)
      else if e.Discard? then None
      else if Fires(window, init, e) then Some(e.now)
      else LastFire(window, init, key)
  }

  /** An attempt fires when it is allowed and the key's last fire is at least a window old. */
  predicate Fires<K(==)>(window: nat, before: seq<Event<K>>, e: Event<K>)
    decreases |before|, 1
  {
    e.Try? && e.allowed &&
    var last := LastFire(window, before, e.key);
    last.None? || Since(e.now, last.value) >= window
  }

  predicate FiresAt<K(==)>(window: nat, events: seq<Event<K>>, i: nat)
    requires i < |events|
  {
    Fires(window, events[..i], events[i])
  }

  ghost predicate ClockAdvances<K>(events: seq<Event<K>>) {
    forall i, j :: 0 <= i < j < |events| && events[i].Try? && events[j].Try? ==> events[i].now <= events[j].now
  }

  ghost predicate NoDiscard<K>(events: seq<Event<K>>, key: K, from: nat, to: nat)
    requires to <= |events|
  {
    forall i :: from < i < to ==> events[i] != Discard(key)
  }

  /** `i` is a fire of the key that nothing before `n` replaced or discarded. */
  ghost predicate IsLastFire<K>(window: nat, events: seq<Event<K>>, n: nat, key: K, i: int)
    requires n <= |events|
  {
    && 0 <= i < n && events[i].key == key && FiresAt(window, events, i) && NoDiscard(events, key, i, n)
    && forall j :: i < j < n && events[j].key == key ==> !FiresAt(window, events, j)
  }

  lemma {:induction false} LastFireIs<K>(window: nat, events: seq<Event<K>>, n: nat, key: K)
    requires n <= |events|
    ensures var r := LastFire(window, events[..n], key);
      if r.None? then
        forall i :: 0 <= i < n && events[i].key == key && NoDiscard(events, key, i, n) ==> !FiresAt(window, events, i)
      else exists i :: IsLastFire(window, events, n, key, i) && r == Some(events[i].now)
    decreases n
  {
    if n > 0 {
      var e := events[n - 1];
      assert events[..n][..n - 1] == events[..n - 1];
      LastFireIs(window, events, n - 1, key);
      var before, r := LastFire(window, events[..n - 1], key), LastFire(window, events[..n], key);
      if e.key == key && e.Try? && FiresAt(window, events, n - 1) {
        assert IsLastFire(window, events, n, key, n - 1);
      } else if e != Discard(key) {
        assert forall i :: 0 <= i < n - 1 ==> (NoDiscard(events, key, i, n) <==> NoDiscard(events, key, i, n - 1));
        if before.Some? {
          var i :| IsLastFire(window, events, n - 1, key, i) && before == Some(events[i].now);
          assert IsLastFire(window, events, n, key, i);
        }
      }
    }
  }

  /** `i` is an earlier fire of the key of attempt `n`, not discarded since. */
  ghost predicate Counts<K>(window: nat, events: seq<Event<K>>, n: nat, i: int)
    requires n < |events|
  {
    0 <= i < n && events[i].key == events[n].key && FiresAt(window, events, i) && NoDiscard(events, events[n].key, i, n)
  }

  /** Under an advancing clock, an allowed attempt fires exactly when every fire of its key that was
      not discarded since is at least a window old. In particular two fires of one key with no discard
      between them are at least a window apart. */
  lemma {:induction false} FiresExactly<K>(window: nat, events: seq<Event<K>>, n: nat)
    requires n < |events| && events[n].Try? && ClockAdvances(events)
    ensures FiresAt(window, events, n) <==>
      events[n].allowed && forall i :: Counts(window, events, n, i) ==> events[n].now - events[i].now >= window
  {
    var key, r := events[n].key, LastFire(window, events[..n], events[n].key);
    LastFireIs(window, events, n, key);
    if r.Some? {
      var last :| IsLastFire(window, events, n, key, last) && r == Some(events[last].now);
      assert events[last].now <= events[n].now;
      forall i | 0 <= i < n && events[i].key == key && FiresAt(window, events, i)
        ensures events[i].now <= events[last].now
      {
        assert i <= last;
      }
    }
  }

  // ----- what the limiters remember -----

  /** The latest attempt's instant. */
  function Clock<K>(events: seq<Event<K>>): nat {
    if events == [] then 0
    else
      var e := events[|events| - 1];
      if e.Try? then e.now else Clock(events[..|events| - 1])
  }

  /** What is remembered is the last fire; what is forgotten can no longer matter. */
  ghost predicate Tracks<K(!new)>(m: map<K, nat>, window: nat, events: seq<Event<K>>) {
    forall k :: Remembers(m, window, events, k)
  }

  predicate Remembers<K(==)>(m: map<K, nat>, window: nat, events: seq<Event<K>>, k: K) {
    var last := LastFire(window, events, k);
    Lookup(m, k) == last || (k !in m && last.Some? && Since(Clock(events), last.value) >= window)
  }

  /** The next attempt is not before the ones made. */
  predicate Next<K>(events: seq<Event<K>>, e: Event<K>) {
    e.Try? ==> Clock(events) <= e.now
  }

  lemma {:induction false} Decides<K>(m: map<K, nat>, window: nat, events: seq<Event<K>>, e: Event<K>)
    requires Remembers(m, window, events, e.key) && e.Try? && Next(events, e)
    ensures Fires(window, events, e) <==> e.allowed && (e.key !in m || Since(e.now, m[e.key]) >= window)
  {
  }

  /** A key's memory after one more event, whatever else was forgotten that is a window old by then. */
  lemma {:induction false} StillRemembers<K>(m: map<K, nat>, m': map<K, nat>, window: nat, events: seq<Event<K>>,
                                                   e: Event<K>, k: K)
    requires Remembers(m, window, events, k) && Next(events, e)
    requires if e.key == k && e.Discard? then k !in m'
             else if e.key == k && Fires(window, events, e) then Lookup(m', k) == Some(e.now)
             else Lookup(m', k) == Lookup(m, k) || (k !in m' && e.Try? && Since(e.now, m[k]) >= window)
    ensures Remembers(m', window, events + [e], k)
  {
    assert (events + [e])[..|events|] == events;
  }

  // ----- the duplicate suppressor of callbacks.rs -----

  type Message = (string, string)

  function StaleCutoff(window: Duration): Duration {
    if window * 4 <= MAX_DURATION then window * 4 else window
  }

  function Fresh<K>(m: map<K, nat>, now: nat, cutoff: nat): map<K, nat> {
    map k | k in m && Since(now, m[k]) <= cutoff :: m[k]
  }

  predicate Emits<K(==)>(m: map<K, nat>, window: Duration, key: K, now: nat) {
    key !in m || Since(now, m[key]) >= window
  }

  function AfterEmit<K(==)>(m: map<K, nat>, window: Duration, key: K, now: nat): map<K, nat> {
    var kept := Fresh(m, now, StaleCutoff(window));
    if Emits(kept, window, key, now) then kept[key := now] else kept
  }

  class NotificationRateLimiter {
    var last: map<Message, nat>
    const window: Duration

    constructor (window: Duration)
      ensures last == map[] && this.window == window
    {
      last, this.window := map[], window;
    }

    method ShouldEmit(title: string, body: string, now: nat) returns (emit: bool)
      modifies this`last
      ensures emit == Emits(old(last), window, (title, body), now)
      ensures last == AfterEmit(old(last), window, (title, body), now)
    {
      var staleCutoff := StaleCutoff(window);
      last := Fresh(last, now, staleCutoff);
      var key := (title, body);
      if key in last && Since(now, last[key]) < window {
        return false;
      }
      last := last[key := now];
      return true;
    }
  }

  /** The limiter's memory after a run. */
  function EmitRun<K(==)>(window: Duration, events: seq<Event<K>>): map<K, nat> {
    if events == [] then map[]
    else
      var e := events[|events| - 1];
      var m := EmitRun(window, events[..|events| - 1]);
      if e.Try? then AfterEmit(m, window, e.key, e.now) else m
  }

  ghost predicate AllTries<K>(events: seq<Event<K>>) {
    forall i :: 0 <= i < |events| ==> events[i].Try? && events[i].allowed
  }

  lemma {:induction false} ClockIsLatest<K>(events: seq<Event<K>>, e: Event<K>)
    requires ClockAdvances(events + [e])
    ensures Next(events, e)
    decreases |events|
  {
    var all := events + [e];
    assert all[|events|] == e;
    if events != [] && e.Try? {
      var init, last := events[..|events| - 1], events[|events| - 1];
      assert all[|events| - 1] == last;
      if last.Discard? {
        assert forall i :: 0 <= i < |init| ==> (init + [e])[i] == all[i];
        ClockIsLatest(init, e);
      }
    }
  }

  lemma {:induction false} EmitStep<K(!new)>(m: map<K, nat>, window: Duration, events: seq<Event<K>>, e: Event<K>)
    requires Tracks(m, window, events) && e.Try? && e.allowed && Next(events, e)
    ensures Emits(m, window, e.key, e.now) <==> Fires(window, events, e)
    ensures Tracks(AfterEmit(m, window, e.key, e.now), window, events + [e])
  {
    assert Remembers(m, window, events, e.key);
    Decides(m, window, events, e);
    var m' := AfterEmit(m, window, e.key, e.now);
    forall k
      ensures Remembers(m', window, events + [e], k)
    {
      assert Remembers(m, window, events, k);
      StillRemembers(m, m', window, events, e, k);
    }
  }

  /** Forgetting is invisible: under an advancing clock the suppressor decides every attempt as the
      limiter that never forgets. */
  lemma {:induction false} EmitNeverForgets<K(!new)>(window: Duration, events: seq<Event<K>>, e: Event<K>)
    requires AllTries(events) && e.Try? && e.allowed && ClockAdvances(events + [e])
    ensures Tracks(EmitRun(window, events), window, events)
    ensures Emits(EmitRun(window, events), window, e.key, e.now) <==> Fires(window, events, e)
    decreases |events|
  {
    var all := events + [e];
    assert all[|events|] == e;
    if events != [] {
      var init, last := events[..|events| - 1], events[|events| - 1];
      assert events == init + [last];
      assert forall i :: 0 <= i < |events| ==> events[i] == all[i];
      EmitNeverForgets(window, init, last);
      ClockIsLatest(init, last);
      EmitStep(EmitRun(window, init), window, init, last);
    }
    ClockIsLatest(events, e);
    EmitStep(EmitRun(window, events), window, events, e);
  }

  /** Four windows, or one where four would overflow. */
  predicate Kept(window: Duration, age: nat) {
    age <= if 4 * window < LIMIT64 * NANOS then 4 * window else window
  }

  function Held(fire: Option<nat>, window: Duration, clock: nat): Option<nat> {
    if fire.Some? && Kept(window, Since(clock, fire.value)) then fire else None
  }

  lemma {:induction false} HeldAfter<K>(m: map<K, nat>, window: Duration, key: K, now: nat, k: K,
                                            fire: Option<nat>, clock: nat)
    requires Lookup(m, k) == Held(fire, window, clock) && clock <= now && (fire.Some? ==> fire.value <= clock)
    ensures Lookup(AfterEmit(m, window, key, now), k)
            == if k == key && Emits(m, window, key, now) then Some(now) else Held(fire, window, now)
  {
  }

  lemma {:induction false} NextFire<K>(window: nat, init: seq<Event<K>>, e: Event<K>, k: K)
    requires e.Try?
    ensures LastFire(window, init + [e], k) == if k == e.key && Fires(window, init, e) then Some(e.now)
                                               else LastFire(window, init, k)
    ensures Clock(init + [e]) == e.now
  {
    assert (init + [e])[..|init|] == init;
  }

  /** What the suppressor still holds after a run: the last fire of each key, while it was at most four
      windows old at the latest attempt. */
  lemma {:induction false} MemoryExactly<K(!new)>(window: Duration, events: seq<Event<K>>, k: K)
    requires AllTries(events) && ClockAdvances(events)
    ensures Lookup(EmitRun(window, events), k) == Held(LastFire(window, events, k), window, Clock(events))
  {
    if events != [] {
      var init, e := events[..|events| - 1], events[|events| - 1];
      assert events == init + [e];
      assert forall i :: 0 <= i < |init| ==> init[i] == events[i];
      MemoryExactly(window, init, k);
      ClockIsLatest(init, e);
      EmitNeverForgets(window, init, e);
      FireIsPast(window, init, k);
      HeldAfter(EmitRun(window, init), window, e.key, e.now, k, LastFire(window, init, k), Clock(init));
      NextFire(window, init, e, k);
    }
  }

  lemma {:induction false} FireIsPast<K>(window: nat, events: seq<Event<K>>, k: K)
    requires ClockAdvances(events)
    ensures LastFire(window, events, k).Some? ==> LastFire(window, events, k).value <= Clock(events)
  {
    if events != [] {
      var init, e := events[..|events| - 1], events[|events| - 1];
      assert events == init + [e];
      assert forall i :: 0 <= i < |init| ==> init[i] == events[i];
      FireIsPast(window, init, k);
      ClockIsLatest(init, e);
    }
  }

  // ----- the agent limiter of notifications.rs -----

  function Armed<K>(m: map<K, nat>, now: nat): map<K, nat> {
    map k | k in m && Since(now, m[k]) < AGENT_NOTIFICATION_RATE_LIMIT :: m[k]
  }

  predicate WithinLimit<K(==)>(m: map<K, nat>, key: K, now: nat) {
    key !in m || Since(now, m[key]) >= AGENT_NOTIFICATION_RATE_LIMIT
  }

  function AfterEvent<K(==)>(m: map<K, nat>, e: Event<K>): map<K, nat> {
    match e
    case Try(key, now, allowed) => if allowed && WithinLimit(m, key, now) then Armed(m, now)[key := now] else m
    case Discard(key) => m - {key}
  }

  class AgentNotificationRateLimiter<K(==)> {
    var lastFired: map<K, nat>

    constructor ()
      ensures lastFired == map[]
    {
      lastFired := map[];
    }

    method IsWithinLimit(key: K, now: nat) returns (ok: bool)
      ensures ok == WithinLimit(lastFired, key, now)
    {
      if key in lastFired {
        return Since(now, lastFired[key]) >= AGENT_NOTIFICATION_RATE_LIMIT;
      }
      return true;
    }

    method Record(key: K, now: nat)
      modifies this
      ensures lastFired == Armed(old(lastFired), now)[key := now]
    {
      lastFired := Armed(lastFired, now);
      lastFired := lastFired[key := now];
    }

    method DiscardKey(key: K)
      modifies this
      ensures lastFired == AfterEvent(old(lastFired), Discard(key))
    {
      lastFired := lastFired - {key};
    }

    /** The caller's pattern: check, decide with the other gates, record only a fire. */
    method MaybeNotify(key: K, now: nat, allowed: bool) returns (fire: bool)
      modifies this
      ensures fire == (allowed && WithinLimit(old(lastFired), key, now))
      ensures lastFired == AfterEvent(old(lastFired), Try(key, now, allowed))
    {
      var rateLimitOk := IsWithinLimit(key, now);
      fire := allowed && rateLimitOk;
      if fire {
        Record(key, now);
      }
    }
  }

  function AgentRun<K(==)>(events: seq<Event<K>>): map<K, nat> {
    if events == [] then map[] else AfterEvent(AgentRun(events[..|events| - 1]), events[|events| - 1])
  }

  lemma {:induction false} AgentStep<K(!new)>(m: map<K, nat>, events: seq<Event<K>>, e: Event<K>)
    requires Tracks(m, AGENT_NOTIFICATION_RATE_LIMIT, events) && Next(events, e)
    ensures e.Try? ==> (e.allowed && WithinLimit(m, e.key, e.now) <==> Fires(AGENT_NOTIFICATION_RATE_LIMIT, events, e))
    ensures Tracks(AfterEvent(m, e), AGENT_NOTIFICATION_RATE_LIMIT, events + [e])
  {
    assert Remembers(m, AGENT_NOTIFICATION_RATE_LIMIT, events, e.key);
    if e.Try? {
      Decides(m, AGENT_NOTIFICATION_RATE_LIMIT, events, e);
    }
    forall k
      ensures Remembers(AfterEvent(m, e), AGENT_NOTIFICATION_RATE_LIMIT, events + [e], k)
    {
      assert Remembers(m, AGENT_NOTIFICATION_RATE_LIMIT, events, k);
      StillRemembers(m, AfterEvent(m, e), AGENT_NOTIFICATION_RATE_LIMIT, events, e, k);
    }
  }

  /** Forgetting is invisible here too, over runs with discards and attempts other gates refuse. */
  lemma {:induction false} AgentNeverForgets<K(!new)>(events: seq<Event<K>>, e: Event<K>)
    requires e.Try? && ClockAdvances(events + [e])
    ensures Tracks(AgentRun(events), AGENT_NOTIFICATION_RATE_LIMIT, events)
    ensures e.allowed && WithinLimit(AgentRun(events), e.key, e.now)
            <==> Fires(AGENT_NOTIFICATION_RATE_LIMIT, events, e)
  {
    AgentTracks(events, e);
    ClockIsLatest(events, e);
    AgentStep(AgentRun(events), events, e);
  }

  lemma {:induction false} AgentTracks<K(!new)>(events: seq<Event<K>>, e: Event<K>)
    requires ClockAdvances(events + [e])
    ensures Tracks(AgentRun(events), AGENT_NOTIFICATION_RATE_LIMIT, events)
    decreases |events|
  {
    if events != [] {
      var init, last := events[..|events| - 1], events[|events| - 1];
      assert events == init + [last];
      assert forall i :: 0 <= i < |events| ==> (events + [e])[i] == events[i];
      AgentTracks(init, last);
      ClockIsLatest(init, last);
      AgentStep(AgentRun(init), init, last);
    }
  }

  /** The instant of the last fire of any key, discarded or not. */
  function LatestFire<K(==)>(window: nat, events: seq<Event<K>>): nat {
    if events == [] then 0
    else
      var init, e := events[..|events| - 1], events[|events| - 1];
      if Fires(window, init, e) then e.now else LatestFire(window, init)
  }

  lemma {:induction false} FireIsNotLater<K>(window: nat, events: seq<Event<K>>, k: K)
    requires ClockAdvances(events)
    ensures LatestFire(window, events) <= Clock(events)
    ensures LastFire(window, events, k).Some? ==> LastFire(window, events, k).value <= LatestFire(window, events)
  {
    if events != [] {
      var init, e := events[..|events| - 1], events[|events| - 1];
      assert events == init + [e];
      assert forall i :: 0 <= i < |init| ==> init[i] == events[i];
      FireIsNotLater(window, init, k);
      ClockIsLatest(init, e);
    }
  }

  function HeldByAgent(fire: Option<nat>, latest: nat): Option<nat> {
    if fire.Some? && Since(latest, fire.value) < 30_000_000_000 then fire else None
  }

  lemma {:induction false} HeldAfterEvent<K>(m: map<K, nat>, e: Event<K>, k: K, fire: Option<nat>, latest: nat)
    requires Lookup(m, k) == HeldByAgent(fire, latest) && (e.Try? ==> latest <= e.now)
    requires fire.Some? ==> fire.value <= latest
    ensures Lookup(AfterEvent(m, e), k)
            == if e.Discard? && e.key == k then None
               else if e.Try? && e.allowed && WithinLimit(m, e.key, e.now) then
                 if e.key == k then Some(e.now) else HeldByAgent(fire, e.now)
               else HeldByAgent(fire, latest)
  {
  }

  /** What the agent limiter still holds after a run: the last fire of each key that was not discarded,
      while it was less than 30 seconds old at the latest fire of any key. */
  lemma {:induction false} AgentMemoryExactly<K(!new)>(events: seq<Event<K>>, k: K)
    requires ClockAdvances(events)
    ensures var window := AGENT_NOTIFICATION_RATE_LIMIT;
      Lookup(AgentRun(events), k) == HeldByAgent(LastFire(window, events, k), LatestFire(window, events))
  {
    if events != [] {
      var window, init, e := AGENT_NOTIFICATION_RATE_LIMIT, events[..|events| - 1], events[|events| - 1];
      assert events == init + [e];
      assert forall i :: 0 <= i < |init| ==> init[i] == events[i];
      AgentMemoryExactly(init, k);
      ClockIsLatest(init, e);
      FireIsNotLater(window, init, k);
      if e.Try? {
        AgentNeverForgets(init, e);
      }
      HeldAfterEvent(AgentRun(init), e, k, LastFire(window, init, k), LatestFire(window, init));
    }
  }
}
