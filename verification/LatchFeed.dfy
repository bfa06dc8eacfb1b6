/** Reconciliation of a pump's mark candidates with its live marks, as in
    src-tauri/src/agent_status_model.rs (`reconcile_latch_feed`). */
module LatchFeed {
  import opened ExitLatch

  /** The feed carries the same three events; its marks are candidates not yet confirmed. */
  type Feed = seq<Input>

  function Reconciled(feed: Feed, live: seq<PromptMarkKind>): Feed {
    if feed == [] then []
    else if feed[0].Mark? then
      if live != [] && live[0] == feed[0].kind then [feed[0]] + Reconciled(feed[1..], live[1..])
      else Reconciled(feed[1..], live)
    else [feed[0]] + Reconciled(feed[1..], live)
  }

  lemma {:induction false} NextCandidate(feed: Feed, i: nat, live: seq<PromptMarkKind>, j: nat)
    requires i < |feed| && j <= |live|
    ensures Reconciled(feed[i..], live[j..]) ==
      if !feed[i].Mark? then [feed[i]] + Reconciled(feed[i + 1..], live[j..])
      else if j < |live| && live[j] == feed[i].kind then [feed[i]] + Reconciled(feed[i + 1..], live[j + 1..])
      else Reconciled(feed[i + 1..], live[j..])
  {
    assert feed[i..][1..] == feed[i + 1..];
    assert j < |live| ==> live[j..][1..] == live[j + 1..];
  }

  lemma {:induction false} KeepOne(out: Feed, x: Input, rest: Feed)
    ensures out + ([x] + rest) == out + [x] + rest
  {
  }

  method ReconcileLatchFeed(feed: Feed, live: seq<PromptMarkKind>) returns (resolved: Feed)
    ensures resolved == Reconciled(feed, live)
  {
    var liveIdx := 0;
    resolved := [];
    for i := 0 to |feed|
      invariant 0 <= liveIdx <= |live|
      invariant Reconciled(feed, live) == resolved + Reconciled(feed[i..], live[liveIdx..])
    {
      var candidate := feed[i];
      NextCandidate(feed, i, live, liveIdx);
      KeepOne(resolved, candidate, Reconciled(feed[i + 1..], live[liveIdx..]));
      match candidate
      case Set => resolved := resolved + [Set];
      case Clear => resolved := resolved + [Clear];
      case Mark(kind) =>
        if liveIdx < |live| && live[liveIdx] == kind {
          KeepOne(resolved, candidate, Reconciled(feed[i + 1..], live[liveIdx + 1..]));
          liveIdx := liveIdx + 1;
          resolved := resolved + [Mark(kind)];
        }
    }
  }

  function Marks(feed: Feed): seq<PromptMarkKind> {
    if feed == [] then []
    else (if feed[0].Mark? then [feed[0].kind] else []) + Marks(feed[1..])
  }

  function Reports(feed: Feed): Feed {
    if feed == [] then [] else (if IsReport(feed[0]) then [feed[0]] else []) + Reports(feed[1..])
  }

  /** `a` can be got from `b` by dropping elements. */
  ghost predicate Subsequence<T>(a: seq<T>, b: seq<T>) {
    a == [] || (b != [] && (Subsequence(a, b[1..]) || (a[0] == b[0] && Subsequence(a[1..], b[1..]))))
  }

  lemma {:induction false} DropFirst<T>(a: seq<T>, b: seq<T>)
    requires a != [] && Subsequence(a, b)
    ensures Subsequence(a[1..], b)
    decreases |b|
  {
    if Subsequence(a, b[1..]) {
      DropFirst(a, b[1..]);
    } else {
      assert Subsequence(a[1..], b[1..]);
    }
  }

  lemma {:induction false} OnlyDrops(feed: Feed, live: seq<PromptMarkKind>)
    ensures Subsequence(Reconciled(feed, live), feed)
  {
    if feed != [] {
      var kept := feed[0].Mark? && live != [] && live[0] == feed[0].kind;
      var rest := if kept then live[1..] else live;
      OnlyDrops(feed[1..], rest);
      var r := Reconciled(feed[1..], rest);
      assert ([feed[0]] + r)[1..] == r;
    }
  }

  lemma {:induction false} ReportsOf(x: Input, rest: Feed)
    ensures Reports([x] + rest) == (if IsReport(x) then [x] else []) + Reports(rest)
  {
    assert ([x] + rest)[1..] == rest;
  }

  lemma {:induction false} KeepsReports(feed: Feed, live: seq<PromptMarkKind>)
    ensures Reports(Reconciled(feed, live)) == Reports(feed)
  {
    if feed != [] {
      var kept := feed[0].Mark? && live != [] && live[0] == feed[0].kind;
      var rest := if kept then live[1..] else live;
      KeepsReports(feed[1..], rest);
      ReportsOf(feed[0], Reconciled(feed[1..], rest));
    }
  }

  /** The result is the feed with marks dropped, and no report is lost or moved. */
  lemma {:induction false} KeepsOrder(feed: Feed, live: seq<PromptMarkKind>)
    ensures Subsequence(Reconciled(feed, live), feed)
    ensures Reports(Reconciled(feed, live)) == Reports(feed)
  {
    OnlyDrops(feed, live);
    KeepsReports(feed, live);
  }

  /** Greedy matching is optimal: it confirms the first `k` live marks, in order, exactly when those
      are a subsequence of the candidates. */
  lemma {:induction false} ConfirmsLongestPrefix(feed: Feed, live: seq<PromptMarkKind>, k: nat)
    requires k <= |live|
    ensures Marks(Reconciled(feed, live)) <= live
    ensures k <= |Marks(Reconciled(feed, live))| <==> Subsequence(live[..k], Marks(feed))
    decreases |feed|
  {
    if feed != [] {
      var r := Reconciled(feed, live);
      if feed[0].Mark? {
        assert Marks(feed)[1..] == Marks(feed[1..]);
        if live != [] && live[0] == feed[0].kind {
          assert r[1..] == Reconciled(feed[1..], live[1..]);
          ConfirmsLongestPrefix(feed[1..], live[1..], if k == 0 then 0 else k - 1);
          if k > 0 {
            assert live[..k][1..] == live[1..][..k - 1];
            if Subsequence(live[..k], Marks(feed[1..])) {
              DropFirst(live[..k], Marks(feed[1..]));
            }
          }
        } else {
          ConfirmsLongestPrefix(feed[1..], live, k);
        }
      } else {
        assert r[1..] == Reconciled(feed[1..], live);
        assert Marks(feed) == Marks(feed[1..]);
        ConfirmsLongestPrefix(feed[1..], live, k);
      }
    }
  }

  /** All live marks are confirmed, in order, exactly when they are a subsequence of the candidates. */
  lemma {:induction false} ConfirmsAll(feed: Feed, live: seq<PromptMarkKind>)
    ensures Marks(Reconciled(feed, live)) == live <==> Subsequence(live, Marks(feed))
  {
    ConfirmsLongestPrefix(feed, live, |live|);
    assert live[..|live|] == live;
  }
}
