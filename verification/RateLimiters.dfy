/** `RateLimiter` (adapter_health_manager.py): a sliding window kept as a pruned list of
    admission times per identifier. */
module RateLimiters {
  import opened Common

  /** The entries later than `cutoff`, in order. */
  function After(log: seq<real>, cutoff: real): seq<real> {
    if log == [] then []
    else
      var n := |log| - 1;
      After(log[..n], cutoff) + if log[n] > cutoff then [log[n]] else []
  }

  function Get(requests: map<string, seq<real>>, id: string): seq<real> {
    if id in requests then requests[id] else []
  }

  // ---------- The code ----------

  /** One `is_allowed` call: the list is pruned whatever the answer. */
  function Allow(max: int, window: real, requests: map<string, seq<real>>, id: string, now: real)
    : (map<string, seq<real>>, bool)
  {
    var recent := After(Get(requests, id), now - window);
    if |recent| >= max then (requests[id := recent], false)
    else (requests[id := recent + [now]], true)
  }

  class RateLimiter {
    const maxRequests: int
    const windowSeconds: real
    var requests: map<string, seq<real>>

    constructor (maxRequests: int, windowSeconds: real)
      ensures this.maxRequests == maxRequests && this.windowSeconds == windowSeconds && requests == map[]
    {
      this.maxRequests, this.windowSeconds, requests := maxRequests, windowSeconds, map[];
    }

    method IsAllowed(identifier: string, now: real) returns (allowed: bool)
      modifies this
      ensures (requests, allowed) == Allow(maxRequests, windowSeconds, old(requests), identifier, now)
    {
      if identifier !in requests {
        requests := requests[identifier := []];
      }
      var cutoffTime := now - windowSeconds;
      var kept: seq<real> := [];
      var all := requests[identifier];
      for i := 0 to |all|
        invariant kept == After(all[..i], cutoffTime)
      {
        assert all[..i + 1][..i] == all[..i];
        if all[i] > cutoffTime {
          kept := kept + [all[i]];
        }
      }
      assert all[..|all|] == all;
      requests := requests[identifier := kept];
      assert requests == old(requests)[identifier := kept];
      if |requests[identifier]| >= maxRequests {
        return false;
      }
      requests := requests[identifier := requests[identifier] + [now]];
      assert requests == old(requests)[identifier := kept + [now]];
      return true;
    }
  }

  // ---------- Reference: the full admission log ----------

  datatype Call = Call(id: string, now: real)

  /** The admissions of `id` among the first `n` calls, when nothing is ever pruned and each call
      is decided by counting the log over the window ending at it. */
  function FullLog(max: int, window: real, calls: seq<Call>, n: nat, id: string): seq<real>
    requires n <= |calls|
  {
    if n == 0 then []
    else
      var log := FullLog(max, window, calls, n - 1, id);
      if calls[n - 1].id == id && FullDecision(max, window, calls, n - 1) then log + [calls[n - 1].now] else log
  }

  function FullDecision(max: int, window: real, calls: seq<Call>, n: nat): bool
    requires n < |calls|
  {
    var log := FullLog(max, window, calls, n, calls[n].id);
    |After(log, calls[n].now - window)| < max
  }

  function Requests(max: int, window: real, calls: seq<Call>, n: nat): map<string, seq<real>>
    requires n <= |calls|
  {
    if n == 0 then map[]
    else Allow(max, window, Requests(max, window, calls, n - 1), calls[n - 1].id, calls[n - 1].now).0
  }

  function Decision(max: int, window: real, calls: seq<Call>, n: nat): bool
    requires n < |calls|
  {
    Allow(max, window, Requests(max, window, calls, n), calls[n].id, calls[n].now).1
  }

  ghost predicate Monotone(calls: seq<Call>) {
    forall i, k :: 0 <= i <= k < |calls| ==> calls[i].now <= calls[k].now
  }

  lemma AfterAppend(log: seq<real>, x: real, c: real)
    ensures After(log + [x], c) == After(log, c) + if x > c then [x] else []
  {
    assert (log + [x])[..|log|] == log;
  }

  lemma {:induction false} AfterAfter(log: seq<real>, c: real, d: real)
    requires c <= d
    ensures After(After(log, c), d) == After(log, d)
  {
    if log != [] {
      var n := |log| - 1;
      AfterAfter(log[..n], c, d);
      if log[n] > c {
        AfterAppend(After(log[..n], c), log[n], d);
      } else {
        assert After(log, c) == After(log[..n], c);
      }
    }
  }

  /** What one call leaves of its identifier's list. */
  function Pruned(before: seq<real>, now: real, window: real, allowed: bool): seq<real> {
    After(before, now - window) + if allowed then [now] else []
  }

  lemma RequestsStep(max: int, window: real, calls: seq<Call>, n: nat, id: string)
    requires 0 < n <= |calls|
    ensures calls[n - 1].id != id ==>
              Get(Requests(max, window, calls, n), id) == Get(Requests(max, window, calls, n - 1), id)
    ensures calls[n - 1].id == id ==>
              Get(Requests(max, window, calls, n), id) ==
              Pruned(Get(Requests(max, window, calls, n - 1), id), calls[n - 1].now, window,
                     Decision(max, window, calls, n - 1))
  {
  }

  lemma FullLogStep(max: int, window: real, calls: seq<Call>, n: nat, id: string, allowed: bool)
    requires 0 < n <= |calls| && calls[n - 1].id == id && allowed == FullDecision(max, window, calls, n - 1)
    ensures var log := FullLog(max, window, calls, n - 1, id);
            FullLog(max, window, calls, n, id) == if allowed then log + [calls[n - 1].now] else log
  {
  }

  lemma PruneStep(before: seq<real>, log: seq<real>, now: real, window: real, cutoff: real, allowed: bool)
    requires now - window <= cutoff && After(before, cutoff) == After(log, cutoff)
    ensures After(Pruned(before, now, window, allowed), cutoff) == After(if allowed then log + [now] else log, cutoff)
  {
    var earlier := now - window;
    AfterAfter(before, earlier, cutoff);
    if allowed {
      AfterAppend(After(before, earlier), now, cutoff);
      AfterAppend(log, now, cutoff);
    } else {
      assert Pruned(before, now, window, allowed) == After(before, earlier);
    }
  }

  /** Pruning is invisible: the pruned list is always the full log cut at some moment no later
      than any coming call's window, so every decision is the one counting over the full log. */
  lemma {:induction false} PrunedIsFull(max: int, window: real, calls: seq<Call>, n: nat, id: string, cutoff: real)
    requires Monotone(calls) && n <= |calls|
    requires forall i :: 0 <= i < n ==> calls[i].now - window <= cutoff
    ensures After(Get(Requests(max, window, calls, n), id), cutoff)
            == After(FullLog(max, window, calls, n, id), cutoff)
    decreases n, 0
  {
    hide After, Allow, Pruned, Decision, FullDecision;
    if n > 0 {
      PrunedIsFull(max, window, calls, n - 1, id, cutoff);
      RequestsStep(max, window, calls, n, id);
      SameDecision(max, window, calls, n - 1);
      if calls[n - 1].id == id {
        FullLogStep(max, window, calls, n, id, Decision(max, window, calls, n - 1));
        PruneStep(Get(Requests(max, window, calls, n - 1), id), FullLog(max, window, calls, n - 1, id),
                  calls[n - 1].now, window, cutoff, Decision(max, window, calls, n - 1));
      }
    }
  }

  lemma {:induction false} SameDecision(max: int, window: real, calls: seq<Call>, n: nat)
    requires Monotone(calls) && n < |calls|
    ensures Decision(max, window, calls, n) == FullDecision(max, window, calls, n)
    decreases n, 1
  {
    PrunedIsFull(max, window, calls, n, calls[n].id, calls[n].now - window);
  }

  // ---------- Every window ----------

  /** The number of admissions in the half-open window (lo, hi]. */
  function CountIn(log: seq<real>, lo: real, hi: real): nat {
    if log == [] then 0
    else
      var n := |log| - 1;
      CountIn(log[..n], lo, hi) + if lo < log[n] <= hi then 1 else 0
  }

  /** A log in time order where each admission found fewer than `max` in the window ending at it. */
  ghost predicate Spaced(max: int, window: real, log: seq<real>) {
    log == [] ||
    var front, last := log[..|log| - 1], log[|log| - 1];
    Spaced(max, window, front) && |After(front, last - window)| < max && forall x :: x in front ==> x <= last
  }

  lemma SpacedAppend(max: int, window: real, log: seq<real>, x: real)
    requires Spaced(max, window, log) && |After(log, x - window)| < max
    requires forall y :: y in log ==> y <= x
    ensures Spaced(max, window, log + [x])
  {
    assert (log + [x])[..|log|] == log;
  }

  lemma {:induction false} LogFacts(max: int, window: real, calls: seq<Call>, n: nat, id: string)
    requires Monotone(calls) && n <= |calls|
    ensures Spaced(max, window, FullLog(max, window, calls, n, id))
    ensures forall x :: x in FullLog(max, window, calls, n, id) ==> n > 0 && x <= calls[n - 1].now
  {
    if n > 0 {
      LogFacts(max, window, calls, n - 1, id);
      var log := FullLog(max, window, calls, n - 1, id);
      assert n > 1 ==> calls[n - 2].now <= calls[n - 1].now;
      if calls[n - 1].id == id && FullDecision(max, window, calls, n - 1) {
        SpacedAppend(max, window, log, calls[n - 1].now);
      }
    }
  }

  lemma {:induction false} CountWithin(log: seq<real>, lo: real, hi: real, cutoff: real)
    requires cutoff <= lo
    ensures CountIn(log, lo, hi) <= |After(log, cutoff)|
  {
    if log != [] {
      CountWithin(log[..|log| - 1], lo, hi, cutoff);
    }
  }

  lemma {:induction false} SpacedWindow(max: int, window: real, log: seq<real>, s: real)
    requires Spaced(max, window, log)
    ensures CountIn(log, s, s + window) <= MaxInt(0, max)
  {
    if log != [] {
      var n := |log| - 1;
      SpacedWindow(max, window, log[..n], s);
      if s < log[n] <= s + window {
        CountWithin(log[..n], s, s + window, log[n] - window);
      }
    }
  }

  /** The times at which the limiter itself said yes to `id`. */
  function Admitted(max: int, window: real, calls: seq<Call>, n: nat, id: string): seq<real>
    requires n <= |calls|
  {
    if n == 0 then []
    else
      Admitted(max, window, calls, n - 1, id)
      + if calls[n - 1].id == id && Decision(max, window, calls, n - 1) then [calls[n - 1].now] else []
  }

  lemma {:induction false} AdmittedIsFullLog(max: int, window: real, calls: seq<Call>, n: nat, id: string)
    requires Monotone(calls) && n <= |calls|
    ensures Admitted(max, window, calls, n, id) == FullLog(max, window, calls, n, id)
  {
    hide Decision, FullDecision;
    if n > 0 {
      AdmittedIsFullLog(max, window, calls, n - 1, id);
      SameDecision(max, window, calls, n - 1);
    }
  }

  /** Rate limiting holds for every window: in any run with non-decreasing time, whatever other
      identifiers do, any interval (s, s + window] holds at most `max_requests` admissions. */
  lemma EveryWindow(max: int, window: real, calls: seq<Call>, id: string, s: real)
    requires Monotone(calls)
    ensures CountIn(Admitted(max, window, calls, |calls|, id), s, s + window) <= MaxInt(0, max)
  {
    AdmittedIsFullLog(max, window, calls, |calls|, id);
    LogFacts(max, window, calls, |calls|, id);
    SpacedWindow(max, window, FullLog(max, window, calls, |calls|, id), s);
  }

  /** Cutting keeps exactly the later entries. */
  lemma {:induction false} AfterExactly(log: seq<real>, cutoff: real)
    ensures forall x :: x in After(log, cutoff) <==> x in log && x > cutoff
  {
    if log != [] {
      var n := |log| - 1;
      AfterExactly(log[..n], cutoff);
      assert log == log[..n] + [log[n]];
    }
  }

  lemma {:induction false} AfterIsCount(log: seq<real>, cutoff: real, hi: real)
    requires forall x :: x in log ==> x <= hi
    ensures |After(log, cutoff)| == CountIn(log, cutoff, hi)
  {
    if log != [] {
      var n := |log| - 1;
      assert log[n] in log && forall x :: x in log[..n] ==> x in log;
      AfterIsCount(log[..n], cutoff, hi);
    }
  }

  /** The limiter refuses exactly when `max_requests` of its own admissions of that identifier
      are later than `window` before now. */
  lemma RefusesExactly(max: int, window: real, calls: seq<Call>, n: nat)
    requires Monotone(calls) && n < |calls|
    ensures var admitted, now := Admitted(max, window, calls, n, calls[n].id), calls[n].now;
            !Decision(max, window, calls, n) <==> CountIn(admitted, now - window, now) >= max
  {
    var id, now := calls[n].id, calls[n].now;
    SameDecision(max, window, calls, n);
    AdmittedIsFullLog(max, window, calls, n, id);
    LogFacts(max, window, calls, n, id);
    assert n > 0 ==> calls[n - 1].now <= now;
    AfterIsCount(FullLog(max, window, calls, n, id), now - window, now);
  }

  /** What one call does to the lists: its identifier's list is cut to the window and, on yes, extended;
      no other list changes. */
  lemma AllowsExactly(max: int, window: real, requests: map<string, seq<real>>, id: string, now: real)
    ensures var (requests', allowed) := Allow(max, window, requests, id, now);
            && (allowed <==> |After(Get(requests, id), now - window)| < max)
            && id in requests'
            && (forall x :: x in requests'[id] <==>
                  (x in Get(requests, id) && x > now - window) || (allowed && x == now))
            && (forall other :: other != id ==>
                  (other in requests' <==> other in requests) && Get(requests', other) == Get(requests, other))
  {
    AfterExactly(Get(requests, id), now - window);
  }
}
