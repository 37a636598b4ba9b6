/** The two circuit breakers, `CircuitBreaker` (adapter_concurrency.py) and
    `AsyncCircuitBreaker` (adapter_resource_manager.py), written separately and
    proved to be the same machine. */
module CircuitBreakers {
  import opened Common

  datatype State = Closed | Open | HalfOpen

  datatype Config = Config(failureThreshold: nat, successThreshold: nat, recoveryTimeout: real, jitter: real)

  predicate ValidConfig(c: Config) {
    1 <= c.failureThreshold && 1 <= c.successThreshold && 0.0 <= c.recoveryTimeout && 0.0 <= c.jitter <= 1.0
  }

  datatype Breaker = Breaker(
    state: State, failureCount: nat, successCount: nat, totalCalls: nat, totalTimeouts: nat,
    lastFailure: Option<real>, changedAt: real)

  function Initial(now: real): Breaker {
    Breaker(Closed, 0, 0, 0, 0, None, now)
  }

  /** One atomic step of either breaker. A call is an `Admit` and, any time later and after
      any number of other steps, one of the three outcomes; `jitter` is the random draw of an
      admission check. */
  datatype Event =
    | Admit(now: real, jitter: real)
    | Success(now: real)
    | Failure(now: real)
    | Timeout(now: real)

  predicate IsFailure(e: Event) { e.Failure? || e.Timeout? }

  // ---------- CircuitBreaker ----------

  function SyncAllow(c: Config, b: Breaker, now: real): (Breaker, bool) {
    if b.state == Open then
      if b.lastFailure.Some? && now - b.lastFailure.value >= c.recoveryTimeout then
        (b.(state := HalfOpen, changedAt := now, successCount := 0), true)
      else (b, false)
    else (b, true)
  }

  function SyncClose(b: Breaker, now: real): Breaker {
    b.(state := Closed, changedAt := now, failureCount := 0, successCount := 0)
  }

  function SyncSuccess(c: Config, b: Breaker, now: real): Breaker {
    var b1 := b.(totalCalls := b.totalCalls + 1, successCount := b.successCount + 1);
    match b1.state
    case HalfOpen => if b1.successCount >= c.successThreshold then SyncClose(b1, now) else b1
    case Closed => b1.(failureCount := 0)
    case Open => b1
  }

  function SyncFailure(c: Config, b: Breaker, now: real): Breaker {
    var b1 := b.(totalCalls := b.totalCalls + 1, failureCount := b.failureCount + 1, lastFailure := Some(now));
    match b1.state
    case Closed => if b1.failureCount >= c.failureThreshold then b1.(state := Open, changedAt := now) else b1
    case HalfOpen => b1.(state := Open, changedAt := now)
    case Open => b1
  }

  function SyncTimeout(c: Config, b: Breaker, now: real): Breaker {
    SyncFailure(c, b.(totalTimeouts := b.totalTimeouts + 1), now)
  }

  function SyncStep(c: Config, b: Breaker, e: Event): (Breaker, bool) {
    match e
    case Admit(now, _) => SyncAllow(c, b, now)
    case Success(now) => (SyncSuccess(c, b, now), true)
    case Failure(now) => (SyncFailure(c, b, now), true)
    case Timeout(now) => (SyncTimeout(c, b, now), true)
  }

  /** The breaker after the first `i` events of a run. */
  function SyncAt(c: Config, t0: real, es: seq<Event>, i: nat): Breaker
    requires i <= |es|
  {
    if i == 0 then Initial(t0) else SyncStep(c, SyncAt(c, t0, es, i - 1), es[i - 1]).0
  }

  class CircuitBreaker {
    const failureThreshold: nat
    const recoveryTimeout: real
    const successThreshold: nat
    var state: State
    var failureCount: nat
    var successCount: nat
    var totalCalls: nat
    var totalTimeouts: nat
    var lastFailureTime: Option<real>
    var stateChangedAt: real

    ghost function Cfg(): Config { Config(failureThreshold, successThreshold, recoveryTimeout, 0.0) }

    ghost function Abs(): Breaker
      reads this
    {
      Breaker(state, failureCount, successCount, totalCalls, totalTimeouts, lastFailureTime, stateChangedAt)
    }

    constructor (failureThreshold: nat, recoveryTimeout: real, successThreshold: nat, now: real)
      ensures Abs() == Initial(now)
      ensures Cfg() == Config(failureThreshold, successThreshold, recoveryTimeout, 0.0)
    {
      this.failureThreshold := failureThreshold;
      this.recoveryTimeout := recoveryTimeout;
      this.successThreshold := successThreshold;
      state, failureCount, successCount := Closed, 0, 0;
      totalCalls, totalTimeouts := 0, 0;
      lastFailureTime, stateChangedAt := None, now;
    }

    method TransitionToOpen(now: real)
      modifies this
      ensures Abs() == old(Abs()).(state := Open, changedAt := now)
    {
      state := Open;
      stateChangedAt := now;
    }

    method TransitionToClosed(now: real)
      modifies this
      ensures Abs() == old(Abs()).(state := Closed, changedAt := now, failureCount := 0, successCount := 0)
    {
      state := Closed;
      stateChangedAt := now;
      failureCount := 0;
      successCount := 0;
    }

    method TransitionToHalfOpen(now: real)
      modifies this
      ensures Abs() == old(Abs()).(state := HalfOpen, changedAt := now, successCount := 0)
    {
      state := HalfOpen;
      stateChangedAt := now;
      successCount := 0;
    }

    method RecordSuccess(now: real)
      modifies this
      ensures Abs() == SyncSuccess(Cfg(), old(Abs()), now)
    {
      totalCalls := totalCalls + 1;
      successCount := successCount + 1;
      if state == HalfOpen {
        if successCount >= successThreshold {
          TransitionToClosed(now);
        }
      } else if state == Closed {
        failureCount := 0;
      }
    }

    method RecordFailure(now: real)
      modifies this
      ensures Abs() == SyncFailure(Cfg(), old(Abs()), now)
    {
      totalCalls := totalCalls + 1;
      failureCount := failureCount + 1;
      lastFailureTime := Some(now);
      if state == Closed {
        if failureCount >= failureThreshold {
          TransitionToOpen(now);
        }
      } else if state == HalfOpen {
        TransitionToOpen(now);
      }
    }

    method RecordTimeout(now: real)
      modifies this
      ensures Abs() == SyncTimeout(Cfg(), old(Abs()), now)
    {
      totalTimeouts := totalTimeouts + 1;
      totalCalls := totalCalls + 1;
      failureCount := failureCount + 1;
      lastFailureTime := Some(now);
      if state == Closed {
        if failureCount >= failureThreshold {
          TransitionToOpen(now);
        }
      } else if state == HalfOpen {
        TransitionToOpen(now);
      }
    }

    method ShouldAllowRequest(now: real) returns (allowed: bool)
      modifies this
      ensures (Abs(), allowed) == SyncAllow(Cfg(), old(Abs()), now)
    {
      if state == Open {
        if lastFailureTime.Some? {
          var elapsed := now - lastFailureTime.value;
          if elapsed >= recoveryTimeout {
            TransitionToHalfOpen(now);
            return true;
          }
        }
        return false;
      }
      return true;
    }
  }

  // ---------- AsyncCircuitBreaker ----------

  function ShouldReset(c: Config, b: Breaker, now: real, jitter: real): bool {
    b.lastFailure.None? || now - b.lastFailure.value >= c.recoveryTimeout + jitter
  }

  function AsyncAdmit(c: Config, b: Breaker, now: real, jitter: real): (Breaker, bool) {
    if b.state == Open then
      if ShouldReset(c, b, now, jitter) then (b.(state := HalfOpen, changedAt := now, successCount := 0), true)
      else (b, false)
    else (b, true)
  }

  function AsyncSuccess(c: Config, b: Breaker, now: real): Breaker {
    var b1 := b.(totalCalls := b.totalCalls + 1);
    match b1.state
    case HalfOpen =>
      var b2 := b1.(successCount := b1.successCount + 1);
      if b2.successCount >= c.successThreshold then b2.(state := Closed, changedAt := now, failureCount := 0) else b2
    case Closed => b1.(failureCount := 0)
    case Open => b1
  }

  function AsyncFailure(c: Config, b: Breaker, now: real): Breaker {
    var b1 := b.(totalCalls := b.totalCalls + 1, failureCount := b.failureCount + 1, lastFailure := Some(now));
    if (b1.state == Closed && b1.failureCount >= c.failureThreshold) || b1.state == HalfOpen then
      b1.(state := Open, changedAt := now)
    else b1
  }

  function AsyncStep(c: Config, b: Breaker, e: Event): (Breaker, bool) {
    match e
    case Admit(now, jitter) => AsyncAdmit(c, b, now, jitter)
    case Success(now) => (AsyncSuccess(c, b, now), true)
    case Failure(now) => (AsyncFailure(c, b, now), true)
    case Timeout(now) => (AsyncFailure(c, b.(totalTimeouts := b.totalTimeouts + 1), now), true)
  }

  function AsyncAt(c: Config, t0: real, es: seq<Event>, i: nat): Breaker
    requires i <= |es|
  {
    if i == 0 then Initial(t0) else AsyncStep(c, AsyncAt(c, t0, es, i - 1), es[i - 1]).0
  }

  class AsyncCircuitBreaker {
    const config: Config
    var state: State
    var failureCount: nat
    var successCount: nat
    var totalCalls: nat
    var totalTimeouts: nat
    var lastFailureTime: Option<real>
    var stateChangedAt: real

    ghost function Abs(): Breaker
      reads this
    {
      Breaker(state, failureCount, successCount, totalCalls, totalTimeouts, lastFailureTime, stateChangedAt)
    }

    constructor (config: Config, now: real)
      ensures Abs() == Initial(now) && this.config == config
    {
      this.config := config;
      state, failureCount, successCount := Closed, 0, 0;
      totalCalls, totalTimeouts := 0, 0;
      lastFailureTime, stateChangedAt := None, now;
    }

    /** The locked section at the head of `call`; a refusal is the CircuitBreakerError. */
    method Enter(now: real, jitter: real) returns (allowed: bool)
      modifies this
      ensures (Abs(), allowed) == AsyncAdmit(config, old(Abs()), now, jitter)
    {
      if state == Open {
        if lastFailureTime.None? || now - lastFailureTime.value >= config.recoveryTimeout + jitter {
          state := HalfOpen;
          stateChangedAt := now;
          successCount := 0;
        } else {
          return false;
        }
      }
      return true;
    }

    method OnSuccess(now: real)
      modifies this
      ensures Abs() == AsyncSuccess(config, old(Abs()), now)
    {
      totalCalls := totalCalls + 1;
      if state == HalfOpen {
        successCount := successCount + 1;
        if successCount >= config.successThreshold {
          state := Closed;
          stateChangedAt := now;
          failureCount := 0;
        }
      } else if state == Closed {
        failureCount := 0;
      }
    }

    method OnFailure(now: real)
      modifies this
      ensures Abs() == AsyncFailure(config, old(Abs()), now)
    {
      totalCalls := totalCalls + 1;
      failureCount := failureCount + 1;
      lastFailureTime := Some(now);
      if (state == Closed && failureCount >= config.failureThreshold) || state == HalfOpen {
        state := Open;
        stateChangedAt := now;
      }
    }

    /** The TimeoutError handler of `call`: the counter, then the failure path. */
    method OnTimeout(now: real)
      modifies this
      ensures Abs() == AsyncStep(config, old(Abs()), Timeout(now)).0
    {
      totalTimeouts := totalTimeouts + 1;
      OnFailure(now);
    }
  }

  // ---------- Runs ----------

  /** Jitter draws lie in the configured range. */
  ghost predicate JitterInRange(c: Config, es: seq<Event>) {
    forall i :: 0 <= i < |es| && es[i].Admit? ==>
      -(c.recoveryTimeout * c.jitter) <= es[i].jitter <= c.recoveryTimeout * c.jitter
  }

  ghost predicate Monotone(es: seq<Event>) {
    forall i, k :: 0 <= i <= k < |es| ==> es[i].now <= es[k].now
  }

  function CountSuccesses(es: seq<Event>, lo: nat, hi: nat): nat
    requires lo <= hi <= |es|
  {
    if lo == hi then 0 else CountSuccesses(es, lo, hi - 1) + if es[hi - 1].Success? then 1 else 0
  }

  function CountFailures(es: seq<Event>, lo: nat, hi: nat): nat
    requires lo <= hi <= |es|
  {
    if lo == hi then 0 else CountFailures(es, lo, hi - 1) + if IsFailure(es[hi - 1]) then 1 else 0
  }

  function CountTimeouts(es: seq<Event>, lo: nat, hi: nat): nat
    requires lo <= hi <= |es|
  {
    if lo == hi then 0 else CountTimeouts(es, lo, hi - 1) + if es[hi - 1].Timeout? then 1 else 0
  }

  ghost predicate AllIn(c: Config, t0: real, es: seq<Event>, lo: nat, hi: nat, s: State)
    requires hi < |es| + 1
  {
    forall k :: lo <= k <= hi ==> AsyncAt(c, t0, es, k).state == s
  }

  /** What the two breakers agree on: everything but `success_count`, and that too while probing. */
  predicate Agree(s: Breaker, a: Breaker) {
    && s.(successCount := 0) == a.(successCount := 0)
    && (s.state == HalfOpen ==> s.successCount == a.successCount)
    && (s.state == Open ==> s.lastFailure.Some?)
  }

  lemma AgreeStep(c: Config, s: Breaker, a: Breaker, e: Event)
    requires ValidConfig(c) && Agree(s, a) && (e.Admit? ==> e.jitter == 0.0)
    ensures Agree(SyncStep(c, s, e).0, AsyncStep(c, a, e).0)
    ensures SyncStep(c, s, e).1 == AsyncStep(c, a, e).1
  {
  }

  lemma NoJitter(c: Config, es: seq<Event>, i: nat)
    requires c.jitter == 0.0 && JitterInRange(c, es) && i < |es|
    ensures es[i].Admit? ==> es[i].jitter == 0.0
  {
  }

  /** With no jitter the two breakers are the same machine: on every run they agree after every
      step, and give the same answer to every admission check. */
  lemma {:induction false} Bisimilar(c: Config, t0: real, es: seq<Event>, i: nat)
    requires ValidConfig(c) && c.jitter == 0.0 && JitterInRange(c, es) && i <= |es|
    ensures Agree(SyncAt(c, t0, es, i), AsyncAt(c, t0, es, i))
    ensures i < |es| ==>
              SyncStep(c, SyncAt(c, t0, es, i), es[i]).1 == AsyncStep(c, AsyncAt(c, t0, es, i), es[i]).1
    decreases i
  {
    hide SyncStep, AsyncStep, ValidConfig, JitterInRange;
    if i > 0 {
      Bisimilar(c, t0, es, i - 1);
      NoJitter(c, es, i - 1);
      AgreeStep(c, SyncAt(c, t0, es, i - 1), AsyncAt(c, t0, es, i - 1), es[i - 1]);
    }
    if i < |es| {
      NoJitter(c, es, i);
      AgreeStep(c, SyncAt(c, t0, es, i), AsyncAt(c, t0, es, i), es[i]);
    }
  }

  lemma SameState(c: Config, t0: real, es: seq<Event>, i: nat)
    requires ValidConfig(c) && c.jitter == 0.0 && JitterInRange(c, es) && i <= |es|
    ensures SyncAt(c, t0, es, i).state == AsyncAt(c, t0, es, i).state
  {
    hide SyncAt, AsyncAt, ValidConfig, JitterInRange;
    Bisimilar(c, t0, es, i);
  }

  /** They do keep `success_count` differently: one success in CLOSED separates them. */
  lemma SuccessCountsDiffer(c: Config, t0: real)
    ensures SyncAt(c, t0, [Success(t0)], 1).successCount == 1
    ensures AsyncAt(c, t0, [Success(t0)], 1).successCount == 0
  {
    assert SyncAt(c, t0, [Success(t0)], 0) == AsyncAt(c, t0, [Success(t0)], 0) == Initial(t0);
  }

  /** `total_calls` counts completed calls and `total_timeouts` the timed-out ones. */
  lemma {:induction false} TotalsCountOutcomes(c: Config, t0: real, es: seq<Event>, i: nat)
    requires i <= |es|
    ensures AsyncAt(c, t0, es, i).totalCalls == CountSuccesses(es, 0, i) + CountFailures(es, 0, i)
    ensures AsyncAt(c, t0, es, i).totalTimeouts == CountTimeouts(es, 0, i)
  {
    if i > 0 {
      TotalsCountOutcomes(c, t0, es, i - 1);
    }
  }

  /** `last_failure_time` is the time of the latest failure, late ones while OPEN included, and
      `state_changed_at` that of the latest change of state. */
  lemma TimestampsExact(c: Config, t0: real, es: seq<Event>, i: nat)
    requires i < |es|
    ensures var b, b' := AsyncAt(c, t0, es, i), AsyncAt(c, t0, es, i + 1);
            && b'.lastFailure == (if IsFailure(es[i]) then Some(es[i].now) else b.lastFailure)
            && b'.changedAt == if b'.state != b.state then es[i].now else b.changedAt
  {
    assert AsyncAt(c, t0, es, i + 1) == AsyncStep(c, AsyncAt(c, t0, es, i), es[i]).0;
  }

  /** Event `m` is the latest failure among the first `i`. */
  ghost predicate LatestFailure(es: seq<Event>, m: nat, i: nat)
    requires i <= |es|
  {
    m < i && (es[m].Failure? || es[m].Timeout?) && forall k :: m < k < i ==> es[k].Admit? || es[k].Success?
  }

  lemma {:induction false} LastFailureIsLatest(c: Config, t0: real, es: seq<Event>, m: nat, i: nat)
    requires i <= |es| && LatestFailure(es, m, i)
    ensures AsyncAt(c, t0, es, i).lastFailure == Some(es[m].now)
    ensures SyncAt(c, t0, es, i).lastFailure == Some(es[m].now)
  {
    if m < i - 1 {
      LastFailureIsLatest(c, t0, es, m, i - 1);
    }
  }

  /** An admission is refused exactly when the breaker is OPEN and the recovery time, moved by the draw,
      has not passed since the latest failure; admitted in OPEN it moves the breaker to HALF_OPEN, and
      otherwise nothing changes. */
  lemma AdmissionExactly(c: Config, t0: real, es: seq<Event>, m: nat, i: nat)
    requires i < |es| && es[i].Admit? && LatestFailure(es, m, i)
    ensures var b, b' := AsyncAt(c, t0, es, i), AsyncAt(c, t0, es, i + 1);
            var refused := b.state == Open && es[i].now - es[m].now < c.recoveryTimeout + es[i].jitter;
            && (AsyncStep(c, b, es[i]).1 <==> !refused)
            && b' == if b.state == Open && !refused then b.(state := HalfOpen, changedAt := es[i].now, successCount := 0)
                     else b
  {
    LastFailureIsLatest(c, t0, es, m, i);
  }

  /** The same of `CircuitBreaker`, without jitter. */
  lemma SyncAdmissionExactly(c: Config, t0: real, es: seq<Event>, m: nat, i: nat)
    requires i < |es| && es[i].Admit? && LatestFailure(es, m, i)
    ensures var b, b' := SyncAt(c, t0, es, i), SyncAt(c, t0, es, i + 1);
            var refused := b.state == Open && es[i].now - es[m].now < c.recoveryTimeout;
            && (SyncStep(c, b, es[i]).1 <==> !refused)
            && b' == if b.state == Open && !refused then b.(state := HalfOpen, changedAt := es[i].now, successCount := 0)
                     else b
  {
    LastFailureIsLatest(c, t0, es, m, i);
  }

  /** Before any failure both breakers are CLOSED and admit everything. */
  lemma {:induction false} ClosedBeforeFailure(c: Config, t0: real, es: seq<Event>, i: nat)
    requires i <= |es| && forall k :: 0 <= k < i ==> es[k].Admit? || es[k].Success?
    ensures AsyncAt(c, t0, es, i).state == SyncAt(c, t0, es, i).state == Closed
    ensures i < |es| ==> AsyncStep(c, AsyncAt(c, t0, es, i), es[i]).1 && SyncStep(c, SyncAt(c, t0, es, i), es[i]).1
  {
    if i > 0 {
      ClosedBeforeFailure(c, t0, es, i - 1);
    }
  }

  /** Events [h, i) are the trailing run of CLOSED with no success in it: it starts at the
      beginning, where the breaker closed, or just after a success. */
  ghost predicate TrailingRun(c: Config, t0: real, es: seq<Event>, h: nat, i: nat)
    requires i <= |es|
  {
    && h <= i
    && AllIn(c, t0, es, h, i, Closed)
    && (forall k :: h <= k < i ==> !es[k].Success?)
    && (h == 0 || AsyncAt(c, t0, es, h - 1).state != Closed || es[h - 1].Success?)
  }

  /** Every CLOSED moment has its trailing run. */
  lemma {:induction false} TrailingRunExists(c: Config, t0: real, es: seq<Event>, i: nat) returns (h: nat)
    requires i <= |es| && AsyncAt(c, t0, es, i).state == Closed
    ensures TrailingRun(c, t0, es, h, i)
  {
    if i == 0 || AsyncAt(c, t0, es, i - 1).state != Closed || es[i - 1].Success? {
      h := i;
    } else {
      h := TrailingRunExists(c, t0, es, i - 1);
    }
  }

  /** In CLOSED, `failure_count` is the number of failures since the last success or close, and
      is below the threshold. */
  lemma {:induction false} FailureCountIsTrailingRun(c: Config, t0: real, es: seq<Event>, h: nat, i: nat)
    requires ValidConfig(c) && i <= |es| && TrailingRun(c, t0, es, h, i)
    ensures AsyncAt(c, t0, es, i).failureCount == CountFailures(es, h, i) < c.failureThreshold
  {
    if h < i {
      assert AsyncAt(c, t0, es, i - 1).state == Closed;
      FailureCountIsTrailingRun(c, t0, es, h, i - 1);
      assert AsyncAt(c, t0, es, i).state == Closed;
    } else if h > 0 {
      assert AsyncAt(c, t0, es, h).state == Closed;
    }
  }

  /** From CLOSED the breaker opens exactly when the trailing failure run reaches the threshold. */
  lemma OpensExactlyAtThreshold(c: Config, t0: real, es: seq<Event>, h: nat, i: nat)
    requires ValidConfig(c) && i < |es| && TrailingRun(c, t0, es, h, i)
    ensures AsyncAt(c, t0, es, i + 1).state ==
            if !es[i].Success? && CountFailures(es, h, i + 1) == c.failureThreshold then Open else Closed
  {
    FailureCountIsTrailingRun(c, t0, es, h, i);
    assert AsyncAt(c, t0, es, i).state == Closed;
  }

  /** Events [h, i) all happened within one HALF_OPEN stay, entered by an admission from OPEN. */
  ghost predicate Stay(c: Config, t0: real, es: seq<Event>, h: nat, i: nat)
    requires i <= |es|
  {
    1 <= h <= i && AsyncAt(c, t0, es, h - 1).state == Open && AllIn(c, t0, es, h, i, HalfOpen)
  }

  lemma {:induction false} StayExists(c: Config, t0: real, es: seq<Event>, i: nat) returns (h: nat)
    requires i <= |es| && AsyncAt(c, t0, es, i).state == HalfOpen
    ensures Stay(c, t0, es, h, i)
  {
    if AsyncAt(c, t0, es, i - 1).state == Open {
      h := i;
    } else {
      h := StayExists(c, t0, es, i - 1);
    }
  }

  lemma {:induction false} SuccessCountInStay(c: Config, t0: real, es: seq<Event>, h: nat, i: nat)
    requires ValidConfig(c) && i <= |es| && Stay(c, t0, es, h, i)
    ensures AsyncAt(c, t0, es, i).successCount == CountSuccesses(es, h, i) < c.successThreshold
    ensures CountFailures(es, h, i) == 0
  {
    assert AsyncAt(c, t0, es, i).state == HalfOpen;
    if h < i {
      assert AsyncAt(c, t0, es, i - 1).state == HalfOpen;
      SuccessCountInStay(c, t0, es, h, i - 1);
    }
  }

  /** The whole transition table out of HALF_OPEN, in terms of the stay's own events. */
  lemma LeavesHalfOpenExactly(c: Config, t0: real, es: seq<Event>, h: nat, i: nat)
    requires ValidConfig(c) && i < |es| && Stay(c, t0, es, h, i)
    ensures AsyncAt(c, t0, es, i + 1).state ==
            if IsFailure(es[i]) then Open
            else if CountSuccesses(es, h, i + 1) == c.successThreshold then Closed
            else HalfOpen
  {
    SuccessCountInStay(c, t0, es, h, i);
    assert AsyncAt(c, t0, es, i).state == HalfOpen;
  }

  /** The breaker returns to CLOSED only after `success_threshold` successes and no failure
      within one HALF_OPEN stay. */
  lemma ClosesOnlyAfterProbe(c: Config, t0: real, es: seq<Event>, i: nat) returns (h: nat)
    requires ValidConfig(c) && i < |es|
    requires AsyncAt(c, t0, es, i).state != Closed && AsyncAt(c, t0, es, i + 1).state == Closed
    ensures Stay(c, t0, es, h, i)
    ensures CountSuccesses(es, h, i + 1) == c.successThreshold && CountFailures(es, h, i + 1) == 0
  {
    h := StayExists(c, t0, es, i);
    LeavesHalfOpenExactly(c, t0, es, h, i);
    SuccessCountInStay(c, t0, es, h, i);
  }

  // ---------- The same of CircuitBreaker ----------

  ghost predicate SyncAllIn(c: Config, t0: real, es: seq<Event>, lo: nat, hi: nat, s: State)
    requires hi < |es| + 1
  {
    forall k :: lo <= k <= hi ==> SyncAt(c, t0, es, k).state == s
  }

  ghost predicate SyncTrailingRun(c: Config, t0: real, es: seq<Event>, h: nat, i: nat)
    requires i <= |es|
  {
    && h <= i
    && SyncAllIn(c, t0, es, h, i, Closed)
    && (forall k :: h <= k < i ==> !es[k].Success?)
    && (h == 0 || SyncAt(c, t0, es, h - 1).state != Closed || es[h - 1].Success?)
  }

  ghost predicate SyncStay(c: Config, t0: real, es: seq<Event>, h: nat, i: nat)
    requires i <= |es|
  {
    1 <= h <= i && SyncAt(c, t0, es, h - 1).state == Open && SyncAllIn(c, t0, es, h, i, HalfOpen)
  }

  /** A `CircuitBreaker` has no jitter. */
  ghost predicate Unjittered(c: Config, es: seq<Event>) {
    ValidConfig(c) && c.jitter == 0.0 && JitterInRange(c, es)
  }

  lemma SameStates(c: Config, t0: real, es: seq<Event>)
    requires Unjittered(c, es)
    ensures forall k: nat :: k <= |es| ==> SyncAt(c, t0, es, k).state == AsyncAt(c, t0, es, k).state
  {
    hide SyncAt, AsyncAt, ValidConfig, JitterInRange;
    forall k: nat | k <= |es| ensures SyncAt(c, t0, es, k).state == AsyncAt(c, t0, es, k).state {
      SameState(c, t0, es, k);
    }
  }

  lemma SameStretches(c: Config, t0: real, es: seq<Event>, h: nat, i: nat)
    requires Unjittered(c, es) && i <= |es|
    ensures SyncTrailingRun(c, t0, es, h, i) <==> TrailingRun(c, t0, es, h, i)
    ensures SyncStay(c, t0, es, h, i) <==> Stay(c, t0, es, h, i)
  {
    hide SyncAt, AsyncAt, Unjittered;
    SameStates(c, t0, es);
    assert forall s :: SyncAllIn(c, t0, es, h, i, s) <==> AllIn(c, t0, es, h, i, s);
  }

  /** In CLOSED, `failure_count` is the length of the trailing failure run, below the threshold, and
      the next event opens the breaker if and only if it is a failure that reaches it. */
  lemma SyncOpensExactlyAtThreshold(c: Config, t0: real, es: seq<Event>, h: nat, i: nat)
    requires Unjittered(c, es) && i < |es| && SyncTrailingRun(c, t0, es, h, i)
    ensures SyncAt(c, t0, es, i).failureCount == CountFailures(es, h, i) < c.failureThreshold
    ensures SyncAt(c, t0, es, i + 1).state ==
            if !es[i].Success? && CountFailures(es, h, i + 1) == c.failureThreshold then Open else Closed
  {
    hide SyncAt, AsyncAt, JitterInRange;
    SameStretches(c, t0, es, h, i);
    Bisimilar(c, t0, es, i);
    FailureCountIsTrailingRun(c, t0, es, h, i);
    OpensExactlyAtThreshold(c, t0, es, h, i);
    SameState(c, t0, es, i + 1);
  }

  lemma SyncTrailingRunExists(c: Config, t0: real, es: seq<Event>, i: nat) returns (h: nat)
    requires Unjittered(c, es) && i <= |es| && SyncAt(c, t0, es, i).state == Closed
    ensures SyncTrailingRun(c, t0, es, h, i)
  {
    SameStates(c, t0, es);
    h := TrailingRunExists(c, t0, es, i);
    SameStretches(c, t0, es, h, i);
  }

  lemma SyncLeavesHalfOpenExactly(c: Config, t0: real, es: seq<Event>, h: nat, i: nat)
    requires Unjittered(c, es) && i < |es| && SyncStay(c, t0, es, h, i)
    ensures SyncAt(c, t0, es, i + 1).state ==
            if IsFailure(es[i]) then Open
            else if CountSuccesses(es, h, i + 1) == c.successThreshold then Closed
            else HalfOpen
  {
    hide SyncAt, AsyncAt, JitterInRange;
    SameStretches(c, t0, es, h, i);
    LeavesHalfOpenExactly(c, t0, es, h, i);
    SameState(c, t0, es, i + 1);
  }

  /** It returns to CLOSED only after `success_threshold` successes and no failure within one
      HALF_OPEN stay. */
  lemma SyncClosesOnlyAfterProbe(c: Config, t0: real, es: seq<Event>, i: nat) returns (h: nat)
    requires Unjittered(c, es) && i < |es|
    requires SyncAt(c, t0, es, i).state != Closed && SyncAt(c, t0, es, i + 1).state == Closed
    ensures SyncStay(c, t0, es, h, i)
    ensures CountSuccesses(es, h, i + 1) == c.successThreshold && CountFailures(es, h, i + 1) == 0
  {
    hide SyncAt, AsyncAt, JitterInRange;
    SameState(c, t0, es, i);
    SameState(c, t0, es, i + 1);
    h := ClosesOnlyAfterProbe(c, t0, es, i);
    SameStretches(c, t0, es, h, i);
  }

  // ---------- What the two success counts hold ----------

  /** Event `j` moved `CircuitBreaker` into CLOSED or HALF_OPEN. */
  ghost predicate Resets(c: Config, t0: real, es: seq<Event>, j: nat)
    requires j < |es|
  {
    var before, after := SyncAt(c, t0, es, j).state, SyncAt(c, t0, es, j + 1).state;
    before != after && after != Open
  }

  ghost predicate SinceReset(c: Config, t0: real, es: seq<Event>, h: nat, i: nat)
    requires i <= |es|
  {
    h <= i && (h == 0 || Resets(c, t0, es, h - 1)) && forall j :: h <= j < i ==> !Resets(c, t0, es, j)
  }

  lemma {:induction false} SinceResetExists(c: Config, t0: real, es: seq<Event>, i: nat) returns (h: nat)
    requires i <= |es|
    ensures SinceReset(c, t0, es, h, i)
  {
    hide SyncAt;
    if i == 0 || Resets(c, t0, es, i - 1) {
      h := i;
    } else {
      h := SinceResetExists(c, t0, es, i - 1);
    }
  }

  lemma SuccessCountStep(c: Config, b: Breaker, e: Event)
    ensures var b' := SyncStep(c, b, e).0;
            b'.successCount == if b'.state != b.state && b'.state != Open then 0
                               else b.successCount + if e.Success? then 1 else 0
  {
  }

  /** In any state, `CircuitBreaker` counts the successes since it last entered CLOSED or HALF_OPEN,
      late ones in OPEN included. */
  lemma {:induction false} SyncSuccessCountExactly(c: Config, t0: real, es: seq<Event>, h: nat, i: nat)
    requires i <= |es| && SinceReset(c, t0, es, h, i)
    ensures SyncAt(c, t0, es, i).successCount == CountSuccesses(es, h, i)
    decreases i
  {
    hide SyncStep;
    if i > 0 {
      SuccessCountStep(c, SyncAt(c, t0, es, i - 1), es[i - 1]);
      assert SyncAt(c, t0, es, i) == SyncStep(c, SyncAt(c, t0, es, i - 1), es[i - 1]).0;
      if h < i {
        assert !Resets(c, t0, es, i - 1);
        SyncSuccessCountExactly(c, t0, es, h, i - 1);
      } else {
        assert Resets(c, t0, es, i - 1);
      }
    }
  }

  /** `AsyncCircuitBreaker` keeps, outside HALF_OPEN, the number of successes of its last stay. */
  lemma {:induction false} AsyncSuccessCountExactly(c: Config, t0: real, es: seq<Event>, h: nat, m: nat, i: nat)
    requires ValidConfig(c) && m < i <= |es| && Stay(c, t0, es, h, m)
    requires forall k :: m < k <= i ==> AsyncAt(c, t0, es, k).state != HalfOpen
    ensures AsyncAt(c, t0, es, i).successCount == CountSuccesses(es, h, m + 1)
    decreases i
  {
    assert AsyncAt(c, t0, es, i).state != HalfOpen;
    if i > m + 1 {
      assert AsyncAt(c, t0, es, i - 1).state != HalfOpen;
      AsyncSuccessCountExactly(c, t0, es, h, m, i - 1);
    } else {
      assert AsyncAt(c, t0, es, m).state == HalfOpen;
      SuccessCountInStay(c, t0, es, h, m);
    }
  }

  /** And 0 before the first stay. */
  lemma {:induction false} AsyncSuccessCountBeforeProbe(c: Config, t0: real, es: seq<Event>, i: nat)
    requires i <= |es| && forall k: nat :: k <= i ==> AsyncAt(c, t0, es, k).state != HalfOpen
    ensures AsyncAt(c, t0, es, i).successCount == 0
    decreases i
  {
    assert AsyncAt(c, t0, es, i).state != HalfOpen;
    if i > 0 {
      assert AsyncAt(c, t0, es, i - 1).state != HalfOpen;
      AsyncSuccessCountBeforeProbe(c, t0, es, i - 1);
    }
  }

  // ---------- Flapping ----------

  ghost predicate OpensAt(c: Config, t0: real, es: seq<Event>, i: nat)
    requires i < |es|
  {
    AsyncAt(c, t0, es, i).state != Open && AsyncAt(c, t0, es, i + 1).state == Open
  }

  /** From an entry into OPEN on, the last failure is never earlier than that entry. */
  lemma {:induction false} LastFailureAfterEntry(c: Config, t0: real, es: seq<Event>, i: nat, m: nat)
    requires i < m <= |es| && Monotone(es) && OpensAt(c, t0, es, i)
    ensures AsyncAt(c, t0, es, m).lastFailure.Some? && AsyncAt(c, t0, es, m).lastFailure.value >= es[i].now
  {
    if i + 1 < m {
      LastFailureAfterEntry(c, t0, es, i, m - 1);
    }
  }

  /** Leaving OPEN after an entry takes at least the shortest jittered recovery time. */
  lemma {:induction false} RecoveryBefore(c: Config, t0: real, es: seq<Event>, i: nat, m: nat)
    requires ValidConfig(c) && JitterInRange(c, es) && Monotone(es)
    requires i < m < |es| && OpensAt(c, t0, es, i) && AsyncAt(c, t0, es, m).state != Open
    ensures es[m].now - es[i].now >= (1.0 - c.jitter) * c.recoveryTimeout
  {
    assert i + 1 < m;
    if AsyncAt(c, t0, es, m - 1).state == Open {
      LastFailureAfterEntry(c, t0, es, i, m - 1);
      assert (1.0 - c.jitter) * c.recoveryTimeout == c.recoveryTimeout - c.recoveryTimeout * c.jitter;
      assert es[m - 1].now <= es[m].now;
    } else {
      RecoveryBefore(c, t0, es, i, m - 1);
      assert es[m - 1].now <= es[m].now;
    }
  }

  /** Consecutive, indeed any two, entries into OPEN are at least (1 - jitter) * recovery_timeout
      apart, whatever failures arrive while OPEN. */
  lemma EntriesFarApart(c: Config, t0: real, es: seq<Event>, i: nat, k: nat)
    requires ValidConfig(c) && JitterInRange(c, es) && Monotone(es)
    requires i < k < |es| && OpensAt(c, t0, es, i) && OpensAt(c, t0, es, k)
    ensures es[k].now - es[i].now >= (1.0 - c.jitter) * c.recoveryTimeout
  {
    RecoveryBefore(c, t0, es, i, k);
  }

  /** The same for `CircuitBreaker`, whose recovery time has no jitter. */
  lemma SyncEntriesFarApart(c: Config, t0: real, es: seq<Event>, i: nat, k: nat)
    requires ValidConfig(c) && c.jitter == 0.0 && JitterInRange(c, es) && Monotone(es) && i < k < |es|
    requires SyncAt(c, t0, es, i).state != Open && SyncAt(c, t0, es, i + 1).state == Open
    requires SyncAt(c, t0, es, k).state != Open && SyncAt(c, t0, es, k + 1).state == Open
    ensures es[k].now - es[i].now >= c.recoveryTimeout
  {
    hide SyncAt, AsyncAt, ValidConfig, JitterInRange, Monotone;
    SameState(c, t0, es, i);
    SameState(c, t0, es, i + 1);
    SameState(c, t0, es, k);
    SameState(c, t0, es, k + 1);
    EntriesFarApart(c, t0, es, i, k);
  }

  ghost function Openings(c: Config, t0: real, es: seq<Event>, n: nat): nat
    requires n <= |es|
  {
    if n == 0 then 0 else Openings(c, t0, es, n - 1) + if OpensAt(c, t0, es, n - 1) then 1 else 0
  }

  ghost predicate EntriesApart(c: Config, t0: real, es: seq<Event>, gap: real) {
    forall i, k :: 0 <= i < k < |es| && OpensAt(c, t0, es, i) && OpensAt(c, t0, es, k) ==>
      es[k].now - es[i].now >= gap
  }

  ghost function Gaps(n: nat, gap: real): real {
    if n == 0 then 0.0 else Gaps(n - 1, gap) + gap
  }

  lemma {:induction false} GapsIsProduct(n: nat, gap: real)
    ensures Gaps(n, gap) == n as real * gap
  {
    if n > 0 {
      GapsIsProduct(n - 1, gap);
      assert n as real == (n - 1) as real + 1.0;
      assert n as real * gap == (n - 1) as real * gap + gap;
    }
  }

  /** The last entry among the first `n` events, and the time the entries before it used up. */
  lemma {:induction false} OpeningsSpread(c: Config, t0: real, es: seq<Event>, gap: real, n: nat) returns (last: nat)
    requires Monotone(es) && EntriesApart(c, t0, es, gap)
    requires n <= |es| && Openings(c, t0, es, n) > 0
    ensures last < n && OpensAt(c, t0, es, last)
    ensures Gaps(Openings(c, t0, es, n) - 1, gap) <= es[last].now - es[0].now
  {
    hide AsyncAt, OpensAt;
    if !OpensAt(c, t0, es, n - 1) {
      last := OpeningsSpread(c, t0, es, gap, n - 1);
    } else {
      last := n - 1;
      var before := Openings(c, t0, es, n - 1);
      if before > 0 {
        var prev := OpeningsSpread(c, t0, es, gap, n - 1);
        assert es[last].now - es[prev].now >= gap;
      }
    }
  }

  lemma RunCoversGaps(c: Config, t0: real, es: seq<Event>, gap: real)
    requires Monotone(es) && |es| > 0 && EntriesApart(c, t0, es, gap)
    ensures es[|es| - 1].now - es[0].now >= 0.0
    ensures Openings(c, t0, es, |es|) > 0 ==>
              Gaps(Openings(c, t0, es, |es|) - 1, gap) <= es[|es| - 1].now - es[0].now
  {
    if Openings(c, t0, es, |es|) > 0 {
      var last := OpeningsSpread(c, t0, es, gap, |es|);
      assert es[last].now <= es[|es| - 1].now;
    }
  }

  lemma DivideBound(x: real, d: real, length: real)
    requires d > 0.0 && x * d <= length
    ensures x <= length / d
  {
    var q := length / d;
    assert q * d == length;
    assert (q - x) * d >= 0.0;
  }

  lemma GapsToCount(n: nat, gap: real, length: real)
    requires gap > 0.0 && length >= 0.0 && (n > 0 ==> Gaps(n - 1, gap) <= length)
    ensures n as real <= 1.0 + length / gap
  {
    if n > 0 {
      GapsIsProduct(n - 1, gap);
      DivideBound((n - 1) as real, gap, length);
    } else {
      DivideBound(0.0, gap, length);
    }
  }

  /** Flapping bound: a run enters OPEN at most 1 + length / ((1 - jitter) * recovery_timeout) times. */
  lemma FlappingBound(c: Config, t0: real, es: seq<Event>, gap: real)
    requires ValidConfig(c) && JitterInRange(c, es) && Monotone(es)
    requires |es| > 0 && gap == (1.0 - c.jitter) * c.recoveryTimeout && gap > 0.0
    ensures Openings(c, t0, es, |es|) as real <= 1.0 + (es[|es| - 1].now - es[0].now) / gap
  {
    hide AsyncAt, OpensAt;
    forall i, k | 0 <= i < k < |es| && OpensAt(c, t0, es, i) && OpensAt(c, t0, es, k)
      ensures es[k].now - es[i].now >= gap
    {
      EntriesFarApart(c, t0, es, i, k);
    }
    RunCoversGaps(c, t0, es, gap);
    GapsToCount(Openings(c, t0, es, |es|), gap, es[|es| - 1].now - es[0].now);
  }
}
