/** Retry with exponential backoff (adapter_retry_utils.py). */
module RetryUtils {
  import opened Common

  datatype Config = Config(
    maxAttempts: nat, baseDelayMs: nat, maxDelayMs: nat, multiplier: real, jitter: bool, retryable: seq<string>)

  predicate ValidConfig(c: Config) { c.maxAttempts >= 1 && c.multiplier >= 1.0 }

  // ---------- Which exceptions are retried ----------

  predicate OccursAt(s: string, t: string, i: nat) {
    i + |t| <= |s| && s[i..i + |t|] == t
  }

  predicate Contains(s: string, t: string) {
    exists i :: 0 <= i <= |s| && OccursAt(s, t, i)
  }

  predicate Retryable(name: string, retryable: seq<string>) {
    exists k :: 0 <= k < |retryable| && Contains(name, retryable[k])
  }

  /** Being part of a name, said of concatenations. */
  lemma ContainsExactly(s: string, t: string)
    ensures Contains(s, t) <==> exists a: string, b: string :: s == a + t + b
  {
    if Contains(s, t) {
      var i :| 0 <= i <= |s| && OccursAt(s, t, i);
      assert s == s[..i] + t + s[i + |t|..];
    }
    if a: string, b: string :| s == a + t + b {
      assert OccursAt(s, t, |a|);
    }
  }

  /** Is some listed name a substring of the exception's name? */
  method IsRetryableException(name: string, retryable: seq<string>) returns (r: bool)
    ensures r <==> Retryable(name, retryable)
  {
    if name in retryable {
      assert OccursAt(name, name, 0);
      return true;
    }
    for i := 0 to |retryable|
      invariant forall k :: 0 <= k < i ==> !Contains(name, retryable[k])
    {
      if Contains(name, retryable[i]) {
        return true;
      }
    }
    return false;
  }

  // ---------- Delays ----------

  function Pow(b: real, n: nat): real {
    if n == 0 then 1.0 else b * Pow(b, n - 1)
  }

  function Uncapped(attempt: int, c: Config): real
    requires attempt >= 2
  {
    c.baseDelayMs as real * Pow(c.multiplier, attempt - 2)
  }

  /** The capped exponential delay before jitter and truncation. */
  function RawDelay(attempt: int, c: Config): real
    requires attempt >= 2
  {
    MinReal(Uncapped(attempt, c), c.maxDelayMs as real)
  }

  /** `draw` is the random variation, used only when jitter is on. */
  function CalculateDelay(attempt: int, c: Config, draw: real): int {
    if attempt <= 1 then 0
    else if c.jitter then MaxReal(0.0, RawDelay(attempt, c) + draw).Floor
    else RawDelay(attempt, c).Floor
  }

  ghost predicate DrawInRange(attempt: int, c: Config, draw: real) {
    attempt >= 2 ==> -0.25 * RawDelay(attempt, c) <= draw <= 0.25 * RawDelay(attempt, c)
  }

  lemma Scale(b: real, x: real)
    requires b >= 1.0 && x >= 0.0
    ensures b * x >= x
  {
    assert (b - 1.0) * x >= 0.0;
  }

  lemma {:induction false} PowGrows(b: real, m: nat, n: nat)
    requires b >= 1.0 && m <= n
    ensures 1.0 <= Pow(b, m) <= Pow(b, n)
    decreases n
  {
    if m < n {
      PowGrows(b, m, n - 1);
      Scale(b, Pow(b, n - 1));
    } else if n > 0 {
      PowGrows(b, n - 1, n - 1);
      Scale(b, Pow(b, n - 1));
    }
  }

  lemma TimesMonotone(a: real, x: real, y: real)
    requires a >= 0.0 && x <= y
    ensures a * x <= a * y
  {
    assert a * (y - x) >= 0.0;
  }

  lemma CapMonotone(x: real, y: real, cap: real)
    requires 0.0 <= x <= y && 0.0 <= cap
    ensures 0.0 <= MinReal(x, cap) <= MinReal(y, cap) <= cap
  {
  }

  lemma RawDelayGrows(m: int, n: int, c: Config)
    requires ValidConfig(c) && 2 <= m <= n
    ensures 0.0 <= RawDelay(m, c) <= RawDelay(n, c) <= c.maxDelayMs as real
  {
    hide Pow, MinReal;
    var x, y := Pow(c.multiplier, m - 2), Pow(c.multiplier, n - 2);
    PowGrows(c.multiplier, m - 2, n - 2);
    TimesMonotone(c.baseDelayMs as real, 0.0, x);
    TimesMonotone(c.baseDelayMs as real, x, y);
    CapMonotone(c.baseDelayMs as real * x, c.baseDelayMs as real * y, c.maxDelayMs as real);
  }

  /** The delay before whole milliseconds are taken, step by step: the base at the second attempt, then
      the multiplier times the one before, and never more than the maximum. */
  function Backoff(attempt: nat, c: Config): real
    requires attempt >= 2
  {
    MinReal(c.maxDelayMs as real,
            if attempt == 2 then c.baseDelayMs as real else c.multiplier * Backoff(attempt - 1, c))
  }

  lemma MinCommutes(x: real, y: real)
    ensures MinReal(x, y) == MinReal(y, x)
  {
  }

  lemma BothCapped(x: real, y: real, cap: real)
    requires x >= cap && y >= cap
    ensures MinReal(cap, x) == cap == MinReal(y, cap)
  {
  }

  lemma SameProduct(m: real, x: real, y: real)
    requires x == y
    ensures m * x == m * y
  {
  }

  lemma CappedTimes(m: real, x: real, cap: real)
    requires m >= 1.0 && cap >= 0.0
    ensures MinReal(cap, m * MinReal(x, cap)) == MinReal(m * x, cap)
  {
    if x > cap {
      SameProduct(m, MinReal(x, cap), cap);
      TimesMonotone(m, cap, x);
      Scale(m, cap);
      BothCapped(m * MinReal(x, cap), m * x, cap);
    } else {
      SameProduct(m, MinReal(x, cap), x);
      MinCommutes(cap, m * x);
    }
  }

  lemma Associate(x: real, b: real, y: real)
    ensures x * (b * y) == b * (x * y)
  {
  }

  lemma PowStep(b: real, x: real, n: nat)
    ensures x * Pow(b, n + 1) == b * (x * Pow(b, n))
  {
    Associate(x, b, Pow(b, n));
  }

  lemma UncappedStep(attempt: int, c: Config)
    requires attempt >= 2
    ensures Uncapped(attempt + 1, c) == c.multiplier * Uncapped(attempt, c)
  {
    PowStep(c.multiplier, c.baseDelayMs as real, attempt - 2);
  }

  lemma RawDelayStep(attempt: int, c: Config)
    requires ValidConfig(c) && attempt >= 2
    ensures RawDelay(attempt + 1, c) == MinReal(c.maxDelayMs as real, c.multiplier * RawDelay(attempt, c))
  {
    hide Uncapped, MinReal;
    UncappedStep(attempt, c);
    CappedTimes(c.multiplier, Uncapped(attempt, c), c.maxDelayMs as real);
  }

  lemma RawDelayFirst(c: Config)
    ensures RawDelay(2, c) == MinReal(c.maxDelayMs as real, c.baseDelayMs as real)
  {
    assert Pow(c.multiplier, 0) == 1.0;
  }

  lemma {:induction false} RawDelayIsBackoff(attempt: nat, c: Config)
    requires ValidConfig(c) && attempt >= 2
    ensures RawDelay(attempt, c) == Backoff(attempt, c)
  {
    hide RawDelay, MinReal;
    if attempt == 2 {
      RawDelayFirst(c);
    } else {
      RawDelayIsBackoff(attempt - 1, c);
      RawDelayStep(attempt - 1, c);
    }
  }

  /** The delay before an attempt: none before the first; the whole part of the step-by-step delay, moved
      by the draw if jitter is on, and never below 0. */
  lemma DelayExactly(attempt: int, c: Config, draw: real)
    requires ValidConfig(c)
    ensures attempt <= 1 ==> CalculateDelay(attempt, c, draw) == 0
    ensures attempt == 2 && !c.jitter ==>
              CalculateDelay(attempt, c, draw) == if c.baseDelayMs <= c.maxDelayMs then c.baseDelayMs else c.maxDelayMs
    ensures attempt >= 2 ==>
              var exact := Backoff(attempt, c) + if c.jitter then draw else 0.0;
              var delay := CalculateDelay(attempt, c, draw);
              if exact < 0.0 then delay == 0 else delay as real <= exact < delay as real + 1.0
  {
    if attempt >= 2 {
      RawDelayIsBackoff(attempt, c);
    }
  }

  /** Un-jittered delays never decrease with the attempt number. */
  lemma DelaysNonDecreasing(m: int, n: int, c: Config, d: real, e: real)
    requires ValidConfig(c) && !c.jitter && m <= n
    ensures 0 <= CalculateDelay(m, c, d) <= CalculateDelay(n, c, e) <= c.maxDelayMs
  {
    if n >= 2 {
      RawDelayGrows(MaxInt(m, 2), n, c);
    }
  }

  /** Any delay, jittered or not, is at most a quarter above the maximum. */
  lemma DelayBounded(attempt: int, c: Config, draw: real)
    requires ValidConfig(c) && DrawInRange(attempt, c, draw)
    ensures 0 <= CalculateDelay(attempt, c, draw)
    ensures CalculateDelay(attempt, c, draw) as real <= 1.25 * c.maxDelayMs as real
  {
    if attempt >= 2 {
      RawDelayGrows(attempt, attempt, c);
    }
  }

  // ---------- The loop ----------

  datatype Outcome<T> = Success(value: T) | Failure(error: string)

  datatype AttemptInfo = AttemptInfo(number: nat, delayMs: int, error: Option<string>)

  /** The loop ends with an invocation that succeeds or fails beyond retry. */
  predicate Final<T>(c: Config, o: Outcome<T>) {
    o.Success? || !Retryable(o.error, c.retryable)
  }

  /** What is recorded of attempt `k`. */
  function Info<T>(operation: nat -> Outcome<T>, draw: nat -> real, c: Config, k: nat): AttemptInfo {
    AttemptInfo(k, CalculateDelay(k, c, draw(k)),
                match operation(k) case Success(_) => None case Failure(e) => Some(e))
  }

  ghost predicate Records<T>(operation: nat -> Outcome<T>, draw: nat -> real, c: Config, attempts: seq<AttemptInfo>) {
    forall k :: 0 <= k < |attempts| ==> attempts[k] == Info(operation, draw, c, k + 1)
  }

  /** `operation(k)` is what the k-th invocation does and `draw(k)` the jitter drawn before it.
      The operation is invoked up to the first final outcome, or `max_attempts` times, and its
      last outcome is returned or raised. */
  method RetryWithBackoff<T>(operation: nat -> Outcome<T>, draw: nat -> real, c: Config)
    returns (result: Outcome<T>, attempts: seq<AttemptInfo>)
    requires ValidConfig(c)
    ensures 1 <= |attempts| <= c.maxAttempts
    ensures forall k: nat :: 1 <= k < |attempts| ==> !Final(c, operation(k))
    ensures |attempts| == c.maxAttempts || Final(c, operation(|attempts|))
    ensures result == operation(|attempts|)
    ensures Records(operation, draw, c, attempts)
  {
    attempts := [];
    var lastException: Option<string> := None;
    var attempt := 1;
    while attempt <= c.maxAttempts
      invariant 1 <= attempt <= c.maxAttempts && |attempts| == attempt - 1
      invariant forall k: nat :: 1 <= k < attempt ==> !Final(c, operation(k))
      invariant Records(operation, draw, c, attempts)
      decreases c.maxAttempts - attempt
    {
      var delayMs := CalculateDelay(attempt, c, draw(attempt));
      attempts := attempts + [AttemptInfo(attempt, delayMs, None)];
      match operation(attempt) {
        case Success(_) =>
          return operation(attempt), attempts;
        case Failure(e) =>
          lastException := Some(e);
          attempts := attempts[attempt - 1 := attempts[attempt - 1].(error := Some(e))];
          var retryable := IsRetryableException(e, c.retryable);
          if attempt < c.maxAttempts && retryable {
            attempt := attempt + 1;
            continue;
          }
          break;
      }
    }
    result := Failure(lastException.value);
  }

  function TotalSleep(attempts: seq<AttemptInfo>): int {
    if attempts == [] then 0
    else TotalSleep(attempts[..|attempts| - 1]) + attempts[|attempts| - 1].delayMs
  }

  ghost function Multiple(n: nat, x: real): real {
    if n == 0 then 0.0 else Multiple(n - 1, x) + x
  }

  lemma {:induction false} MultipleIsProduct(n: nat, x: real)
    ensures Multiple(n, x) == n as real * x
  {
    if n > 0 {
      MultipleIsProduct(n - 1, x);
      assert n as real * x == (n - 1) as real * x + x;
    }
  }

  lemma {:induction false} SleepWithin<T>(
      operation: nat -> Outcome<T>, draw: nat -> real, c: Config, attempts: seq<AttemptInfo>, limit: real)
    requires ValidConfig(c) && forall k: nat :: DrawInRange(k, c, draw(k))
    requires Records(operation, draw, c, attempts) && attempts != [] && limit == 1.25 * c.maxDelayMs as real
    ensures TotalSleep(attempts) as real <= Multiple(|attempts| - 1, limit)
  {
    var n := |attempts| - 1;
    if n > 0 {
      SleepWithin(operation, draw, c, attempts[..n], limit);
      assert DrawInRange(n + 1, c, draw(n + 1));
      DelayBounded(n + 1, c, draw(n + 1));
    }
  }

  /** Any recorded run of the loop sleeps at most (invocations - 1) * 1.25 * `max_delay_ms`. */
  lemma {:induction false} TotalSleepBounded<T>(
      operation: nat -> Outcome<T>, draw: nat -> real, c: Config, attempts: seq<AttemptInfo>, limit: real)
    requires ValidConfig(c) && forall k: nat :: DrawInRange(k, c, draw(k))
    requires Records(operation, draw, c, attempts) && attempts != [] && limit == 1.25 * c.maxDelayMs as real
    ensures TotalSleep(attempts) as real <= (|attempts| - 1) as real * limit
  {
    SleepWithin(operation, draw, c, attempts, limit);
    MultipleIsProduct(|attempts| - 1, limit);
  }
}
