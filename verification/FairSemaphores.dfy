/** `FairSemaphore` (adapter_concurrency.py): an asyncio semaphore with bookkeeping kept in
    separate locked sections, so at any moment tasks are between the two. */
module FairSemaphores {
  import opened Common

  datatype Semaphore = Semaphore(
    inner: int, holders: map<nat, real>, available: int, waitingCount: int,
    acquisitions: nat, releases: nat, timeouts: nat, averageHold: real, maxHold: real)

  function Initial(value: nat): Semaphore {
    Semaphore(value, map[], value, 0, 0, 0, 0, 0.0, 0.0)
  }

  // ---------- The code, section by section ----------

  function RecordAcquired(s: Semaphore, id: nat, acquiredAt: real): Semaphore {
    s.(holders := s.holders[id := acquiredAt], waitingCount := s.waitingCount - 1,
       available := s.available - 1, acquisitions := s.acquisitions + 1)
  }

  function RecordTimeout(s: Semaphore): Semaphore {
    s.(waitingCount := s.waitingCount - 1, timeouts := s.timeouts + 1)
  }

  function Smoothing(releases: nat): real {
    MinReal(0.1, 2.0 / (releases + 1) as real)
  }

  /** The exponential moving average's step. */
  function Blend(alpha: real, average: real, sample: real): real {
    (1.0 - alpha) * average + alpha * sample
  }

  function RecordReleased(s: Semaphore, id: nat, hold: real): Semaphore {
    var n := s.releases + 1;
    s.(holders := s.holders - {id}, available := s.available + 1, releases := n,
       averageHold :=
         if n == 1 then hold else Blend(Smoothing(n), s.averageHold, hold),
       maxHold := MaxReal(s.maxHold, hold))
  }

  /** The fields of `FairSemaphore`; `inner` is the value of the wrapped asyncio semaphore. */
  class FairSemaphore {
    const totalPermits: nat
    var inner: int
    var activeHolders: map<nat, real>
    var availablePermits: int
    var waitingCount: int
    var totalAcquisitions: nat
    var totalReleases: nat
    var totalTimeouts: nat
    var averageHoldTime: real
    var maxHoldTime: real

    ghost function Abs(): Semaphore
      reads this
    {
      Semaphore(inner, activeHolders, availablePermits, waitingCount, totalAcquisitions,
                totalReleases, totalTimeouts, averageHoldTime, maxHoldTime)
    }

    constructor (value: nat)
      ensures totalPermits == value && Abs() == Initial(value)
    {
      totalPermits, inner, availablePermits := value, value, value;
      activeHolders, waitingCount := map[], 0;
      totalAcquisitions, totalReleases, totalTimeouts := 0, 0, 0;
      averageHoldTime, maxHoldTime := 0.0, 0.0;
    }

    method StartWaiting()
      modifies this
      ensures Abs() == old(Abs()).(waitingCount := old(waitingCount) + 1)
    {
      waitingCount := waitingCount + 1;
    }

    method Acquired(id: nat, acquiredAt: real)
      modifies this
      ensures Abs() == RecordAcquired(old(Abs()), id, acquiredAt)
    {
      activeHolders := activeHolders[id := acquiredAt];
      waitingCount := waitingCount - 1;
      availablePermits := availablePermits - 1;
      totalAcquisitions := totalAcquisitions + 1;
    }

    /** The TimeoutError handler, which also catches a TimeoutError raised by the body. */
    method TimedOut()
      modifies this
      ensures Abs() == RecordTimeout(old(Abs()))
    {
      waitingCount := waitingCount - 1;
      totalTimeouts := totalTimeouts + 1;
    }

    method Released(id: nat, acquiredAt: real, now: real)
      modifies this
      ensures Abs() == RecordReleased(old(Abs()), id, now - acquiredAt)
    {
      var holdTime := now - acquiredAt;
      activeHolders := activeHolders - {id};
      availablePermits := availablePermits + 1;
      totalReleases := totalReleases + 1;
      if totalReleases == 1 {
        averageHoldTime := holdTime;
      } else {
        var alpha := MinReal(0.1, 2.0 / (totalReleases + 1) as real);
        averageHoldTime := (1.0 - alpha) * averageHoldTime + alpha * holdTime;
      }
      maxHoldTime := MaxReal(maxHoldTime, holdTime);
    }
  }

  // ---------- The step system ----------

  /** The semaphore with its tasks: waiting for the inner permit; granted it but not recorded
      yet (with the acquisition time); recorded, that is, in `holders` and in the body; and
      recorded as released but still to give the inner permit back. */
  datatype World = World(
    sem: Semaphore, waiting: set<nat>, granted: map<nat, real>, leaving: set<nat>, seen: set<nat>,
    holds: seq<real>, bodyTimeouts: nat)

  datatype Event =
    | Arrive(id: nat)
    | TakePermit(id: nat, now: real)
    | WaitTimeout(id: nat)
    | Record(id: nat)
    | Finish(id: nat, now: real, timedOut: bool)
    | GiveBack(id: nat)

  predicate Enabled(w: World, e: Event) {
    match e
    case Arrive(id) => id !in w.seen
    case TakePermit(id, _) => id in w.waiting && w.sem.inner > 0
    case WaitTimeout(id) => id in w.waiting
    case Record(id) => id in w.granted
    case Finish(id, _, _) => id in w.sem.holders
    case GiveBack(id) => id in w.leaving
  }

  function Step(w: World, e: Event): World
    requires Enabled(w, e)
  {
    match e
    case Arrive(id) =>
      w.(sem := w.sem.(waitingCount := w.sem.waitingCount + 1), waiting := w.waiting + {id}, seen := w.seen + {id})
    case TakePermit(id, now) =>
      w.(sem := w.sem.(inner := w.sem.inner - 1), waiting := w.waiting - {id}, granted := w.granted[id := now])
    case WaitTimeout(id) => w.(sem := RecordTimeout(w.sem), waiting := w.waiting - {id})
    case Record(id) => w.(sem := RecordAcquired(w.sem, id, w.granted[id]), granted := w.granted - {id})
    case Finish(id, now, timedOut) =>
      var hold := now - w.sem.holders[id];
      w.(sem := RecordReleased(if timedOut then RecordTimeout(w.sem) else w.sem, id, hold),
         leaving := w.leaving + {id}, holds := w.holds + [hold],
         bodyTimeouts := w.bodyTimeouts + if timedOut then 1 else 0)
    case GiveBack(id) => w.(sem := w.sem.(inner := w.sem.inner + 1), leaving := w.leaving - {id})
  }

  ghost predicate Run(total: nat, ws: seq<World>, es: seq<Event>) {
    && |ws| == |es| + 1 && ws[0] == World(Initial(total), {}, map[], {}, {}, [], 0)
    && forall i :: 0 <= i < |es| ==> Enabled(ws[i], es[i]) && ws[i + 1] == Step(ws[i], es[i])
  }

  // ---------- What every step keeps ----------

  /** A task is in one place only. */
  ghost predicate Placed(w: World) {
    && (forall id :: id in w.waiting ==>
          id in w.seen && id !in w.granted && id !in w.sem.holders && id !in w.leaving)
    && (forall id :: id in w.granted ==> id in w.seen && id !in w.sem.holders && id !in w.leaving)
    && (forall id :: id in w.sem.holders ==> id in w.seen && id !in w.leaving)
    && (forall id :: id in w.leaving ==> id in w.seen)
  }

  ghost predicate Conserved(total: nat, w: World) {
    && 0 <= w.sem.inner
    && w.sem.inner + |w.granted| + |w.sem.holders| + |w.leaving| == total
    && w.sem.available == total - |w.sem.holders|
    && w.sem.acquisitions - w.sem.releases == |w.sem.holders|
    && w.sem.waitingCount == |w.waiting| + |w.granted| - w.bodyTimeouts
  }

  ghost predicate HoldInv(w: World) {
    && w.sem.releases == |w.holds|
    && (w.holds != [] ==> Least(w.holds) <= w.sem.averageHold <= Greatest(w.holds))
    && w.sem.maxHold == Largest(w.holds)
  }

  ghost predicate Inv(total: nat, w: World) { Placed(w) && Conserved(total, w) && HoldInv(w) }

  lemma Added(m: map<nat, real>, id: nat, x: real)
    requires id !in m
    ensures m[id := x].Keys == m.Keys + {id} && |m[id := x]| == |m| + 1
  {
  }

  lemma Removed(m: map<nat, real>, id: nat)
    requires id in m
    ensures (m - {id}).Keys == m.Keys - {id} && |m - {id}| == |m| - 1
  {
    assert (m - {id}).Keys == m.Keys - {id};
  }

  lemma Grows(s: set<nat>, id: nat)
    requires id !in s
    ensures |s + {id}| == |s| + 1
  {
  }

  lemma Shrinks(s: set<nat>, id: nat)
    requires id in s
    ensures |s - {id}| == |s| - 1
  {
  }

  lemma PlacedStep(w: World, e: Event)
    requires Placed(w) && Enabled(w, e)
    ensures Placed(Step(w, e))
  {
  }

  /** Recording a permit or its release moves one task between the places. */
  lemma RecordConserves(total: nat, w: World, e: Event)
    requires Placed(w) && Conserved(total, w) && Enabled(w, e) && (e.Record? || e.Finish?)
    ensures Conserved(total, Step(w, e))
  {
    if e.Record? {
      Removed(w.granted, e.id);
      Added(w.sem.holders, e.id, w.granted[e.id]);
    } else {
      Removed(w.sem.holders, e.id);
      Grows(w.leaving, e.id);
    }
  }

  /** The other steps touch the inner permits and the waiting tasks only. */
  lemma WaitConserves(total: nat, w: World, e: Event)
    requires Placed(w) && Conserved(total, w) && Enabled(w, e) && !e.Record? && !e.Finish?
    ensures Conserved(total, Step(w, e))
  {
    match e
    case Arrive(id) => Grows(w.waiting, id);
    case TakePermit(id, now) =>
      Shrinks(w.waiting, id);
      Added(w.granted, id, now);
    case WaitTimeout(id) => Shrinks(w.waiting, id);
    case GiveBack(id) => Shrinks(w.leaving, id);
  }

  lemma ConservedStep(total: nat, w: World, e: Event)
    requires Placed(w) && Conserved(total, w) && Enabled(w, e)
    ensures Conserved(total, Step(w, e))
  {
    hide Placed, Conserved, Enabled, Step;
    if e.Record? || e.Finish? {
      RecordConserves(total, w, e);
    } else {
      WaitConserves(total, w, e);
    }
  }

  lemma NonNegative(a: real, b: real)
    requires a >= 0.0 && b >= 0.0
    ensures a * b >= 0.0
  {
  }

  /** A convex combination stays between the extremes. */
  lemma Mix(a: real, x: real, y: real, lo: real, hi: real)
    requires 0.0 <= a <= 1.0 && lo <= x <= hi && lo <= y <= hi
    ensures lo <= Blend(a, x, y) <= hi
  {
    NonNegative(1.0 - a, x - lo);
    NonNegative(1.0 - a, hi - x);
    NonNegative(a, y - lo);
    NonNegative(a, hi - y);
    assert (1.0 - a) * x + a * y - lo == (1.0 - a) * (x - lo) + a * (y - lo);
    assert hi - ((1.0 - a) * x + a * y) == (1.0 - a) * (hi - x) + a * (hi - y);
  }

  lemma SmoothingRange(n: nat)
    ensures 0.0 <= Smoothing(n) <= 0.1
  {
  }

  lemma BlendMoves(a: real, x: real, y: real)
    ensures Blend(a, x, y) - x == a * (y - x)
  {
  }

  /** The weight of a new sample: 2 / (n + 1) from the 19th release on, and 0.1 before. */
  lemma SmoothingExactly(n: nat)
    ensures n <= 19 ==> Smoothing(n) == 0.1
    ensures n >= 19 ==> Smoothing(n) * (n + 1) as real == 2.0
  {
    var q := 2.0 / (n + 1) as real;
    assert q * (n + 1) as real == 2.0;
    if n <= 19 {
      assert (q - 0.1) * (n + 1) as real >= 0.0;
    } else {
      assert (0.1 - q) * (n + 1) as real >= 0.0;
    }
  }

  /** The first hold time is the average; each later one moves it by its weight towards that hold time. */
  lemma AverageExactly(s: Semaphore, id: nat, hold: real)
    ensures s.releases == 0 ==> RecordReleased(s, id, hold).averageHold == hold
    ensures s.releases > 0 ==>
              RecordReleased(s, id, hold).averageHold - s.averageHold ==
              Smoothing(s.releases + 1) * (hold - s.averageHold)
    ensures RecordReleased(s, id, hold).maxHold == if hold > s.maxHold then hold else s.maxHold
  {
    BlendMoves(Smoothing(s.releases + 1), s.averageHold, hold);
  }

  lemma BlendWithin(s: Semaphore, holds: seq<real>, id: nat, hold: real)
    requires holds != [] && s.releases == |holds| && Least(holds) <= s.averageHold <= Greatest(holds)
    ensures var average := RecordReleased(s, id, hold).averageHold;
            MinReal(Least(holds), hold) <= average <= MaxReal(Greatest(holds), hold)
  {
    var a, lo, hi := Smoothing(s.releases + 1), MinReal(Least(holds), hold), MaxReal(Greatest(holds), hold);
    SmoothingRange(s.releases + 1);
    assert 0.0 <= a <= 1.0;
    assert lo <= s.averageHold <= hi && lo <= hold <= hi;
    Mix(a, s.averageHold, hold, lo, hi);
  }

  lemma HoldStep(w: World, e: Event)
    requires HoldInv(w) && Enabled(w, e)
    ensures HoldInv(Step(w, e))
  {
    if e.Finish? {
      var hold := e.now - w.sem.holders[e.id];
      assert (w.holds + [hold])[..|w.holds|] == w.holds;
      if w.holds != [] {
        BlendWithin(if e.timedOut then RecordTimeout(w.sem) else w.sem, w.holds, e.id, hold);
      }
    }
  }

  lemma StepKeeps(total: nat, w: World, e: Event)
    requires Inv(total, w) && Enabled(w, e)
    ensures Inv(total, Step(w, e))
  {
    PlacedStep(w, e);
    ConservedStep(total, w, e);
    HoldStep(w, e);
  }

  lemma {:induction false} AlwaysInv(total: nat, ws: seq<World>, es: seq<Event>, i: nat)
    requires Run(total, ws, es) && i < |ws|
    ensures Inv(total, ws[i])
  {
    if i > 0 {
      AlwaysInv(total, ws, es, i - 1);
      StepKeeps(total, ws[i - 1], es[i - 1]);
    }
  }

  /** Permit conservation at every step of every interleaving, whatever the bodies do: the inner
      permits and the tasks holding one make up the total; the recorded permits follow the
      recorded holders; so the recorded number is never below the real one. */
  lemma PermitConservation(total: nat, ws: seq<World>, es: seq<Event>, i: nat)
    requires Run(total, ws, es) && i < |ws|
    ensures var s := ws[i].sem;
            && s.inner + |ws[i].granted| + |s.holders| + |ws[i].leaving| == total
            && s.available == total - |s.holders| == total - (s.acquisitions - s.releases)
            && 0 <= s.inner <= s.available <= total
  {
    AlwaysInv(total, ws, es, i);
  }

  lemma {:induction false} LargestIsGreatest(xs: seq<real>)
    requires xs != []
    ensures Largest(xs) == MaxReal(0.0, Greatest(xs))
  {
    if |xs| > 1 {
      LargestIsGreatest(xs[..|xs| - 1]);
    }
  }

  /** The smoothed average stays between the shortest and the longest hold observed, and
      `max_hold_time` is the longest. */
  lemma AverageWithinObserved(total: nat, ws: seq<World>, es: seq<Event>, i: nat)
    requires Run(total, ws, es) && i < |ws| && ws[i].holds != []
    ensures Least(ws[i].holds) <= ws[i].sem.averageHold <= Greatest(ws[i].holds)
    ensures ws[i].sem.maxHold == MaxReal(0.0, Greatest(ws[i].holds))
  {
    AlwaysInv(total, ws, es, i);
    LargestIsGreatest(ws[i].holds);
  }

  lemma {:induction false} BodyTimeoutsCounted(total: nat, ws: seq<World>, es: seq<Event>, i: nat)
    requires Run(total, ws, es) && i < |ws|
    ensures ws[i].bodyTimeouts == 0 <==> forall k :: 0 <= k < i ==> !(es[k].Finish? && es[k].timedOut)
  {
    if i > 0 {
      BodyTimeoutsCounted(total, ws, es, i - 1);
    }
  }

  lemma TimesStep(w: World, e: Event, id: nat)
    requires Enabled(w, e)
    ensures var w' := Step(w, e);
            && (id in w'.granted ==>
                  (id in w.granted && w'.granted[id] == w.granted[id]) || e == TakePermit(id, w'.granted[id]))
            && (id in w'.sem.holders ==>
                  || (id in w.sem.holders && w'.sem.holders[id] == w.sem.holders[id])
                  || (e == Record(id) && w'.sem.holders[id] == w.granted[id]))
  {
  }

  /** A granted permit carries the time it was taken. */
  lemma {:induction false} GrantedSince(total: nat, ws: seq<World>, es: seq<Event>, i: nat, id: nat) returns (m: nat)
    requires Run(total, ws, es) && i < |ws| && id in ws[i].granted
    ensures m < i && es[m] == TakePermit(id, ws[i].granted[id])
    decreases i
  {
    assert i > 0;
    m := i - 1;
    assert Enabled(ws[m], es[m]) && ws[i] == Step(ws[m], es[m]);
    TimesStep(ws[m], es[m], id);
    if es[m] != TakePermit(id, ws[i].granted[id]) {
      m := GrantedSince(total, ws, es, m, id);
    }
  }

  /** So does a recorded holder. */
  lemma {:induction false} HeldSince(total: nat, ws: seq<World>, es: seq<Event>, i: nat, id: nat) returns (m: nat)
    requires Run(total, ws, es) && i < |ws| && id in ws[i].sem.holders
    ensures m < i && es[m] == TakePermit(id, ws[i].sem.holders[id])
    decreases i
  {
    assert i > 0;
    m := i - 1;
    assert Enabled(ws[m], es[m]) && ws[i] == Step(ws[m], es[m]);
    TimesStep(ws[m], es[m], id);
    if id in ws[m].sem.holders && ws[i].sem.holders[id] == ws[m].sem.holders[id] {
      m := HeldSince(total, ws, es, m, id);
    } else {
      m := GrantedSince(total, ws, es, m, id);
    }
  }

  /** Every hold time is the time from taking the permit to the end of the body. */
  lemma HoldExactly(total: nat, ws: seq<World>, es: seq<Event>, k: nat) returns (m: nat)
    requires Run(total, ws, es) && k < |es| && es[k].Finish?
    ensures m < k && es[m].TakePermit? && es[m].id == es[k].id
    ensures ws[k + 1].holds == ws[k].holds + [es[k].now - es[m].now]
  {
    assert Enabled(ws[k], es[k]) && ws[k + 1] == Step(ws[k], es[k]);
    m := HeldSince(total, ws, es, k, es[k].id);
  }

  /** `waiting_count` is the number of tasks still waiting to be recorded exactly as long as no
      body has raised a TimeoutError; each one that did makes it one too small for ever. */
  lemma WaitingCountExactly(total: nat, ws: seq<World>, es: seq<Event>, i: nat)
    requires Run(total, ws, es) && i < |ws|
    ensures ws[i].sem.waitingCount == |ws[i].waiting| + |ws[i].granted|
            <==> forall k :: 0 <= k < i ==> !(es[k].Finish? && es[k].timedOut)
  {
    AlwaysInv(total, ws, es, i);
    BodyTimeoutsCounted(total, ws, es, i);
  }

  predicate IsTimeout(e: Event) { e.WaitTimeout? || (e.Finish? && e.timedOut) }

  ghost function TimeoutAt(es: seq<Event>): nat -> bool {
    (k: nat) => k < |es| && IsTimeout(es[k])
  }

  lemma TimeoutStep(w: World, e: Event)
    requires Enabled(w, e)
    ensures Step(w, e).sem.timeouts == w.sem.timeouts + if IsTimeout(e) then 1 else 0
  {
  }

  /** `total_timeouts` counts the waits given up and the bodies that raised a TimeoutError. */
  lemma {:induction false} TimeoutsCounted(total: nat, ws: seq<World>, es: seq<Event>, i: nat)
    requires Run(total, ws, es) && i < |ws|
    ensures ws[i].sem.timeouts == Count(TimeoutAt(es), i)
  {
    if i > 0 {
      TimeoutsCounted(total, ws, es, i - 1);
      TimeoutStep(ws[i - 1], es[i - 1]);
    }
  }

  // ---------- A witness run ----------

  lemma Extend(total: nat, ws: seq<World>, es: seq<Event>, e: Event)
    requires Run(total, ws, es) && Enabled(ws[|es|], e)
    ensures Run(total, ws + [Step(ws[|es|], e)], es + [e])
  {
    hide Enabled, Step;
  }

  /** `waiting_count` does go wrong: one task waits, takes the only permit, and its body raises a
      TimeoutError; then nobody waits and the count is -1. */
  lemma WaitingCountGoesNegative() returns (ws: seq<World>, es: seq<Event>)
    ensures Run(1, ws, es) && |es| == 4
    ensures ws[4].waiting == {} && ws[4].granted == map[] && ws[4].sem.waitingCount == -1
  {
    ws, es := [World(Initial(1), {}, map[], {}, {}, [], 0)], [];
    var events := [Arrive(0), TakePermit(0, 0.0), Record(0), Finish(0, 0.0, true)];
    Extend(1, ws, es, events[0]);
    var w1 := Step(ws[0], events[0]);
    ws, es := ws + [w1], es + [events[0]];
    Extend(1, ws, es, events[1]);
    var w2 := Step(w1, events[1]);
    ws, es := ws + [w2], es + [events[1]];
    Extend(1, ws, es, events[2]);
    var w3 := Step(w2, events[2]);
    ws, es := ws + [w3], es + [events[2]];
    Extend(1, ws, es, events[3]);
    ws, es := ws + [Step(w3, events[3])], es + [events[3]];
  }
}
