/** `PriorityLock` (adapter_concurrency.py): a lock granted to the waiting request of highest
    priority, oldest first. A step is the code between two suspension points, so any number
    of tasks interleave. */
module PriorityLocks {
  import opened Common

  datatype LockPriority = Low | Normal | High | Critical

  function Value(p: LockPriority): int {
    match p
    case Low => 1
    case Normal => 2
    case High => 3
    case Critical => 4
  }

  /** The order of the levels, said of the levels themselves. */
  predicate Above(p: LockPriority, q: LockPriority) {
    match p
    case Critical => q != Critical
    case High => q == Normal || q == Low
    case Normal => q == Low
    case Low => false
  }

  lemma ValueIsOrder(p: LockPriority, q: LockPriority)
    ensures Value(p) > Value(q) <==> Above(p, q)
    ensures Value(p) == Value(q) <==> p == q
  {
  }

  /** `timeout` absent or zero means: wait for ever. */
  datatype Request = Request(id: nat, priority: LockPriority, requestedAt: real, timeout: Option<real>)

  predicate Expired(r: Request, mono: real) {
    r.timeout.Some? && r.timeout.value != 0.0 && mono - r.requestedAt >= r.timeout.value
  }

  datatype Lock = Lock(
    queue: seq<Request>, holder: Option<Request>,
    acquisitions: nat, releases: nat, timeouts: nat, averageHold: real, maxHold: real)

  datatype Outcome = Granted | TimedOut | Sleeping

  // ---------- The code ----------

  function Insert(q: seq<Request>, r: Request): seq<Request> {
    if q == [] then [r]
    else if Value(r.priority) > Value(q[0].priority) then [r] + q
    else [q[0]] + Insert(q[1..], r)
  }

  function Without(q: seq<Request>, id: nat): seq<Request> {
    if q == [] then []
    else (if q[0].id == id then [] else [q[0]]) + Without(q[1..], id)
  }

  /** The average of `n` hold times from that of the first `n - 1`. */
  function NextAverage(average: real, n: nat, hold: real): real
    requires n >= 1
  {
    (average * (n - 1) as real + hold) / n as real
  }

  function Cleanup(l: Lock, r: Request, acquiredAt: Option<real>, now: real): Lock {
    var l1 :=
      if acquiredAt.None? then l else
      var hold := now - acquiredAt.value;
      var n := l.releases + 1;
      l.(releases := n,
         averageHold := NextAverage(l.averageHold, n, hold),
         maxHold := MaxReal(l.maxHold, hold));
    l1.(queue := Without(l1.queue, r.id),
        holder := if l1.holder.Some? && l1.holder.value.id == r.id then None else l1.holder)
  }

  /** One turn of the wait loop: the pop and the holder assignment are one step. */
  function Poll(l: Lock, r: Request, mono: real, now: real): (Lock, Outcome) {
    if l.queue != [] && l.queue[0].id == r.id && l.holder.None? then
      (l.(queue := l.queue[1..], holder := Some(r), acquisitions := l.acquisitions + 1), Granted)
    else if Expired(r, mono) then
      (Cleanup(l.(timeouts := l.timeouts + 1), r, None, now), TimedOut)
    else (l, Sleeping)
  }

  /** The body ends, by any outcome; a TimeoutError from the body is counted as a timeout too. */
  function Leave(l: Lock, r: Request, acquiredAt: real, now: real, timedOut: bool): Lock {
    Cleanup(if timedOut then l.(timeouts := l.timeouts + 1) else l, r, Some(acquiredAt), now)
  }

  lemma {:induction false} WithoutConcat(a: seq<Request>, b: seq<Request>, id: nat)
    ensures Without(a + b, id) == Without(a, id) + Without(b, id)
  {
    if a == [] {
      assert a + b == b;
    } else {
      assert (a + b)[1..] == a[1..] + b;
      WithoutConcat(a[1..], b, id);
    }
  }

  /** Insertion walks past everything of at least the same priority. */
  lemma {:induction false} InsertPast(a: seq<Request>, b: seq<Request>, r: Request)
    requires forall x :: x in a ==> Value(x.priority) >= Value(r.priority)
    ensures Insert(a + b, r) == a + Insert(b, r)
  {
    if a == [] {
      assert a + b == b;
    } else {
      assert a[0] in a;
      assert (a + b)[1..] == a[1..] + b;
      InsertPast(a[1..], b, r);
      assert [a[0]] + (a[1..] + Insert(b, r)) == a + Insert(b, r);
    }
  }

  class PriorityLock {
    var queue: seq<Request>
    var currentHolder: Option<Request>
    var totalAcquisitions: nat
    var totalReleases: nat
    var totalTimeouts: nat
    var averageHoldTime: real
    var maxHoldTime: real

    ghost function Abs(): Lock
      reads this
    {
      Lock(queue, currentHolder, totalAcquisitions, totalReleases, totalTimeouts, averageHoldTime, maxHoldTime)
    }

    constructor ()
      ensures Abs() == Lock([], None, 0, 0, 0, 0.0, 0.0)
    {
      queue, currentHolder := [], None;
      totalAcquisitions, totalReleases, totalTimeouts := 0, 0, 0;
      averageHoldTime, maxHoldTime := 0.0, 0.0;
    }

    method EnqueueRequest(r: Request)
      modifies this
      ensures Abs() == old(Abs()).(queue := Insert(old(queue), r))
    {
      for i := 0 to |queue|
        invariant unchanged(this)
        invariant forall x :: x in queue[..i] ==> Value(x.priority) >= Value(r.priority)
      {
        assert queue[..i] + queue[i..] == queue;
        if Value(r.priority) > Value(queue[i].priority) {
          InsertPast(queue[..i], queue[i..], r);
          assert queue[..i] + ([r] + queue[i..]) == queue[..i] + [r] + queue[i..];
          queue := queue[..i] + [r] + queue[i..];
          return;
        }
        assert queue[..i + 1] == queue[..i] + [queue[i]];
      }
      assert queue[..|queue|] + [] == queue;
      InsertPast(queue[..|queue|], [], r);
      queue := queue + [r];
    }

    method RemoveFromQueue(id: nat)
      modifies this`queue
      ensures queue == Without(old(queue), id)
    {
      var kept: seq<Request> := [];
      for i := 0 to |queue|
        invariant unchanged(this) && kept == Without(queue[..i], id)
      {
        assert queue[..i + 1] == queue[..i] + [queue[i]];
        WithoutConcat(queue[..i], [queue[i]], id);
        if queue[i].id != id {
          kept := kept + [queue[i]];
        }
      }
      assert queue[..|queue|] == queue;
      queue := kept;
    }

    method CleanupRequest(r: Request, acquiredAt: Option<real>, now: real)
      modifies this
      ensures Abs() == Cleanup(old(Abs()), r, acquiredAt, now)
    {
      if acquiredAt.Some? {
        var holdTime := now - acquiredAt.value;
        totalReleases := totalReleases + 1;
        averageHoldTime := NextAverage(averageHoldTime, totalReleases, holdTime);
        maxHoldTime := MaxReal(maxHoldTime, holdTime);
      }
      RemoveFromQueue(r.id);
      if currentHolder.Some? && currentHolder.value.id == r.id {
        currentHolder := None;
      }
    }

    method WaitForTurn(r: Request, mono: real, now: real) returns (outcome: Outcome)
      modifies this
      ensures (Abs(), outcome) == Poll(old(Abs()), r, mono, now)
    {
      if queue != [] && queue[0].id == r.id {
        if currentHolder.None? {
          queue := queue[1..];
          currentHolder := Some(r);
          totalAcquisitions := totalAcquisitions + 1;
          return Granted;
        }
      }
      if r.timeout.Some? && r.timeout.value != 0.0 {
        var elapsed := mono - r.requestedAt;
        if elapsed >= r.timeout.value {
          totalTimeouts := totalTimeouts + 1;
          CleanupRequest(r, None, now);
          return TimedOut;
        }
      }
      return Sleeping;
    }

    method ExitBody(r: Request, acquiredAt: real, now: real, timedOut: bool)
      modifies this
      ensures Abs() == Leave(old(Abs()), r, acquiredAt, now, timedOut)
    {
      if timedOut {
        totalTimeouts := totalTimeouts + 1;
      }
      CleanupRequest(r, Some(acquiredAt), now);
    }
  }

  // ---------- The step system ----------

  /** The lock together with its tasks: the requests still waiting in order of arrival, the
      requests inside the body with the time each was granted, every request id ever used,
      and the hold times observed so far. */
  datatype World = World(lock: Lock, waiting: seq<Request>, held: map<nat, real>, seen: set<nat>, holds: seq<real>)

  const START := World(Lock([], None, 0, 0, 0, 0.0, 0.0), [], map[], {}, [])

  datatype Event =
    | Enqueue(r: Request)
    | Turn(r: Request, mono: real, now: real)
    | Exit(r: Request, now: real, timedOut: bool)

  /** Request ids are fresh; only waiting tasks poll; only tasks in the body leave it. */
  predicate Enabled(w: World, e: Event) {
    match e
    case Enqueue(r) => r.id !in w.seen
    case Turn(r, _, _) => r in w.waiting
    case Exit(r, _, _) => r.id in w.held
  }

  function Step(w: World, e: Event): World
    requires Enabled(w, e)
  {
    match e
    case Enqueue(r) =>
      w.(lock := w.lock.(queue := Insert(w.lock.queue, r)), waiting := w.waiting + [r], seen := w.seen + {r.id})
    case Turn(r, mono, now) =>
      var (l, outcome) := Poll(w.lock, r, mono, now);
      match outcome {
        case Granted => w.(lock := l, waiting := Without(w.waiting, r.id), held := w.held[r.id := now])
        case TimedOut => w.(lock := l, waiting := Without(w.waiting, r.id))
        case Sleeping => w.(lock := l)
      }
    case Exit(r, now, timedOut) =>
      w.(lock := Leave(w.lock, r, w.held[r.id], now, timedOut),
         held := w.held - {r.id},
         holds := w.holds + [now - w.held[r.id]])
  }

  ghost predicate Run(ws: seq<World>, es: seq<Event>) {
    && |ws| == |es| + 1 && ws[0] == START
    && forall i {:trigger es[i]} :: 0 <= i < |es| ==> Enabled(ws[i], es[i]) && ws[i + 1] == Step(ws[i], es[i])
  }

  // ---------- Reference: stable descending sort ----------

  /** The requests of one priority value, in order of arrival. */
  function Bucket(s: seq<Request>, v: int): seq<Request> {
    if s == [] then []
    else (if Value(s[0].priority) == v then [s[0]] else []) + Bucket(s[1..], v)
  }

  function SortFrom(s: seq<Request>, v: nat): seq<Request> {
    if v == 0 then [] else Bucket(s, v) + SortFrom(s, v - 1)
  }

  /** The stable descending-priority sort: the four levels from the top, each in order of arrival. */
  function StableSort(s: seq<Request>): seq<Request> {
    SortFrom(s, 4)
  }

  lemma {:induction false} BucketMembers(s: seq<Request>, v: int)
    ensures forall r :: r in Bucket(s, v) <==> Value(r.priority) == v && r in s
  {
    if s != [] {
      BucketMembers(s[1..], v);
    }
  }

  lemma {:induction false} SortMembers(s: seq<Request>, v: nat)
    ensures forall r :: r in SortFrom(s, v) <==> Value(r.priority) <= v && r in s
  {
    if v > 0 {
      BucketMembers(s, v);
      SortMembers(s, v - 1);
    }
  }

  lemma {:induction false} BucketAppend(s: seq<Request>, r: Request, v: int)
    ensures Value(r.priority) == v ==> Bucket(s + [r], v) == Bucket(s, v) + [r]
    ensures Value(r.priority) != v ==> Bucket(s + [r], v) == Bucket(s, v)
  {
    if s != [] {
      assert (s + [r])[1..] == s[1..] + [r];
      BucketAppend(s[1..], r, v);
    }
  }

  lemma InsertFirst(b: seq<Request>, r: Request)
    requires forall x :: x in b ==> Value(x.priority) < Value(r.priority)
    ensures Insert(b, r) == [r] + b
  {
    if b != [] {
      assert b[0] in b;
    }
  }

  lemma {:induction false} LowerLevelsUnchanged(s: seq<Request>, r: Request, v: nat)
    requires Value(r.priority) > v
    ensures SortFrom(s + [r], v) == SortFrom(s, v)
  {
    if v > 0 {
      BucketAppend(s, r, v);
      LowerLevelsUnchanged(s, r, v - 1);
    }
  }

  /** A request of the first level's priority goes behind that level and before the rest. */
  lemma InsertLevel(b: seq<Request>, rest: seq<Request>, r: Request)
    requires forall x :: x in b ==> Value(x.priority) >= Value(r.priority)
    requires forall x :: x in rest ==> Value(x.priority) < Value(r.priority)
    ensures Insert(b + rest, r) == (b + [r]) + rest
  {
    InsertPast(b, rest, r);
    InsertFirst(rest, r);
    assert b + ([r] + rest) == (b + [r]) + rest;
  }

  lemma InsertAtLevel(s: seq<Request>, r: Request, v: nat)
    requires Value(r.priority) == v
    ensures Insert(Bucket(s, v) + SortFrom(s, v - 1), r) == (Bucket(s, v) + [r]) + SortFrom(s, v - 1)
  {
    BucketMembers(s, v);
    SortMembers(s, v - 1);
    InsertLevel(Bucket(s, v), SortFrom(s, v - 1), r);
  }

  lemma InsertBelowLevel(s: seq<Request>, r: Request, v: nat, rest: seq<Request>)
    requires Value(r.priority) < v
    ensures Insert(Bucket(s, v) + rest, r) == Bucket(s, v) + Insert(rest, r)
  {
    BucketMembers(s, v);
    InsertPast(Bucket(s, v), rest, r);
  }

  lemma InsertIsStableStep(s: seq<Request>, r: Request, v: nat)
    requires Value(r.priority) < v
    requires SortFrom(s + [r], v - 1) == Insert(SortFrom(s, v - 1), r)
    ensures SortFrom(s + [r], v) == Insert(SortFrom(s, v), r)
  {
    BucketAppend(s, r, v);
    InsertBelowLevel(s, r, v, SortFrom(s, v - 1));
  }

  lemma InsertIsStableTop(s: seq<Request>, r: Request, v: nat)
    requires Value(r.priority) == v
    ensures SortFrom(s + [r], v) == Insert(SortFrom(s, v), r)
  {
    BucketAppend(s, r, v);
    LowerLevelsUnchanged(s, r, v - 1);
    InsertAtLevel(s, r, v);
  }

  /** Inserting into the sorted queue sorts the longer arrival list. */
  lemma {:induction false} InsertIsStable(s: seq<Request>, r: Request, v: nat)
    requires Value(r.priority) <= v
    ensures SortFrom(s + [r], v) == Insert(SortFrom(s, v), r)
    decreases v
  {
    hide Insert, SortFrom, Bucket;
    if Value(r.priority) == v {
      InsertIsStableTop(s, r, v);
    } else {
      InsertIsStable(s, r, v - 1);
      InsertIsStableStep(s, r, v);
    }
  }

  /** The new request goes behind everything that is not below it and before the first that is. */
  lemma {:induction false} InsertPlace(q: seq<Request>, r: Request) returns (k: nat)
    ensures k <= |q| && Insert(q, r) == q[..k] + [r] + q[k..]
    ensures forall j :: 0 <= j < k ==> !Above(r.priority, q[j].priority)
    ensures k < |q| ==> Above(r.priority, q[k].priority)
  {
    k := 0;
    if q != [] {
      ValueIsOrder(r.priority, q[0].priority);
      if !Above(r.priority, q[0].priority) {
        var k' := InsertPlace(q[1..], r);
        k := k' + 1;
        assert [q[0]] + (q[1..][..k'] + [r] + q[1..][k'..]) == q[..k] + [r] + q[k..];
      } else {
        assert [r] + q == q[..0] + [r] + q[0..];
      }
    }
  }

  /** The requests of one level, in order of arrival. */
  function OfLevel(s: seq<Request>, p: LockPriority): seq<Request> {
    if s == [] then []
    else (if s[0].priority == p then [s[0]] else []) + OfLevel(s[1..], p)
  }

  lemma {:induction false} BucketIsLevel(s: seq<Request>, p: LockPriority)
    ensures Bucket(s, Value(p)) == OfLevel(s, p)
  {
    if s != [] {
      ValueIsOrder(s[0].priority, p);
      BucketIsLevel(s[1..], p);
    }
  }

  lemma SortUnfold(s: seq<Request>, v: nat)
    requires v > 0
    ensures SortFrom(s, v) == Bucket(s, v) + SortFrom(s, v - 1)
  {
  }

  /** The sorted queue is the Critical requests, then High, then Normal, then Low, each level in order
      of arrival. */
  lemma StableSortLevels(s: seq<Request>)
    ensures StableSort(s) == OfLevel(s, Critical) + (OfLevel(s, High) + (OfLevel(s, Normal) + OfLevel(s, Low)))
  {
    hide Bucket, OfLevel;
    BucketIsLevel(s, Critical);
    BucketIsLevel(s, High);
    BucketIsLevel(s, Normal);
    BucketIsLevel(s, Low);
    SortUnfold(s, 4);
    SortUnfold(s, 3);
    SortUnfold(s, 2);
    SortUnfold(s, 1);
    assert SortFrom(s, 0) == [] && Bucket(s, 1) + [] == Bucket(s, 1);
  }

  lemma {:induction false} WithoutBucket(s: seq<Request>, v: int, id: nat)
    ensures Without(Bucket(s, v), id) == Bucket(Without(s, id), v)
  {
    if s != [] {
      WithoutBucket(s[1..], v, id);
      var rest := Bucket(s[1..], v);
      var kept := Without(s[1..], id);
      if Value(s[0].priority) == v {
        assert Bucket(s, v) == [s[0]] + rest && ([s[0]] + rest)[1..] == rest;
      } else {
        assert Bucket(s, v) == rest;
      }
      if s[0].id == id {
        assert Without(s, id) == kept;
      } else {
        assert Without(s, id) == [s[0]] + kept && ([s[0]] + kept)[1..] == kept;
      }
    }
  }

  lemma WithoutIsStableStep(s: seq<Request>, id: nat, v: nat)
    requires v > 0 && Without(SortFrom(s, v - 1), id) == SortFrom(Without(s, id), v - 1)
    ensures Without(SortFrom(s, v), id) == SortFrom(Without(s, id), v)
  {
    WithoutConcat(Bucket(s, v), SortFrom(s, v - 1), id);
    WithoutBucket(s, v, id);
  }

  lemma {:induction false} WithoutIsStable(s: seq<Request>, id: nat, v: nat)
    ensures Without(SortFrom(s, v), id) == SortFrom(Without(s, id), v)
  {
    if v > 0 {
      WithoutIsStable(s, id, v - 1);
      WithoutIsStableStep(s, id, v);
    }
  }

  ghost predicate Distinct(s: seq<Request>) {
    forall i, k :: 0 <= i < k < |s| ==> s[i].id != s[k].id
  }

  lemma DistinctIds(s: seq<Request>, x: Request, y: Request)
    requires Distinct(s) && x in s && y in s && x != y
    ensures x.id != y.id
  {
    var i :| 0 <= i < |s| && s[i] == x;
    var k :| 0 <= k < |s| && s[k] == y;
    if i < k { assert s[i].id != s[k].id; } else { assert s[k].id != s[i].id; }
  }

  lemma {:induction false} WithoutMembers(s: seq<Request>, id: nat)
    ensures forall r :: r in Without(s, id) <==> r in s && r.id != id
  {
    if s != [] {
      WithoutMembers(s[1..], id);
      assert s == [s[0]] + s[1..];
    }
  }

  lemma {:induction false} WithoutDistinct(s: seq<Request>, id: nat)
    requires Distinct(s)
    ensures Distinct(Without(s, id))
  {
    if s != [] {
      WithoutDistinct(s[1..], id);
      WithoutMembers(s[1..], id);
      assert forall r :: r in s[1..] ==> r.id != s[0].id;
    }
  }

  lemma {:induction false} WithoutAbsent(s: seq<Request>, id: nat)
    requires forall r :: r in s ==> r.id != id
    ensures Without(s, id) == s
  {
    if s != [] {
      WithoutAbsent(s[1..], id);
    }
  }

  /** `r` is the request the lock owes the next grant to: nobody waiting has higher priority,
      and nobody of the same priority arrived earlier. */
  ghost predicate Leads(s: seq<Request>, r: Request, k: nat) {
    && k < |s| && s[k] == r
    && (forall j :: 0 <= j < k ==> Above(r.priority, s[j].priority))
    && (forall j :: k < j < |s| ==> !Above(s[j].priority, r.priority))
  }

  lemma {:induction false} BucketHead(s: seq<Request>, v: int) returns (k: nat)
    requires Bucket(s, v) != []
    ensures k < |s| && s[k] == Bucket(s, v)[0] && Value(s[k].priority) == v
    ensures forall j :: 0 <= j < k ==> Value(s[j].priority) != v
  {
    k := 0;
    if Value(s[0].priority) != v {
      var k' := BucketHead(s[1..], v);
      k := k' + 1;
    }
  }

  ghost predicate LeadsByValue(s: seq<Request>, r: Request, k: nat) {
    && k < |s| && s[k] == r
    && (forall j :: 0 <= j < k ==> Value(s[j].priority) < Value(r.priority))
    && (forall j :: k < j < |s| ==> Value(s[j].priority) <= Value(r.priority))
  }

  lemma {:induction false} SortHeadHasLargestValue(s: seq<Request>, v: nat) returns (k: nat)
    requires s != [] && forall x :: x in s ==> Value(x.priority) <= v
    ensures SortFrom(s, v) != [] && LeadsByValue(s, SortFrom(s, v)[0], k)
  {
    SortMembers(s, v);
    assert s[0] in SortFrom(s, v);
    BucketMembers(s, v);
    if Bucket(s, v) == [] {
      forall x | x in s ensures Value(x.priority) <= v - 1 {
        assert x !in Bucket(s, v);
      }
      k := SortHeadHasLargestValue(s, v - 1);
    } else {
      k := BucketHead(s, v);
      assert forall j :: 0 <= j < |s| ==> s[j] in s;
    }
  }

  /** The head of the sorted queue is the leading request. */
  lemma SortHeadLeads(s: seq<Request>) returns (k: nat)
    requires s != []
    ensures StableSort(s) != [] && Leads(s, StableSort(s)[0], k)
  {
    hide SortFrom;
    k := SortHeadHasLargestValue(s, 4);
    forall p, q ensures Value(p) > Value(q) <==> Above(p, q) {
      ValueIsOrder(p, q);
    }
  }

  // ---------- What every step keeps ----------

  ghost predicate QueueInv(w: World) {
    && w.lock.queue == StableSort(w.waiting)
    && Distinct(w.waiting)
    && (forall r :: r in w.waiting ==> r.id in w.seen && r.id !in w.held)
    && w.held.Keys <= w.seen
  }

  ghost predicate HolderInv(w: World) {
    && w.held.Keys == (if w.lock.holder.Some? then {w.lock.holder.value.id} else {})
    && w.lock.acquisitions == w.lock.releases + |w.held|
  }

  ghost predicate HoldStats(releases: nat, average: real, longest: real, holds: seq<real>) {
    releases == |holds| && average * releases as real == Sum(holds) && longest == Largest(holds)
  }

  ghost predicate HoldTimeInv(w: World) {
    HoldStats(w.lock.releases, w.lock.averageHold, w.lock.maxHold, w.holds)
  }

  ghost predicate Inv(w: World) { QueueInv(w) && HolderInv(w) && HoldTimeInv(w) }

  lemma AverageStep(average: real, n: nat, hold: real)
    ensures NextAverage(average, n + 1, hold) * (n + 1) as real == average * n as real + hold
  {
  }

  lemma HoldStatsStep(releases: nat, average: real, longest: real, holds: seq<real>, hold: real)
    requires HoldStats(releases, average, longest, holds)
    ensures HoldStats(releases + 1, NextAverage(average, releases + 1, hold), MaxReal(longest, hold), holds + [hold])
  {
    assert (holds + [hold])[..|holds|] == holds;
    AverageStep(average, releases, hold);
  }

  lemma DistinctConcat(a: seq<Request>, b: seq<Request>)
    requires Distinct(a) && Distinct(b)
    requires forall x, y :: x in a && y in b ==> x.id != y.id
    ensures Distinct(a + b)
  {
  }

  lemma {:induction false} BucketDistinct(s: seq<Request>, v: int)
    requires Distinct(s)
    ensures Distinct(Bucket(s, v))
  {
    if s != [] {
      BucketDistinct(s[1..], v);
      BucketMembers(s[1..], v);
      assert forall r :: r in s[1..] ==> r.id != s[0].id;
    }
  }

  lemma {:induction false} SortDistinct(s: seq<Request>, v: nat)
    requires Distinct(s)
    ensures Distinct(SortFrom(s, v))
  {
    if v > 0 {
      BucketDistinct(s, v);
      SortDistinct(s, v - 1);
      BucketMembers(s, v);
      SortMembers(s, v - 1);
      forall x, y | x in Bucket(s, v) && y in SortFrom(s, v - 1) ensures x.id != y.id {
        DistinctIds(s, x, y);
      }
      DistinctConcat(Bucket(s, v), SortFrom(s, v - 1));
    }
  }

  lemma TurnRemoves(w: World, e: Event)
    requires QueueInv(w) && e.Turn? && Enabled(w, e)
    ensures Poll(w.lock, e.r, e.mono, e.now).1.Sleeping? || Step(w, e).lock.queue == Without(w.lock.queue, e.r.id)
    ensures Poll(w.lock, e.r, e.mono, e.now).1.Granted? ==> w.lock.queue[0] == e.r
  {
    var q := w.lock.queue;
    if Poll(w.lock, e.r, e.mono, e.now).1.Granted? {
      SortMembers(w.waiting, 4);
      assert q[0] in w.waiting;
      if q[0] != e.r {
        DistinctIds(w.waiting, q[0], e.r);
      }
      SortDistinct(w.waiting, 4);
      assert forall r :: r in q[1..] ==> r.id != e.r.id;
      WithoutAbsent(q[1..], e.r.id);
    }
  }

  lemma QueueStep(w: World, e: Event)
    requires QueueInv(w) && HolderInv(w) && Enabled(w, e)
    ensures QueueInv(Step(w, e))
  {
    var w' := Step(w, e);
    match e
    case Enqueue(r) =>
      InsertIsStable(w.waiting, r, 4);
    case Turn(r, mono, now) =>
      TurnRemoves(w, e);
      WithoutIsStable(w.waiting, r.id, 4);
      WithoutMembers(w.waiting, r.id);
      WithoutDistinct(w.waiting, r.id);
    case Exit(r, now, timedOut) =>
      SortMembers(w.waiting, 4);
      WithoutAbsent(w.lock.queue, r.id);
  }

  lemma HolderStep(w: World, e: Event)
    requires QueueInv(w) && HolderInv(w) && Enabled(w, e)
    ensures HolderInv(Step(w, e))
  {
    var w' := Step(w, e);
    match e
    case Enqueue(r) =>
    case Turn(r, mono, now) =>
      if Poll(w.lock, r, mono, now).1.Granted? {
        assert w'.held.Keys == w.held.Keys + {r.id};
        assert |w.held.Keys| == 0 && |w'.held.Keys| == 1;
      } else if w.lock.holder.Some? {
        assert w.lock.holder.value.id in w.held;
      }
    case Exit(r, now, timedOut) =>
      assert w.held.Keys == {r.id};
      assert w'.held.Keys == {};
      assert |w.held.Keys| == 1 && |w'.held.Keys| == 0;
  }

  lemma HoldTimeStep(w: World, e: Event)
    requires HoldTimeInv(w) && Enabled(w, e)
    ensures HoldTimeInv(Step(w, e))
  {
    hide HoldStats, NextAverage, Without;
    if e.Exit? {
      HoldStatsStep(w.lock.releases, w.lock.averageHold, w.lock.maxHold, w.holds, e.now - w.held[e.r.id]);
    }
  }

  lemma StartInv()
    ensures Inv(START)
  {
  }

  lemma StepKeeps(w: World, e: Event)
    requires Inv(w) && Enabled(w, e)
    ensures Inv(Step(w, e))
  {
    hide QueueInv, HolderInv, HoldTimeInv, Step, Enabled;
    QueueStep(w, e);
    HolderStep(w, e);
    HoldTimeStep(w, e);
  }

  /** In every reachable state: the queue is the stable descending-priority sort of the waiting
      requests; the holder is the one task in the body; the counters and the average account
      exactly for every acquisition and every hold time. */
  lemma {:induction false} AlwaysInv(ws: seq<World>, es: seq<Event>, i: nat)
    requires Run(ws, es) && i < |ws|
    ensures Inv(ws[i])
  {
    hide Inv, Step, Enabled;
    if i == 0 {
      StartInv();
    } else {
      AlwaysInv(ws, es, i - 1);
      StepKeeps(ws[i - 1], es[i - 1]);
    }
  }

  /** Mutual exclusion and exact accounting, read off the invariant. */
  lemma MutualExclusion(ws: seq<World>, es: seq<Event>, i: nat)
    requires Run(ws, es) && i < |ws|
    ensures |ws[i].held| <= 1
    ensures forall id :: id in ws[i].held ==> ws[i].lock.holder.Some? && ws[i].lock.holder.value.id == id
    ensures ws[i].lock.acquisitions == ws[i].lock.releases + if ws[i].lock.holder.Some? then 1 else 0
    ensures ws[i].lock.averageHold * ws[i].lock.releases as real == Sum(ws[i].holds)
  {
    AlwaysInv(ws, es, i);
    assert |ws[i].held| == |ws[i].held.Keys|;
  }

  /** A turn is granted exactly when the lock is free and the request leads the waiting ones. */
  lemma GrantedExactly(ws: seq<World>, es: seq<Event>, i: nat)
    requires Run(ws, es) && i < |es| && es[i].Turn?
    ensures Poll(ws[i].lock, es[i].r, es[i].mono, es[i].now).1.Granted? <==>
            ws[i].lock.holder.None? && exists k: nat :: Leads(ws[i].waiting, es[i].r, k)
  {
    AlwaysInv(ws, es, i);
    var s, r := ws[i].waiting, es[i].r;
    var k := SortHeadLeads(s);
    if exists k': nat :: Leads(s, r, k') {
      var k': nat :| Leads(s, r, k');
      assert k == k';
    }
    if Poll(ws[i].lock, r, es[i].mono, es[i].now).1.Granted? {
      TurnRemoves(ws[i], es[i]);
    }
  }

  /** A turn that is not granted times out exactly when the request has a timeout other than zero and
      has waited that long; it then leaves the queue and is counted, and nothing else changes.
      Otherwise the lock is as it was. */
  lemma NotGrantedExactly(ws: seq<World>, es: seq<Event>, i: nat)
    requires Run(ws, es) && i < |es| && es[i].Turn?
    requires !Poll(ws[i].lock, es[i].r, es[i].mono, es[i].now).1.Granted?
    ensures var l, l', r := ws[i].lock, ws[i + 1].lock, es[i].r;
            var late := r.timeout.Some? && r.timeout.value != 0.0 && es[i].mono - r.requestedAt >= r.timeout.value;
            && (Poll(l, r, es[i].mono, es[i].now).1.TimedOut? <==> late)
            && l' == (if late then l.(queue := l'.queue, timeouts := l.timeouts + 1) else l)
            && (late ==> forall x :: x in l'.queue <==> x in l.queue && x.id != r.id)
            && (r in ws[i + 1].waiting <==> !late)
  {
    AlwaysInv(ws, es, i);
    var w, r := ws[i], es[i].r;
    assert Enabled(w, es[i]) && ws[i + 1] == Step(w, es[i]);
    WithoutMembers(w.lock.queue, r.id);
    WithoutMembers(w.waiting, r.id);
    assert w.lock.holder.Some? ==> w.lock.holder.value.id in w.held;
  }

  /** Whether event `e` is a timeout, in the wait or raised by the body. */
  predicate IsTimeout(w: World, e: Event) {
    match e
    case Enqueue(_) => false
    case Turn(r, mono, now) => Poll(w.lock, r, mono, now).1.TimedOut?
    case Exit(_, _, timedOut) => timedOut
  }

  ghost function TimeoutAt(ws: seq<World>, es: seq<Event>): nat -> bool {
    (k: nat) => k < |es| && k < |ws| && IsTimeout(ws[k], es[k])
  }

  lemma TimeoutStep(w: World, e: Event)
    requires Enabled(w, e)
    ensures Step(w, e).lock.timeouts == w.lock.timeouts + if IsTimeout(w, e) then 1 else 0
  {
  }

  /** `total_timeouts` counts exactly these. */
  lemma {:induction false} TimeoutsCounted(ws: seq<World>, es: seq<Event>, i: nat)
    requires Run(ws, es) && i < |ws|
    ensures ws[i].lock.timeouts == Count(TimeoutAt(ws, es), i)
  {
    hide Step, Enabled, IsTimeout;
    if i > 0 {
      TimeoutsCounted(ws, es, i - 1);
      TimeoutStep(ws[i - 1], es[i - 1]);
    }
  }

  // ---------- Non-overtaking over runs ----------

  predicate Before(s: seq<Request>, a: Request, b: Request) {
    s != [] && ((s[0] == a && b in s[1..]) || Before(s[1..], a, b))
  }

  lemma {:induction false} BeforePositions(s: seq<Request>, a: Request, b: Request) returns (x: nat, y: nat)
    requires Before(s, a, b)
    ensures x < y < |s| && s[x] == a && s[y] == b
  {
    if s[0] == a && b in s[1..] {
      x := 0;
      y :| 1 <= y < |s| && s[y] == b;
    } else {
      x, y := BeforePositions(s[1..], a, b);
      x, y := x + 1, y + 1;
    }
  }

  lemma {:induction false} BeforeAppend(s: seq<Request>, r: Request, a: Request, b: Request)
    requires Before(s, a, b) || (a in s && b == r)
    ensures Before(s + [r], a, b)
  {
    assert (s + [r])[1..] == s[1..] + [r];
    if s[0] != a || (b !in s[1..] && b != r) {
      BeforeAppend(s[1..], r, a, b);
    }
  }

  lemma {:induction false} WithoutKeepsOrder(s: seq<Request>, id: nat, a: Request, b: Request)
    requires Before(s, a, b) && a.id != id && b.id != id
    ensures Before(Without(s, id), a, b)
  {
    var t := Without(s[1..], id);
    if s[0].id == id {
      assert Without(s, id) == t;
      WithoutKeepsOrder(s[1..], id, a, b);
    } else {
      assert Without(s, id) == [s[0]] + t && ([s[0]] + t)[1..] == t;
      if s[0] == a && b in s[1..] {
        WithoutMembers(s[1..], id);
      } else {
        WithoutKeepsOrder(s[1..], id, a, b);
      }
    }
  }

  ghost predicate Removes(w: World, e: Event, a: Request)
    requires Enabled(w, e)
  {
    e.Turn? && e.r == a && !Poll(w.lock, e.r, e.mono, e.now).1.Sleeping?
  }

  lemma {:induction false} SeenForEver(ws: seq<World>, es: seq<Event>, i: nat, k: nat)
    requires Run(ws, es) && i < k < |ws| && es[i].Enqueue?
    ensures es[i].r.id in ws[k].seen
  {
    assert Enabled(ws[k - 1], es[k - 1]) && ws[k] == Step(ws[k - 1], es[k - 1]);
    if i + 1 < k {
      SeenForEver(ws, es, i, k - 1);
    }
  }

  /** A request stops waiting only by being granted or timing out. */
  lemma {:induction false} LeavesByTurn(ws: seq<World>, es: seq<Event>, i: nat, k: nat) returns (m: nat)
    requires Run(ws, es) && i < k < |ws| && es[i].Enqueue? && es[i].r !in ws[k].waiting
    ensures i < m < k && Removes(ws[m], es[m], es[i].r)
  {
    var a := es[i].r;
    m := k - 1;
    assert m != i;
    if a !in ws[m].waiting {
      m := LeavesByTurn(ws, es, i, m);
    } else if es[m].Turn? {
      AlwaysInv(ws, es, m);
      WithoutMembers(ws[m].waiting, es[m].r.id);
      if a != es[m].r {
        DistinctIds(ws[m].waiting, a, es[m].r);
      }
    }
  }

  lemma OrderStep(w: World, e: Event, a: Request, b: Request)
    requires Enabled(w, e) && a in Step(w, e).waiting && b in Step(w, e).waiting
    requires Before(w.waiting, a, b) || (e.Enqueue? && e.r == b && a in w.waiting)
    ensures Before(Step(w, e).waiting, a, b)
  {
    WithoutMembers(w.waiting, e.r.id);
    if e.Turn? && !Poll(w.lock, e.r, e.mono, e.now).1.Sleeping? {
      WithoutKeepsOrder(w.waiting, e.r.id, a, b);
    } else if e.Enqueue? {
      BeforeAppend(w.waiting, e.r, a, b);
    }
  }

  lemma StillWaitingBefore(w: World, e: Event, a: Request)
    requires Enabled(w, e) && a in Step(w, e).waiting && (e.Enqueue? ==> e.r != a)
    ensures a in w.waiting
  {
    WithoutMembers(w.waiting, e.r.id);
  }

  lemma NotEnqueuedAgain(ws: seq<World>, es: seq<Event>, i: nat, k: nat)
    requires Run(ws, es) && i < k < |es| && es[i].Enqueue?
    ensures Enabled(ws[k], es[k]) && ws[k + 1] == Step(ws[k], es[k])
    ensures es[k].Enqueue? ==> es[k].r != es[i].r
  {
    SeenForEver(ws, es, i, k);
  }

  lemma {:induction false} ArrivalOrderKept(ws: seq<World>, es: seq<Event>, i: nat, j: nat, k: nat)
    requires Run(ws, es) && i < j < k < |ws| && es[i].Enqueue? && es[j].Enqueue?
    requires es[i].r in ws[k].waiting && es[j].r in ws[k].waiting
    ensures Before(ws[k].waiting, es[i].r, es[j].r)
  {
    var a, b := es[i].r, es[j].r;
    NotEnqueuedAgain(ws, es, i, k - 1);
    StillWaitingBefore(ws[k - 1], es[k - 1], a);
    if j < k - 1 {
      NotEnqueuedAgain(ws, es, j, k - 1);
      StillWaitingBefore(ws[k - 1], es[k - 1], b);
      ArrivalOrderKept(ws, es, i, j, k - 1);
    }
    OrderStep(ws[k - 1], es[k - 1], a, b);
  }

  /** Non-overtaking: a later request of equal or lower priority is granted only after the
      earlier one was granted or timed out. */
  lemma NoOvertaking(ws: seq<World>, es: seq<Event>, i: nat, j: nat, k: nat) returns (m: nat)
    requires Run(ws, es) && i < j < k < |es|
    requires es[i].Enqueue? && es[j].Enqueue? && es[k].Turn? && es[k].r == es[j].r
    requires !Above(es[j].r.priority, es[i].r.priority)
    requires Poll(ws[k].lock, es[k].r, es[k].mono, es[k].now).1.Granted?
    ensures i < m < k && Removes(ws[m], es[m], es[i].r)
  {
    var s, a, b := ws[k].waiting, es[i].r, es[j].r;
    if a in s {
      GrantedExactly(ws, es, k);
      AlwaysInv(ws, es, k);
      var p: nat :| Leads(s, b, p);
      ArrivalOrderKept(ws, es, i, j, k);
      var x, y := BeforePositions(s, a, b);
      assert false;
    }
    m := LeavesByTurn(ws, es, i, k);
  }
}
