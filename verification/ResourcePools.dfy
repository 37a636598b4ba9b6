/** `ResourcePool` and the expiry sweep of `ResourceManager` (adapter_resource_manager.py): a
    monitor of a lock, an event, available and active stores and a size counter. Every locked
    section runs without suspension, so it is one step. */
module ResourcePools {
  import opened Common

  datatype Status = Active | Released | Expired | Failed

  datatype Config = Config(minSize: nat, maxSize: nat, ttl: Option<real>)

  /** A handle as seen from outside: its resource, its age and whether it is still ACTIVE. */
  datatype Lease = Lease(resource: nat, createdAt: real, active: bool)

  /** The pool's fields, plus its history: every handle ever issued (a handle is its index),
      every resource ever made, and the number retired, that is, released but not returned. */
  datatype Core = Core(
    available: seq<(nat, real)>, active: map<nat, nat>, size: int, event: bool,
    leases: seq<Lease>, made: set<nat>, retired: nat)

  datatype Acquisition = Lent(resource: nat) | CreationFailed | MustWait

  function Lend(s: Core, resource: nat, now: real): Core {
    s.(active := s.active[resource := |s.leases|], leases := s.leases + [Lease(resource, now, true)])
  }

  /** The locked section of `acquire`; `made` is what the factory returns if it is called. */
  function TryAcquire(c: Config, s: Core, made: Option<nat>, now: real): (Core, Acquisition) {
    if s.available != [] then
      var last := |s.available| - 1;
      var resource := s.available[last].0;
      (Lend(s.(available := s.available[..last]), resource, now), Lent(resource))
    else if s.size < c.maxSize then
      if made.Some? then
        (Lend(s.(size := s.size + 1, made := s.made + {made.value}), made.value, now), Lent(made.value))
      else (s, CreationFailed)
    else (s.(event := false), MustWait)
  }

  predicate LeaseExpired(c: Config, l: Lease, now: real) {
    c.ttl.Some? && now - l.createdAt >= c.ttl.value
  }

  /** `healthy` is the resource's own health answer, true if it has none. */
  function Returns(c: Config, s: Core, h: nat, healthy: bool, now: real): bool
    requires h < |s.leases|
  {
    s.leases[h].active && healthy && !LeaseExpired(c, s.leases[h], now)
  }

  function Release(c: Config, s: Core, h: nat, healthy: bool, now: real): Core
    requires h < |s.leases|
  {
    var l := s.leases[h];
    var s1 := s.(active := s.active - {l.resource}, leases := s.leases[h := l.(active := false)]);
    if Returns(c, s, h, healthy, now) then s1.(available := s.available + [(l.resource, now)], event := true)
    else if l.active then s1.(retired := s.retired + 1)
    else s1
  }

  function Unexpired(available: seq<(nat, real)>, ttl: real, now: real): seq<(nat, real)> {
    if available == [] then []
    else
      var n := |available| - 1;
      Unexpired(available[..n], ttl, now) + if now - available[n].1 < ttl then [available[n]] else []
  }

  /** The resources past their time, in order. */
  function Outdated(available: seq<(nat, real)>, ttl: real, now: real): seq<nat> {
    if available == [] then []
    else
      var n := |available| - 1;
      Outdated(available[..n], ttl, now) + if now - available[n].1 < ttl then [] else [available[n].0]
  }

  lemma {:induction false} SweepSplits(available: seq<(nat, real)>, ttl: real, now: real)
    ensures |Unexpired(available, ttl, now)| + |Outdated(available, ttl, now)| == |available|
  {
    if available != [] {
      SweepSplits(available[..|available| - 1], ttl, now);
    }
  }

  function Sweep(c: Config, s: Core, now: real): Core {
    if c.ttl.None? then s
    else
      var valid := Unexpired(s.available, c.ttl.value, now);
      s.(available := valid, size := s.size - (|s.available| - |valid|))
  }

  function Filled(products: seq<Option<nat>>, now: real): seq<(nat, real)> {
    if products == [] then []
    else
      var n := |products| - 1;
      Filled(products[..n], now) + if products[n].Some? then [(products[n].value, now)] else []
  }

  /** The first `initialize`: what the factory produced goes in, and the event is set if anything did. */
  function Fill(s: Core, products: seq<Option<nat>>, now: real): Core {
    var available := s.available + Filled(products, now);
    s.(available := available,
       size := s.size + |Filled(products, now)|,
       event := s.event || available != [],
       made := s.made + (set p | p in products && p.Some? :: p.value))
  }

  // ---------- The classes ----------

  class ResourceHandle {
    const resource: nat
    const createdAt: real
    const ttl: Option<real>
    ghost const serial: nat
    var status: Status

    ghost function Abs(): Lease
      reads this
    {
      Lease(resource, createdAt, status == Active)
    }

    constructor (resource: nat, createdAt: real, ttl: Option<real>, ghost serial: nat)
      ensures Abs() == Lease(resource, createdAt, true)
      ensures this.resource == resource && this.ttl == ttl && this.serial == serial
    {
      this.resource, this.createdAt, this.ttl, this.serial := resource, createdAt, ttl, serial;
      status := Active;
    }

    predicate IsHealthy(answer: bool)
      reads this
    {
      status == Active && answer
    }

    predicate IsExpired(now: real) {
      ttl.Some? && now - createdAt >= ttl.value
    }
  }

  ghost function LeasesOf(handles: seq<ResourceHandle>): seq<Lease>
    reads handles
  {
    seq(|handles|, i requires 0 <= i < |handles| reads handles => handles[i].Abs())
  }

  ghost function Serials(active: map<nat, ResourceHandle>): map<nat, nat> {
    map r | r in active :: active[r].serial
  }

  class ResourcePool {
    const minSize: nat
    const maxSize: nat
    const ttl: Option<real>
    var availableResources: seq<(nat, real)>
    var activeResources: map<nat, ResourceHandle>
    var currentSize: int
    var availableEvent: bool
    var initialized: bool
    ghost var issued: seq<ResourceHandle>
    ghost var made: set<nat>
    ghost var retired: nat

    ghost function Cfg(): Config { Config(minSize, maxSize, ttl) }

    ghost predicate Valid()
      reads `issued, `activeResources
    {
      && (forall i :: 0 <= i < |issued| ==> issued[i].serial == i && issued[i].ttl == ttl)
      && (forall r :: r in activeResources ==> activeResources[r] in issued)
    }

    ghost function Leases(): seq<Lease>
      reads `issued, issued
    {
      LeasesOf(issued)
    }

    ghost function Abs(): Core
      reads this, issued
    {
      Core(availableResources, Serials(activeResources), currentSize, availableEvent, Leases(), made, retired)
    }

    constructor (config: Config)
      ensures Cfg() == config && Valid() && !initialized
      ensures Abs() == Core([], map[], 0, false, [], {}, 0)
    {
      minSize, maxSize, ttl := config.minSize, config.maxSize, config.ttl;
      availableResources, activeResources, currentSize := [], map[], 0;
      availableEvent, initialized := false, false;
      issued, made, retired := [], {}, 0;
    }

    /** The loop of `initialize`; `products` are the factory's answers, `None` a failed creation. */
    method FillAvailable(products: seq<Option<nat>>, now: real)
      requires |products| == minSize
      modifies this`availableResources, this`currentSize, this`made
      ensures availableResources == old(availableResources) + Filled(products, now)
      ensures currentSize == old(currentSize) + |Filled(products, now)|
      ensures made == old(made) + (set p | p in products && p.Some? :: p.value)
    {
      for i := 0 to minSize
        invariant availableResources == old(availableResources) + Filled(products[..i], now)
        invariant currentSize == old(currentSize) + |Filled(products[..i], now)|
        invariant made == old(made) + (set p | p in products[..i] && p.Some? :: p.value)
      {
        assert products[..i + 1][..i] == products[..i];
        assert forall p :: p in products[..i + 1] <==> p in products[..i] || p == products[i];
        if products[i].Some? {
          availableResources := availableResources + [(products[i].value, now)];
          currentSize := currentSize + 1;
          made := made + {products[i].value};
        }
      }
      assert products[..minSize] == products;
    }

    method Initialize(products: seq<Option<nat>>, now: real)
      requires Valid() && |products| == minSize
      modifies this`availableResources, this`currentSize, this`availableEvent, this`initialized, this`made
      ensures Valid() && initialized
      ensures Abs() == if old(initialized) then old(Abs()) else Fill(old(Abs()), products, now)
    {
      hide LeasesOf, Serials, Filled;
      if initialized {
        return;
      }
      FillAvailable(products, now);
      initialized := true;
      if availableResources != [] {
        availableEvent := true;
      }
    }

    method CreateHandle(resource: nat, now: real) returns (handle: ResourceHandle)
      requires Valid()
      modifies this`activeResources, this`issued
      ensures Valid() && fresh(handle) && handle.resource == resource && handle.status == Active
      ensures issued == old(issued) + [handle]
      ensures Serials(activeResources) == Serials(old(activeResources))[resource := |old(issued)|]
      ensures Leases() == old(Leases()) + [Lease(resource, now, true)]
    {
      handle := new ResourceHandle(resource, now, ttl, |issued|);
      activeResources := activeResources[resource := handle];
      issued := issued + [handle];
    }

    /** The locked section of `acquire`. */
    method AcquireSection(product: Option<nat>, now: real) returns (outcome: Acquisition, handle: ResourceHandle?)
      requires Valid()
      modifies this
      ensures Valid()
      ensures (Abs(), outcome) == TryAcquire(Cfg(), old(Abs()), product, now)
      ensures outcome.Lent? <==> handle != null
      ensures handle != null ==> handle.resource == outcome.resource && issued == old(issued) + [handle]
    {
      handle := null;
      if availableResources != [] {
        var last := |availableResources| - 1;
        var resource := availableResources[last].0;
        availableResources := availableResources[..last];
        handle := CreateHandle(resource, now);
        return Lent(resource), handle;
      }
      if currentSize < maxSize {
        if product.Some? {
          currentSize := currentSize + 1;
          made := made + {product.value};
          handle := CreateHandle(product.value, now);
          return Lent(product.value), handle;
        } else {
          return CreationFailed, null;
        }
      }
      availableEvent := false;
      return MustWait, null;
    }

    ghost predicate Issued(handle: ResourceHandle)
      reads this, issued, handle
    {
      handle.serial < |issued| && issued[handle.serial] == handle
    }

    method MarkReleased(handle: ResourceHandle)
      requires Valid() && Issued(handle)
      modifies handle`status
      ensures Valid() && Issued(handle) && |Leases()| == |old(Leases())|
      ensures old(Leases())[handle.serial] == old(handle.Abs())
      ensures Leases() == old(Leases())[handle.serial := old(handle.Abs()).(active := false)]
    {
      handle.status := Released;
    }

    method Unlist(resource: nat)
      requires Valid()
      modifies this`activeResources
      ensures Valid() && Serials(activeResources) == Serials(old(activeResources)) - {resource}
    {
      if resource in activeResources {
        activeResources := activeResources - {resource};
      }
    }

    /** `release`; `answer` is the resource's own health answer. */
    method ReleaseHandle(handle: ResourceHandle, answer: bool, now: real)
      requires Valid() && Issued(handle)
      modifies this, handle
      ensures Valid() && issued == old(issued)
      ensures Abs() == Release(Cfg(), old(Abs()), handle.serial, answer, now)
    {
      hide LeasesOf, Serials;
      Unlist(handle.resource);
      // Health and expiry are read before the status changes.
      var shouldReturnToPool := handle.IsHealthy(answer) && !handle.IsExpired(now);
      ghost var wasActive := handle.status == Active;
      MarkReleased(handle);
      if shouldReturnToPool {
        availableResources := availableResources + [(handle.resource, now)];
        availableEvent := true;
      } else if wasActive {
        retired := retired + 1;
      }
    }

    /** The loop of the sweep. */
    method SweepAvailable(ttl: real, now: real) returns (expired: seq<nat>)
      modifies this`availableResources, this`currentSize
      ensures availableResources == Unexpired(old(availableResources), ttl, now)
      ensures expired == Outdated(old(availableResources), ttl, now)
      ensures currentSize == old(currentSize) - |expired|
    {
      expired := [];
      var valid: seq<(nat, real)> := [];
      for i := 0 to |availableResources|
        invariant unchanged(this`availableResources) && currentSize == old(currentSize) - |expired|
        invariant valid == Unexpired(availableResources[..i], ttl, now)
        invariant expired == Outdated(availableResources[..i], ttl, now)
      {
        var (resource, added) := availableResources[i];
        assert availableResources[..i + 1][..i] == availableResources[..i];
        if now - added < ttl {
          valid := valid + [(resource, added)];
        } else {
          expired := expired + [resource];
          currentSize := currentSize - 1;
        }
      }
      assert availableResources[..|availableResources|] == availableResources;
      availableResources := valid;
    }

    /** `_check_resource_expiration`; the expired resources are the ones to close. */
    method CheckResourceExpiration(now: real) returns (expired: seq<nat>)
      requires Valid()
      modifies this`availableResources, this`currentSize
      ensures Valid() && Abs() == Sweep(Cfg(), old(Abs()), now)
      ensures expired == if ttl.None? then [] else Outdated(old(availableResources), ttl.value, now)
    {
      hide LeasesOf, Serials, Unexpired, Outdated;
      if ttl.None? {
        return [];
      }
      SweepSplits(availableResources, ttl.value, now);
      expired := SweepAvailable(ttl.value, now);
    }
  }

  // ---------- The step system ----------

  /** Where a task inside `acquire` is: about to take the lock, between the locked section and
      the wait, or parked on the event, and then woken or not. */
  datatype Phase = Trying | Cleared | Parked(woken: bool)

  datatype Waiter = Waiter(start: real, timeout: real, phase: Phase)

  datatype World = World(core: Core, waiters: map<nat, Waiter>)

  datatype Event =
    | Begin(task: nat, now: real, timeout: real)
    | Section(task: nat, product: Option<nat>, now: real)
    | Park(task: nat, now: real)
    | Wake(task: nat)
    | GiveUp(task: nat, now: real)
    | Return(handle: nat, healthy: bool, now: real)
    | Expiry(now: real)

  predicate Enabled(w: World, e: Event) {
    match e
    case Begin(t, _, _) => t !in w.waiters
    case Section(t, product, _) =>
      t in w.waiters && w.waiters[t].phase.Trying? && (product.Some? ==> product.value !in w.core.made)
    case Park(t, now) =>
      t in w.waiters && w.waiters[t].phase.Cleared? && now - w.waiters[t].start < w.waiters[t].timeout
    case Wake(t) => t in w.waiters && w.waiters[t].phase == Parked(true)
    case GiveUp(t, now) =>
      && t in w.waiters && (w.waiters[t].phase.Cleared? || w.waiters[t].phase.Parked?)
      && now - w.waiters[t].start >= w.waiters[t].timeout
    case Return(h, _, _) => h < |w.core.leases|
    case Expiry(_) => true
  }

  /** Setting the event wakes every parked task. */
  function WakeAll(waiters: map<nat, Waiter>): map<nat, Waiter> {
    map t | t in waiters ::
      if waiters[t].phase.Parked? then waiters[t].(phase := Parked(true)) else waiters[t]
  }

  function Step(c: Config, w: World, e: Event): World
    requires Enabled(w, e)
  {
    match e
    case Begin(t, now, timeout) => w.(waiters := w.waiters[t := Waiter(now, timeout, Trying)])
    case Section(t, product, now) =>
      var (s, outcome) := TryAcquire(c, w.core, product, now);
      World(s, if outcome.MustWait? then w.waiters[t := w.waiters[t].(phase := Cleared)] else w.waiters - {t})
    case Park(t, _) =>
      w.(waiters := w.waiters[t := w.waiters[t].(phase := if w.core.event then Trying else Parked(false))])
    case Wake(t) => w.(waiters := w.waiters[t := w.waiters[t].(phase := Trying)])
    case GiveUp(t, _) => w.(waiters := w.waiters - {t})
    case Return(h, healthy, now) =>
      World(Release(c, w.core, h, healthy, now),
            if Returns(c, w.core, h, healthy, now) then WakeAll(w.waiters) else w.waiters)
    case Expiry(now) => w.(core := Sweep(c, w.core, now))
  }

  /** The pool as `register_pool` publishes it: initialized, with fresh distinct resources. */
  function Registered(products: seq<Option<nat>>, now: real): World {
    World(Fill(Core([], map[], 0, false, [], {}, 0), products, now), map[])
  }

  ghost predicate FreshProducts(c: Config, products: seq<Option<nat>>) {
    && |products| == c.minSize
    && forall i, k :: 0 <= i < k < |products| && products[i].Some? ==> products[i] != products[k]
  }

  ghost predicate Run(c: Config, ws: seq<World>, es: seq<Event>, products: seq<Option<nat>>, now: real) {
    && FreshProducts(c, products)
    && |ws| == |es| + 1 && ws[0] == Registered(products, now)
    && forall i :: 0 <= i < |es| ==> Enabled(ws[i], es[i]) && ws[i + 1] == Step(c, ws[i], es[i])
  }

  // ---------- Invariants ----------

  ghost predicate WaitsOn(w: World, t: nat) {
    t in w.waiters && (w.waiters[t].phase.Cleared? || w.waiters[t].phase == Parked(false))
  }

  /** No lost wake-up. */
  ghost predicate WakeInv(c: Config, w: World) {
    && (w.core.available != [] ==> w.core.event)
    && (forall t :: t in w.waiters && w.waiters[t].phase == Parked(false) ==> !w.core.event)
    && (forall t :: WaitsOn(w, t) && !w.core.event ==> w.core.available == [] && w.core.size >= c.maxSize)
  }

  function Lessees(s: Core): set<nat> {
    set h | 0 <= h < |s.leases| && s.leases[h].active
  }

  ghost predicate DistinctEntries(available: seq<(nat, real)>) {
    forall i, k :: 0 <= i < k < |available| ==> available[i].0 != available[k].0
  }

  /** Every resource is lent to at most one ACTIVE handle or idle at most once, never both. */
  ghost predicate Exclusive(s: Core) {
    && (forall h, k :: 0 <= h < k < |s.leases| && s.leases[h].active && s.leases[k].active ==>
          s.leases[h].resource != s.leases[k].resource)
    && DistinctEntries(s.available)
    && (forall h, i :: 0 <= h < |s.leases| && s.leases[h].active && 0 <= i < |s.available| ==>
          s.leases[h].resource != s.available[i].0)
  }

  ghost predicate Known(s: Core) {
    && (forall h :: 0 <= h < |s.leases| ==> s.leases[h].resource in s.made)
    && (forall i :: 0 <= i < |s.available| ==> s.available[i].0 in s.made)
    && (forall r :: r in s.active ==>
          s.active[r] < |s.leases| && s.leases[s.active[r]].active && s.leases[s.active[r]].resource == r)
  }

  /** Conservation over ACTIVE handles, which holds whatever clients release. */
  ghost predicate Conserved(c: Config, s: Core) {
    && |Lessees(s)| + |s.available| + s.retired == s.size
    && s.size <= MaxInt(c.minSize, c.maxSize)
  }

  ghost predicate Inv(c: Config, w: World) {
    WakeInv(c, w) && Exclusive(w.core) && Known(w.core) && Conserved(c, w.core)
  }

  /** The sweep keeps exactly the entries within their time. */
  lemma {:induction false} UnexpiredExactly(available: seq<(nat, real)>, ttl: real, now: real)
    ensures |Unexpired(available, ttl, now)| <= |available|
    ensures forall x :: x in Unexpired(available, ttl, now) <==> x in available && now - x.1 < ttl
  {
    if available != [] {
      var n := |available| - 1;
      UnexpiredExactly(available[..n], ttl, now);
      assert available == available[..n] + [available[n]];
    }
  }

  lemma {:induction false} UnexpiredDistinct(available: seq<(nat, real)>, ttl: real, now: real)
    requires DistinctEntries(available)
    ensures DistinctEntries(Unexpired(available, ttl, now))
  {
    if available != [] {
      var n := |available| - 1;
      UnexpiredDistinct(available[..n], ttl, now);
      UnexpiredExactly(available[..n], ttl, now);
      assert forall x :: x in available[..n] ==> x.0 != available[n].0;
      var kept := Unexpired(available[..n], ttl, now);
      assert forall i :: 0 <= i < |kept| ==> kept[i] in kept;
    }
  }

  /** `part` is `all` with entries left out: `place[i]` is where entry `i` was. */
  ghost predicate InOrderOf(part: seq<(nat, real)>, all: seq<(nat, real)>, place: seq<nat>) {
    && |place| == |part|
    && (forall i :: 0 <= i < |part| ==> place[i] < |all| && part[i] == all[place[i]])
    && (forall i, k :: 0 <= i < k < |part| ==> place[i] < place[k])
  }

  /** The sweep keeps the order. */
  lemma {:induction false} UnexpiredInOrder(available: seq<(nat, real)>, ttl: real, now: real) returns (place: seq<nat>)
    ensures InOrderOf(Unexpired(available, ttl, now), available, place)
  {
    place := [];
    if available != [] {
      var n := |available| - 1;
      place := UnexpiredInOrder(available[..n], ttl, now);
      if now - available[n].1 < ttl {
        place := place + [n];
      }
    }
  }

  /** What it hands out for closing are the resources past their time. */
  lemma {:induction false} OutdatedExactly(available: seq<(nat, real)>, ttl: real, now: real)
    ensures forall r :: r in Outdated(available, ttl, now) <==>
              exists i :: 0 <= i < |available| && available[i].0 == r && now - available[i].1 >= ttl
  {
    if available != [] {
      var n := |available| - 1;
      var front := available[..n];
      OutdatedExactly(front, ttl, now);
      forall r ensures r in Outdated(available, ttl, now) <==>
          exists i :: 0 <= i < |available| && available[i].0 == r && now - available[i].1 >= ttl
      {
        if r in Outdated(front, ttl, now) {
          var i :| 0 <= i < |front| && front[i].0 == r && now - front[i].1 >= ttl;
          assert available[i] == front[i];
        }
        if i :| 0 <= i < |available| && available[i].0 == r && now - available[i].1 >= ttl {
          if i < n {
            assert front[i] == available[i];
          }
        }
      }
    }
  }

  ghost predicate Unused(s: Core, resource: nat) {
    && (forall h :: 0 <= h < |s.leases| && s.leases[h].active ==> s.leases[h].resource != resource)
    && (forall i :: 0 <= i < |s.available| ==> s.available[i].0 != resource)
  }

  lemma LendExclusive(s: Core, resource: nat, now: real)
    requires Exclusive(s) && Unused(s, resource)
    ensures Exclusive(Lend(s, resource, now))
  {
  }

  lemma LendKnown(s: Core, resource: nat, now: real)
    requires Known(s) && resource in s.made
    ensures Known(Lend(s, resource, now))
  {
  }

  lemma LendCounts(s: Core, resource: nat, now: real)
    ensures |Lessees(Lend(s, resource, now))| == |Lessees(s)| + 1
  {
    var leases := Lend(s, resource, now).leases;
    assert forall h :: 0 <= h < |s.leases| ==> leases[h] == s.leases[h];
    assert Lessees(Lend(s, resource, now)) == Lessees(s) + {|s.leases|};
  }

  lemma LendKeeps(s: Core, resource: nat, now: real)
    requires Exclusive(s) && Known(s) && resource in s.made && Unused(s, resource)
    ensures Exclusive(Lend(s, resource, now)) && Known(Lend(s, resource, now))
    ensures |Lessees(Lend(s, resource, now))| == |Lessees(s)| + 1
  {
    hide Exclusive, Known, Unused, Lessees, Lend;
    LendExclusive(s, resource, now);
    LendKnown(s, resource, now);
    LendCounts(s, resource, now);
  }

  lemma SectionKeeps(c: Config, w: World, e: Event)
    requires Inv(c, w) && e.Section? && Enabled(w, e)
    ensures Inv(c, Step(c, w, e))
  {
    var s := w.core;
    var w' := Step(c, w, e);
    if s.available != [] {
      var last := |s.available| - 1;
      var s1 := s.(available := s.available[..last]);
      assert Lessees(s1) == Lessees(s);
      LendKeeps(s1, s.available[last].0, e.now);
    } else if s.size < c.maxSize && e.product.Some? {
      var s1 := s.(size := s.size + 1, made := s.made + {e.product.value});
      assert Lessees(s1) == Lessees(s);
      LendKeeps(s1, e.product.value, e.now);
    } else {
      assert Lessees(w'.core) == Lessees(s);
    }
    assert forall t :: WaitsOn(w', t) && t != e.task ==> WaitsOn(w, t);
  }

  lemma ReleaseExclusive(c: Config, s: Core, h: nat, healthy: bool, now: real)
    requires Exclusive(s) && Known(s) && h < |s.leases|
    ensures Exclusive(Release(c, s, h, healthy, now))
  {
    var s' := Release(c, s, h, healthy, now);
    assert forall k :: 0 <= k < |s.leases| && s'.leases[k].active ==> k != h && s'.leases[k] == s.leases[k];
    assert forall k :: 0 <= k < |s.leases| && s'.leases[k].active && s.leases[h].active ==>
        s.leases[k].resource != s.leases[h].resource;
  }

  lemma ReleaseKnown(c: Config, s: Core, h: nat, healthy: bool, now: real)
    requires Exclusive(s) && Known(s) && h < |s.leases|
    ensures Known(Release(c, s, h, healthy, now))
  {
    var s' := Release(c, s, h, healthy, now);
    forall r | r in s'.active
      ensures s'.active[r] < |s'.leases| && s'.leases[s'.active[r]].active && s'.leases[s'.active[r]].resource == r
    {
      assert s'.active[r] != h;
    }
  }

  lemma ReleaseConserves(c: Config, s: Core, h: nat, healthy: bool, now: real)
    requires Conserved(c, s) && h < |s.leases|
    ensures Conserved(c, Release(c, s, h, healthy, now))
  {
    assert Lessees(Release(c, s, h, healthy, now)) == Lessees(s) - {h};
    assert h in Lessees(s) <==> s.leases[h].active;
  }

  lemma ReleaseWakes(c: Config, w: World, e: Event)
    requires WakeInv(c, w) && e.Return? && Enabled(w, e)
    ensures WakeInv(c, Step(c, w, e))
  {
    hide LeaseExpired;
    assert forall t :: WaitsOn(Step(c, w, e), t) ==> WaitsOn(w, t);
  }

  lemma ReturnKeeps(c: Config, w: World, e: Event)
    requires Inv(c, w) && e.Return? && Enabled(w, e)
    ensures Inv(c, Step(c, w, e))
  {
    hide WakeInv, Exclusive, Known, Conserved, Release, Returns;
    ReleaseExclusive(c, w.core, e.handle, e.healthy, e.now);
    ReleaseKnown(c, w.core, e.handle, e.healthy, e.now);
    ReleaseConserves(c, w.core, e.handle, e.healthy, e.now);
    ReleaseWakes(c, w, e);
  }

  lemma ExpiryKeeps(c: Config, w: World, e: Event)
    requires Inv(c, w) && e.Expiry? && Enabled(w, e)
    ensures Inv(c, Step(c, w, e))
  {
    var s := w.core;
    var w' := Step(c, w, e);
    assert Lessees(w'.core) == Lessees(s);
    if c.ttl.Some? {
      UnexpiredExactly(s.available, c.ttl.value, e.now);
      UnexpiredDistinct(s.available, c.ttl.value, e.now);
      forall i | 0 <= i < |w'.core.available| ensures w'.core.available[i] in s.available {}
    }
    assert forall t :: WaitsOn(w', t) ==> WaitsOn(w, t);
  }

  /** Entering, parking, being woken and giving up leave the pool itself alone. */
  lemma WaiterKeeps(c: Config, w: World, e: Event)
    requires Inv(c, w) && Enabled(w, e) && (e.Begin? || e.Park? || e.Wake? || e.GiveUp?)
    ensures Inv(c, Step(c, w, e)) && Step(c, w, e).core == w.core
    ensures forall t :: t != e.task ==> (t in Step(c, w, e).waiters <==> t in w.waiters)
    ensures e.task in Step(c, w, e).waiters <==> !e.GiveUp?
  {
    hide Exclusive, Known, Conserved;
    var w' := Step(c, w, e);
    assert w'.core == w.core;
    forall t | WaitsOn(w', t) && !w'.core.event
      ensures w'.core.available == [] && w'.core.size >= c.maxSize
    {
      assert if t == e.task then e.Park? && WaitsOn(w, t) else WaitsOn(w, t);
    }
  }

  lemma StepKeeps(c: Config, w: World, e: Event)
    requires Inv(c, w) && Enabled(w, e)
    ensures Inv(c, Step(c, w, e))
  {
    hide Inv, Step;
    match e
    case Section(_, _, _) => SectionKeeps(c, w, e);
    case Return(_, _, _) => ReturnKeeps(c, w, e);
    case Expiry(_) => ExpiryKeeps(c, w, e);
    case _ => WaiterKeeps(c, w, e);
  }

  lemma {:induction false} FilledFacts(products: seq<Option<nat>>, now: real)
    ensures |Filled(products, now)| <= |products|
    ensures forall i :: 0 <= i < |Filled(products, now)| ==> Some(Filled(products, now)[i].0) in products
    ensures (forall i, k :: 0 <= i < k < |products| && products[i].Some? ==> products[i] != products[k]) ==>
              forall i, k :: 0 <= i < k < |Filled(products, now)| ==>
                Filled(products, now)[i].0 != Filled(products, now)[k].0
  {
    if products != [] {
      var n := |products| - 1;
      FilledFacts(products[..n], now);
      assert products == products[..n] + [products[n]];
    }
  }

  /** The pool as published holds, in the order they were made, all the factory produced, and nothing else. */
  lemma {:induction false} FilledExactly(products: seq<Option<nat>>, now: real)
    ensures forall x :: x in Filled(products, now) <==> Some(x.0) in products && x.1 == now
    ensures (forall i :: 0 <= i < |products| ==> products[i].Some?) ==>
              (&& |Filled(products, now)| == |products|
               && forall i :: 0 <= i < |products| ==> Filled(products, now)[i].0 == products[i].value)
  {
    if products != [] {
      var n := |products| - 1;
      FilledExactly(products[..n], now);
      assert products == products[..n] + [products[n]];
    }
  }

  lemma RegisteredExactly(products: seq<Option<nat>>, now: real)
    ensures var w := Registered(products, now);
            && (forall x :: x in w.core.available <==> Some(x.0) in products && x.1 == now)
            && w.core.size == |w.core.available| && (w.core.event <==> w.core.available != [])
            && w.core.leases == [] && w.core.active == map[] && w.core.retired == 0 && w.waiters == map[]
            && (forall r :: r in w.core.made <==> Some(r) in products)
  {
    FilledExactly(products, now);
    assert forall r :: Some(r) in products ==> Some(r).value in Registered(products, now).core.made;
  }

  lemma RegisteredInv(c: Config, products: seq<Option<nat>>, now: real)
    requires FreshProducts(c, products)
    ensures Inv(c, Registered(products, now))
  {
    hide Filled;
    FilledFacts(products, now);
    assert Lessees(Registered(products, now).core) == {};
  }

  /** Every reachable state, in every interleaving, satisfies the invariant. */
  lemma {:induction false} AlwaysInv(c: Config, ws: seq<World>, es: seq<Event>, products: seq<Option<nat>>, now: real, i: nat)
    requires Run(c, ws, es, products, now) && i < |ws|
    ensures Inv(c, ws[i])
    decreases i
  {
    hide Inv, Registered, Enabled, Step, FreshProducts;
    if i == 0 {
      RegisteredInv(c, products, now);
    } else {
      AlwaysInv(c, ws, es, products, now, i - 1);
      StepKeeps(c, ws[i - 1], es[i - 1]);
    }
  }

  /** No lost wake-up, in every reachable state: a task parked and not woken means the event is
      unset, nothing is available and the pool is at capacity; anything available means the
      event is set. */
  lemma NoLostWakeUp(c: Config, ws: seq<World>, es: seq<Event>, products: seq<Option<nat>>, now: real, i: nat)
    requires Run(c, ws, es, products, now) && i < |ws|
    ensures forall t :: t in ws[i].waiters && ws[i].waiters[t].phase == Parked(false) ==>
              !ws[i].core.event && ws[i].core.available == [] && ws[i].core.size >= c.maxSize
    ensures ws[i].core.available != [] ==> ws[i].core.event
  {
    AlwaysInv(c, ws, es, products, now, i);
    assert forall t :: t in ws[i].waiters && ws[i].waiters[t].phase == Parked(false) ==> WaitsOn(ws[i], t);
  }

  // ---------- What each operation does, outright ----------

  /** Handle `h` is the one new handle: ACTIVE, on `resource`, listed under it; the others are as they were. */
  ghost predicate OneNewLease(s: Core, s': Core, resource: nat, now: real) {
    && |s'.leases| == |s.leases| + 1
    && s'.leases[|s.leases|] == Lease(resource, now, true)
    && (forall h :: 0 <= h < |s.leases| ==> s'.leases[h] == s.leases[h])
    && (forall r :: r in s'.active <==> r in s.active || r == resource)
    && resource in s'.active && s'.active[resource] == |s.leases|
    && (forall r :: r in s.active && r != resource ==> s'.active[r] == s.active[r])
  }

  /** When an acquisition succeeds, and what it does to the pool: the last available resource is lent;
      else, below capacity, the factory's product is counted and lent, or its failure reported; else
      the event is cleared and the task left to wait. */
  lemma AcquiresExactly(c: Config, w: World, e: Event)
    requires e.Section? && Enabled(w, e)
    ensures var s, s', outcome := w.core, Step(c, w, e).core, TryAcquire(c, w.core, e.product, e.now).1;
            && (outcome.MustWait? <==> s.available == [] && s.size >= c.maxSize)
            && (outcome.CreationFailed? <==> s.available == [] && s.size < c.maxSize && e.product.None?)
            && (s.available != [] ==>
                  var last := s.available[|s.available| - 1];
                  && outcome == Lent(last.0) && OneNewLease(s, s', last.0, e.now)
                  && s.available == s'.available + [last] && s'.size == s.size && s'.made == s.made)
            && (s.available == [] && s.size < c.maxSize && e.product.Some? ==>
                  && outcome == Lent(e.product.value) && OneNewLease(s, s', e.product.value, e.now)
                  && s'.available == [] && s'.size == s.size + 1 && s'.made == s.made + {e.product.value})
            && (!outcome.Lent? ==> s'.(event := s.event) == s)
            && s'.event == (s.event && !outcome.MustWait?) && s'.retired == s.retired
  {
  }

  /** Whether the task is still waiting after its locked section. */
  lemma WaitsExactly(c: Config, w: World, e: Event)
    requires e.Section? && Enabled(w, e)
    ensures e.task in Step(c, w, e).waiters <==> w.core.available == [] && w.core.size >= c.maxSize
    ensures forall t :: t != e.task ==> (t in Step(c, w, e).waiters <==> t in w.waiters)
  {
  }

  /** What a release does: the resource goes back, last, and the event is set, exactly when the handle
      was ACTIVE, the resource is healthy and the handle is within its lifetime; an ACTIVE handle's
      resource is otherwise retired. Only this handle stops being ACTIVE, and its resource's entry goes. */
  lemma ReleasesExactly(c: Config, w: World, e: Event)
    requires e.Return? && Enabled(w, e)
    ensures var s, s', l := w.core, Step(c, w, e).core, w.core.leases[e.handle];
            var back := l.active && e.healthy && (c.ttl.None? || e.now - l.createdAt < c.ttl.value);
            && s'.available == (if back then s.available + [(l.resource, e.now)] else s.available)
            && s'.event == (s.event || back)
            && s'.retired == (if l.active && !back then s.retired + 1 else s.retired)
            && s'.size == s.size && s'.made == s.made
            && |s'.leases| == |s.leases| && s'.leases[e.handle] == l.(active := false)
            && (forall h :: 0 <= h < |s.leases| && h != e.handle ==> s'.leases[h] == s.leases[h])
            && (forall r :: r in s'.active <==> r in s.active && r != l.resource)
            && (forall r :: r in s'.active ==> s'.active[r] == s.active[r])
            && (forall t :: t in Step(c, w, e).waiters <==> t in w.waiters)
            && (forall t :: t in w.waiters ==>
                  Step(c, w, e).waiters[t]
                  == if back && w.waiters[t].phase.Parked? then w.waiters[t].(phase := Parked(true)) else w.waiters[t])
  {
  }

  /** What the expiry sweep does: an entry stays exactly when it is within the lifetime, in the order it
      had, and the size counter falls by the number of those that go. */
  lemma SweepsExactly(c: Config, w: World, e: Event)
    requires e.Expiry?
    ensures var s, s' := w.core, Step(c, w, e).core;
            && (c.ttl.None? ==> s' == s)
            && (forall x :: x in s'.available <==>
                  x in s.available && (c.ttl.None? || e.now - x.1 < c.ttl.value))
            && s.size - s'.size == |s.available| - |s'.available|
            && s'.(available := s.available, size := s.size) == s
  {
    if c.ttl.Some? {
      UnexpiredExactly(w.core.available, c.ttl.value, e.now);
    }
  }

  /** The release of a resource while tasks are parked wakes every one of them, and whichever
      takes the lock next is lent that very resource. */
  lemma ReleaseServesParked(
      c: Config, ws: seq<World>, es: seq<Event>, products: seq<Option<nat>>, now: real, i: nat, t: nat, e: Event)
    requires Run(c, ws, es, products, now) && i < |ws|
    requires t in ws[i].waiters && ws[i].waiters[t].phase == Parked(false)
    requires e.Return? && Enabled(ws[i], e) && Returns(c, ws[i].core, e.handle, e.healthy, e.now)
    ensures var w1 := Step(c, ws[i], e);
            && w1.waiters[t].phase == Parked(true)
            && var w2 := Step(c, w1, Wake(t));
            forall product, later ::
              TryAcquire(c, w2.core, product, later).1 == Lent(ws[i].core.leases[e.handle].resource)
  {
    NoLostWakeUp(c, ws, es, products, now, i);
  }

  /** Exclusive lending, even when clients release handles repeatedly. */
  lemma LentToOne(c: Config, ws: seq<World>, es: seq<Event>, products: seq<Option<nat>>, now: real, i: nat)
    requires Run(c, ws, es, products, now) && i < |ws|
    ensures forall h, k :: 0 <= h < k < |ws[i].core.leases| && ws[i].core.leases[h].active && ws[i].core.leases[k].active ==>
              ws[i].core.leases[h].resource != ws[i].core.leases[k].resource
    ensures forall j, k :: 0 <= j < k < |ws[i].core.available| ==> ws[i].core.available[j].0 != ws[i].core.available[k].0
  {
    AlwaysInv(c, ws, es, products, now, i);
  }

  // ---------- Exact accounting ----------

  /** `active_resources` lists exactly the ACTIVE handles. */
  ghost predicate Listed(s: Core) {
    forall h :: 0 <= h < |s.leases| && s.leases[h].active ==>
      s.leases[h].resource in s.active && s.active[s.leases[h].resource] == h
  }

  lemma {:induction false} SameSize(m: map<nat, nat>, hs: set<nat>)
    requires forall r :: r in m ==> m[r] in hs
    requires forall r, q :: r in m && q in m && r != q ==> m[r] != m[q]
    ensures |m| <= |hs|
    ensures (forall h :: h in hs ==> exists r :: r in m && m[r] == h) ==> |m| == |hs|
    decreases |m|
  {
    if m == map[] {
      if hs != {} {
        var h :| h in hs;
      }
    } else {
      var r :| r in m;
      var m', hs' := m - {r}, hs - {m[r]};
      assert |m'| == |m| - 1 by { assert m'.Keys == m.Keys - {r}; }
      if forall h :: h in hs ==> exists q :: q in m && m[q] == h {
        forall h | h in hs' ensures exists q :: q in m' && m'[q] == h {
          var q :| q in m && m[q] == h;
          assert q in m' && m'[q] == h;
        }
      }
      SameSize(m', hs');
    }
  }

  /** The size counter never counts less than what `active_resources` lists, and is exact when
      every ACTIVE handle is listed. */
  lemma ListedAccounting(c: Config, w: World)
    requires Inv(c, w)
    ensures |w.core.active| + |w.core.available| + w.core.retired <= w.core.size
    ensures Listed(w.core) ==> |w.core.active| + |w.core.available| + w.core.retired == w.core.size
  {
    var s := w.core;
    SameSize(s.active, Lessees(s));
    if Listed(s) {
      forall h | h in Lessees(s) ensures exists r :: r in s.active && s.active[r] == h {
        assert s.active[s.leases[h].resource] == h;
      }
    }
  }

  /** A release that never hits another holder's entry. */
  predicate CleanRelease(s: Core, e: Event) {
    e.Return? && e.handle < |s.leases| ==> s.leases[e.handle].active || s.leases[e.handle].resource !in s.active
  }

  /** Exactly the release of a stale handle whose resource is lent again breaks the listing. */
  lemma ListingKeptExactly(c: Config, w: World, e: Event)
    requires Inv(c, w) && Listed(w.core) && Enabled(w, e)
    ensures Listed(Step(c, w, e).core) <==> CleanRelease(w.core, e)
  {
    var s, s' := w.core, Step(c, w, e).core;
    if e.Return? {
      var r := s.leases[e.handle].resource;
      if !CleanRelease(s, e) {
        var h := s.active[r];
        assert s'.leases[h].active && s'.leases[h].resource == r && r !in s'.active;
      }
    } else if e.Section? {
      StepKeeps(c, w, e);
    }
  }

  /** If every release is clean, then |active| + |available| + retired = current_size
      <= max(min_size, max_size) throughout. */
  lemma {:induction false} ExactAccounting(
      c: Config, ws: seq<World>, es: seq<Event>, products: seq<Option<nat>>, now: real, i: nat)
    requires Run(c, ws, es, products, now) && i < |ws|
    requires forall k :: 0 <= k < i ==> CleanRelease(ws[k].core, es[k])
    ensures Listed(ws[i].core)
    ensures |ws[i].core.active| + |ws[i].core.available| + ws[i].core.retired == ws[i].core.size
    ensures ws[i].core.size <= MaxInt(c.minSize, c.maxSize)
  {
    AlwaysInv(c, ws, es, products, now, i);
    if i > 0 {
      ExactAccounting(c, ws, es, products, now, i - 1);
      AlwaysInv(c, ws, es, products, now, i - 1);
      ListingKeptExactly(c, ws[i - 1], es[i - 1]);
    }
    ListedAccounting(c, ws[i]);
  }

  /** What a client can check: among the first `n` events no two releases are of one handle. */
  ghost predicate ReleasedOnce(es: seq<Event>, n: nat)
    requires n <= |es|
  {
    forall k, m :: 0 <= k < m < n && es[k].Return? && es[m].Return? ==> es[k].handle != es[m].handle
  }

  lemma StepLeases(c: Config, w: World, e: Event, h: nat)
    requires Enabled(w, e) && h < |Step(c, w, e).core.leases|
    requires h < |w.core.leases| ==> w.core.leases[h].active
    requires !(e.Return? && e.handle == h)
    ensures Step(c, w, e).core.leases[h].active
  {
  }

  /** A handle nobody has released is still ACTIVE. */
  lemma {:induction false} ActiveUntilReleased(
      c: Config, ws: seq<World>, es: seq<Event>, products: seq<Option<nat>>, now: real, i: nat, h: nat)
    requires Run(c, ws, es, products, now) && i < |ws| && h < |ws[i].core.leases|
    requires forall k :: 0 <= k < i && es[k].Return? ==> es[k].handle != h
    ensures ws[i].core.leases[h].active
    decreases i
  {
    if i > 0 {
      var w, e := ws[i - 1], es[i - 1];
      assert Enabled(w, e) && ws[i] == Step(c, w, e);
      if h < |w.core.leases| {
        ActiveUntilReleased(c, ws, es, products, now, i - 1, h);
      }
      StepLeases(c, w, e, h);
    }
  }

  /** If no handle is released twice, every release is clean. */
  lemma OnceIsClean(
      c: Config, ws: seq<World>, es: seq<Event>, products: seq<Option<nat>>, now: real, i: nat, k: nat)
    requires Run(c, ws, es, products, now) && k < i < |ws| && ReleasedOnce(es, i)
    ensures CleanRelease(ws[k].core, es[k])
  {
    if es[k].Return? && es[k].handle < |ws[k].core.leases| {
      ActiveUntilReleased(c, ws, es, products, now, k, es[k].handle);
    }
  }

  /** If each handle is released at most once, then |active| + |available| + retired =
      current_size <= max(min_size, max_size) throughout. */
  lemma AccountingIfReleasedOnce(
      c: Config, ws: seq<World>, es: seq<Event>, products: seq<Option<nat>>, now: real, i: nat)
    requires Run(c, ws, es, products, now) && i < |ws| && ReleasedOnce(es, i)
    ensures |ws[i].core.active| + |ws[i].core.available| + ws[i].core.retired == ws[i].core.size
    ensures ws[i].core.size <= MaxInt(c.minSize, c.maxSize)
  {
    forall k | 0 <= k < i ensures CleanRelease(ws[k].core, es[k]) {
      OnceIsClean(c, ws, es, products, now, i, k);
    }
    ExactAccounting(c, ws, es, products, now, i);
  }

  // ---------- Who is left to wake a parked task ----------

  ghost predicate SomebodyActive(s: Core) {
    exists h :: 0 <= h < |s.leases| && s.leases[h].active
  }

  lemma SomebodyCounted(s: Core)
    ensures SomebodyActive(s) <==> |Lessees(s)| > 0
  {
    if SomebodyActive(s) {
      var h :| 0 <= h < |s.leases| && s.leases[h].active;
      assert h in Lessees(s);
    } else {
      assert Lessees(s) == {};
    }
  }

  /** While a task is parked, some handle is ACTIVE if and only if fewer resources have been
      retired than the size counter counts. */
  lemma WakerExistsExactly(
      c: Config, ws: seq<World>, es: seq<Event>, products: seq<Option<nat>>, now: real, i: nat, t: nat)
    requires Run(c, ws, es, products, now) && i < |ws|
    requires t in ws[i].waiters && ws[i].waiters[t].phase == Parked(false)
    ensures SomebodyActive(ws[i].core) <==> ws[i].core.retired < ws[i].core.size
  {
    AlwaysInv(c, ws, es, products, now, i);
    NoLostWakeUp(c, ws, es, products, now, i);
    SomebodyCounted(ws[i].core);
  }

  /** Everything the size counter counts has been retired, and it leaves no room to create. */
  ghost predicate Starved(c: Config, s: Core) {
    s.retired == s.size && s.size >= c.maxSize
  }

  /** That is for ever: no step lends anything again. */
  lemma StarvedStep(c: Config, w: World, e: Event)
    requires Inv(c, w) && Starved(c, w.core) && Enabled(w, e)
    ensures Starved(c, Step(c, w, e).core) && |Step(c, w, e).core.leases| == |w.core.leases|
  {
    assert Lessees(w.core) == {} && w.core.available == [];
    assert e.Return? ==> e.handle !in Lessees(w.core);
  }

  lemma {:induction false} StarvedForEver(
      c: Config, ws: seq<World>, es: seq<Event>, products: seq<Option<nat>>, now: real, i: nat, k: nat)
    requires Run(c, ws, es, products, now) && i <= k < |ws| && Starved(c, ws[i].core)
    ensures Starved(c, ws[k].core) && |ws[k].core.leases| == |ws[i].core.leases|
    decreases k
  {
    if i < k {
      StarvedForEver(c, ws, es, products, now, i, k - 1);
      AlwaysInv(c, ws, es, products, now, k - 1);
      StarvedStep(c, ws[k - 1], es[k - 1]);
    }
  }

  // ---------- Witness runs ----------

  const SINGLE := Config(1, 1, None)

  /** A run of the pool of one resource, numbered 7, that ends in `last`. */
  ghost predicate Reaches(ws: seq<World>, es: seq<Event>, last: World) {
    Run(SINGLE, ws, es, [Some(7)], 0.0) && ws[|es|] == last
  }

  lemma Extend(ws: seq<World>, es: seq<Event>, last: World, e: Event)
    requires Reaches(ws, es, last) && Enabled(last, e)
    ensures Reaches(ws + [Step(SINGLE, last, e)], es + [e], Step(SINGLE, last, e))
  {
    hide Step, Enabled, Registered, FreshProducts;
  }

  lemma Registration()
    ensures Reaches([Registered([Some(7)], 0.0)], [], World(Core([(7, 0.0)], map[], 1, true, [], {7}, 0), map[]))
  {
    assert Filled([Some(7)], 0.0) == [(7, 0.0)] by { assert [Some(7)][..0] == []; }
    assert Registered([Some(7)], 0.0).core == Core([(7, 0.0)], map[], 1, true, [], {7}, 0);
  }

  /** A task begins and is lent the available resource. */
  lemma Lends(ws: seq<World>, es: seq<Event>, s: Core, task: nat) returns (ws': seq<World>, es': seq<Event>)
    requires s.available == [(7, 0.0)] && Reaches(ws, es, World(s, map[]))
    ensures Reaches(ws', es', World(Lend(s.(available := []), 7, 0.0), map[]))
    ensures es' == es + [Begin(task, 0.0, 1.0), Section(task, None, 0.0)]
  {
    hide Reaches, Lend;
    var w, e1, e2 := World(s, map[]), Begin(task, 0.0, 1.0), Section(task, None, 0.0);
    Extend(ws, es, w, e1);
    var w1 := Step(SINGLE, w, e1);
    Extend(ws + [w1], es + [e1], w1, e2);
    ws' := ws + [w1] + [Step(SINGLE, w1, e2)];
    es' := es + [e1] + [e2];
    assert w1.waiters - {task} == map[] && s.available[..0] == [];
  }

  const LENT := Core([], map[7 := 0], 1, true, [Lease(7, 0.0, true)], {7}, 0)

  lemma LentOnce() returns (ws: seq<World>, es: seq<Event>)
    ensures Reaches(ws, es, World(LENT, map[]))
    ensures es == [Begin(0, 0.0, 1.0), Section(0, None, 0.0)]
  {
    hide Reaches;
    Registration();
    var s := Core([(7, 0.0)], map[], 1, true, [], {7}, 0);
    assert Lend(s.(available := []), 7, 0.0) == LENT;
    ws, es := Lends([Registered([Some(7)], 0.0)], [], s, 0);
  }

  /** The starved pool is reached, with no handle released twice: its only resource is released
      unhealthy. */
  lemma StarvationHappens() returns (ws: seq<World>, es: seq<Event>)
    ensures Run(SINGLE, ws, es, [Some(7)], 0.0) && ReleasedOnce(es, |es|) && Starved(SINGLE, ws[|es|].core)
  {
    ws, es := LentOnce();
    var w, e := World(LENT, map[]), Return(0, false, 0.0);
    Extend(ws, es, w, e);
    ws, es := ws + [Step(SINGLE, w, e)], es + [e];
  }

  const RETURNED := Core([(7, 0.0)], map[], 1, true, [Lease(7, 0.0, false)], {7}, 0)
  const RELENT := Core([], map[7 := 1], 1, true, [Lease(7, 0.0, false), Lease(7, 0.0, true)], {7}, 0)

  lemma StaleRelease()
    ensures Step(SINGLE, World(LENT, map[]), Return(0, true, 0.0)) == World(RETURNED, map[])
    ensures Lend(RETURNED.(available := []), 7, 0.0) == RELENT
    ensures Step(SINGLE, World(RELENT, map[]), Return(0, true, 0.0)) == World(RELENT.(active := map[]), map[])
  {
    assert WakeAll(map[]) == map[];
    assert map[7 := 0] - {7} == map[7 := 1] - {7} == map[];
  }

  /** The listing does break: a handle is released, its resource lent again, and the same handle
      released once more. The new holder is ACTIVE and not listed. */
  lemma ListingBreaks() returns (ws: seq<World>, es: seq<Event>)
    ensures Run(SINGLE, ws, es, [Some(7)], 0.0)
    ensures !Listed(ws[|es|].core) && SomebodyActive(ws[|es|].core) && ws[|es|].core.active == map[]
  {
    var stale := Return(0, true, 0.0);
    ws, es := LentOnce();
    StaleRelease();
    Extend(ws, es, World(LENT, map[]), stale);
    ws, es := Lends(ws + [World(RETURNED, map[])], es + [stale], RETURNED, 1);
    Extend(ws, es, World(RELENT, map[]), stale);
    ws, es := ws + [World(RELENT.(active := map[]), map[])], es + [stale];
    assert ws[|es|].core.leases[1].active;
  }
}
