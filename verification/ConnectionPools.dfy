/** The simple `ConnectionPool` (adapter_concurrency.py) with its base factory. */
module ConnectionPools {
  import opened Common

  /** `active` maps an acquisition's id to the connection it holds. */
  datatype Pool = Pool(connections: seq<nat>, active: map<nat, nat>, counter: nat)

  /** The locked section of one acquisition attempt; `product` is the object the factory would
      make. `None` is the exhaustion TimeoutError. */
  function TryTake(maxSize: nat, p: Pool, id: nat, product: nat): (Pool, Option<nat>) {
    if p.connections != [] then
      var last := |p.connections| - 1;
      (p.(connections := p.connections[..last], active := p.active[id := p.connections[last]]),
       Some(p.connections[last]))
    else if |p.active| < maxSize then
      (p.(active := p.active[id := product], counter := p.counter + 1), Some(product))
    else (p, None)
  }

  /** The size check on return; otherwise the connection is discarded. */
  predicate Keeps(maxSize: nat, p: Pool) {
    |p.connections| + |p.active| < maxSize && |p.connections| < maxSize
  }

  function GiveBack(maxSize: nat, p: Pool, id: nat, connection: nat): Pool {
    var p1 := p.(active := p.active - {id});
    if Keeps(maxSize, p1) then p1.(connections := p1.connections + [connection]) else p1
  }

  class ConnectionPool {
    const maxSize: nat
    var connections: seq<nat>
    var active: map<nat, nat>
    var connectionCounter: nat

    ghost function Abs(): Pool
      reads this
    {
      Pool(connections, active, connectionCounter)
    }

    constructor (maxSize: nat)
      ensures this.maxSize == maxSize && Abs() == Pool([], map[], 0)
    {
      this.maxSize := maxSize;
      connections, active, connectionCounter := [], map[], 0;
    }

    method CreateConnection(product: nat) returns (connection: nat)
      modifies this`connectionCounter
      ensures connectionCounter == old(connectionCounter) + 1 && connection == product
    {
      connectionCounter := connectionCounter + 1;
      return product;
    }

    method Attempt(id: nat, product: nat) returns (connection: Option<nat>)
      modifies this
      ensures (Abs(), connection) == TryTake(maxSize, old(Abs()), id, product)
    {
      var taken: nat;
      if connections != [] {
        taken := connections[|connections| - 1];
        connections := connections[..|connections| - 1];
      } else if |active| < maxSize {
        taken := CreateConnection(product);
      } else {
        return None;
      }
      active := active[id := taken];
      return Some(taken);
    }

    method Return(id: nat, connection: nat)
      modifies this
      ensures Abs() == GiveBack(maxSize, old(Abs()), id, connection)
    {
      active := active - {id};
      var totalPoolSize := |connections| + |active|;
      if totalPoolSize < maxSize && |connections| < maxSize {
        connections := connections + [connection];
      }
    }
  }

  // ---------- The step system ----------

  /** A call trying to acquire: attempts made and allowed. A timeout, exhaustion included, is an
      OSError, so it is retried like a failed creation. */
  datatype Call = Call(attempt: nat, maxRetries: nat)

  datatype World = World(pool: Pool, calls: map<nat, Call>, made: set<nat>, seen: set<nat>)

  datatype Event =
    | Begin(id: nat, maxRetries: nat)
    | Attempt(id: nat, product: nat)
    | LockTimeout(id: nat)
    | Leave(id: nat)

  predicate Enabled(w: World, e: Event) {
    match e
    case Begin(id, _) => id !in w.seen
    case Attempt(id, product) => id in w.calls && product !in w.made
    case LockTimeout(id) => id in w.calls
    case Leave(id) => id in w.pool.active
  }

  function Retry(calls: map<nat, Call>, id: nat): map<nat, Call>
    requires id in calls
  {
    var call := calls[id];
    if call.attempt + 1 < call.maxRetries then calls[id := call.(attempt := call.attempt + 1)] else calls - {id}
  }

  function Step(maxSize: nat, w: World, e: Event): World
    requires Enabled(w, e)
  {
    match e
    case Begin(id, maxRetries) =>
      // With no attempts allowed the body runs without a connection and nothing is returned.
      w.(calls := if maxRetries == 0 then w.calls else w.calls[id := Call(0, maxRetries)], seen := w.seen + {id})
    case Attempt(id, product) =>
      var (p, taken) := TryTake(maxSize, w.pool, id, product);
      w.(pool := p, made := w.made + {product},
         calls := if taken.Some? then w.calls - {id} else Retry(w.calls, id))
    case LockTimeout(id) => w.(calls := Retry(w.calls, id))
    case Leave(id) => w.(pool := GiveBack(maxSize, w.pool, id, w.pool.active[id]))
  }

  ghost predicate Run(maxSize: nat, ws: seq<World>, es: seq<Event>) {
    && |ws| == |es| + 1 && ws[0] == World(Pool([], map[], 0), map[], {}, {})
    && forall i :: 0 <= i < |es| ==> Enabled(ws[i], es[i]) && ws[i + 1] == Step(maxSize, ws[i], es[i])
  }

  ghost predicate Counted(maxSize: nat, p: Pool) {
    p.counter == |p.active| + |p.connections| <= maxSize
  }

  /** No connection is idle twice, lent twice, or both. */
  ghost predicate Exclusive(p: Pool) {
    && (forall i, k :: 0 <= i < k < |p.connections| ==> p.connections[i] != p.connections[k])
    && (forall a, b :: a in p.active && b in p.active && a != b ==> p.active[a] != p.active[b])
    && (forall a :: a in p.active ==> p.active[a] !in p.connections)
  }

  /** Every connection in the pool was made. */
  ghost predicate Made(p: Pool, made: set<nat>) {
    && (forall a :: a in p.active ==> p.active[a] in made)
    && (forall c :: c in p.connections ==> c in made)
  }

  /** Holders are not still calling, and no call makes more attempts than it may. */
  ghost predicate CallsInv(w: World) {
    && (forall a :: a in w.pool.active ==> a in w.seen && a !in w.calls)
    && (forall a :: a in w.calls ==> a in w.seen && w.calls[a].attempt < w.calls[a].maxRetries)
  }

  ghost predicate Known(w: World) { Made(w.pool, w.made) && CallsInv(w) }

  ghost predicate Inv(maxSize: nat, w: World) {
    Counted(maxSize, w.pool) && Exclusive(w.pool) && Known(w)
  }

  lemma ReturnIsKept(maxSize: nat, p: Pool, id: nat)
    requires Counted(maxSize, p) && id in p.active
    ensures |p.active - {id}| == |p.active| - 1
    ensures Keeps(maxSize, p.(active := p.active - {id}))
  {
    assert (p.active - {id}).Keys == p.active.Keys - {id};
  }

  lemma CountedStep(maxSize: nat, w: World, e: Event)
    requires Counted(maxSize, w.pool) && Known(w) && Enabled(w, e)
    ensures Counted(maxSize, Step(maxSize, w, e).pool)
  {
    var p' := Step(maxSize, w, e).pool;
    match e
    case Attempt(id, product) =>
      if p' != w.pool {
        assert p'.active.Keys == w.pool.active.Keys + {id};
      }
    case Leave(id) =>
      ReturnIsKept(maxSize, w.pool, id);
    case _ =>
  }

  lemma AttemptExclusive(maxSize: nat, p: Pool, id: nat, product: nat)
    requires Exclusive(p) && id !in p.active
    requires product !in p.connections && forall a :: a in p.active ==> p.active[a] != product
    ensures Exclusive(TryTake(maxSize, p, id, product).0)
    ensures forall c :: c in TryTake(maxSize, p, id, product).0.connections ==> c in p.connections
  {
    if p.connections != [] {
      var last := |p.connections| - 1;
      assert p.connections[last] in p.connections;
      assert forall c :: c in p.connections[..last] ==> c in p.connections && c != p.connections[last];
    }
  }

  lemma ReturnExclusive(maxSize: nat, p: Pool, id: nat)
    requires Exclusive(p) && id in p.active
    ensures Exclusive(GiveBack(maxSize, p, id, p.active[id]))
  {
    var c := p.active[id];
    assert forall x :: x in p.connections + [c] ==> x in p.connections || x == c;
  }

  lemma ExclusiveStep(maxSize: nat, w: World, e: Event)
    requires Exclusive(w.pool) && Known(w) && Enabled(w, e)
    ensures Exclusive(Step(maxSize, w, e).pool)
  {
    match e
    case Attempt(id, product) => AttemptExclusive(maxSize, w.pool, id, product);
    case Leave(id) => ReturnExclusive(maxSize, w.pool, id);
    case _ =>
  }

  lemma CallsStep(maxSize: nat, w: World, e: Event)
    requires CallsInv(w) && Enabled(w, e)
    ensures CallsInv(Step(maxSize, w, e))
  {
  }

  lemma AttemptMade(maxSize: nat, p: Pool, made: set<nat>, id: nat, product: nat)
    requires Made(p, made)
    ensures Made(TryTake(maxSize, p, id, product).0, made + {product})
  {
    if p.connections != [] {
      var last := |p.connections| - 1;
      assert p.connections[last] in p.connections;
      assert forall c :: c in p.connections[..last] ==> c in p.connections;
    }
  }

  lemma KnownStep(maxSize: nat, w: World, e: Event)
    requires Known(w) && Enabled(w, e)
    ensures Known(Step(maxSize, w, e))
  {
    hide CallsInv;
    CallsStep(maxSize, w, e);
    if e.Attempt? {
      AttemptMade(maxSize, w.pool, w.made, e.id, e.product);
    }
  }

  lemma StepKeeps(maxSize: nat, w: World, e: Event)
    requires Inv(maxSize, w) && Enabled(w, e)
    ensures Inv(maxSize, Step(maxSize, w, e))
  {
    CountedStep(maxSize, w, e);
    ExclusiveStep(maxSize, w, e);
    KnownStep(maxSize, w, e);
  }

  lemma {:induction false} AlwaysInv(maxSize: nat, ws: seq<World>, es: seq<Event>, i: nat)
    requires Run(maxSize, ws, es) && i < |ws|
    ensures Inv(maxSize, ws[i])
  {
    if i > 0 {
      AlwaysInv(maxSize, ws, es, i - 1);
      StepKeeps(maxSize, ws[i - 1], es[i - 1]);
    }
  }

  /** Over the pool's whole life at most `max_size` connections are ever created, and no
      connection is both idle and active. */
  lemma LifetimeBound(maxSize: nat, ws: seq<World>, es: seq<Event>, i: nat)
    requires Run(maxSize, ws, es) && i < |ws|
    ensures ws[i].pool.counter == |ws[i].pool.active| + |ws[i].pool.connections| <= maxSize
    ensures Exclusive(ws[i].pool)
  {
    AlwaysInv(maxSize, ws, es, i);
  }

  /** The discard branch on return is unreachable. */
  lemma NeverDiscards(maxSize: nat, ws: seq<World>, es: seq<Event>, i: nat)
    requires Run(maxSize, ws, es) && i < |es| && es[i].Leave?
    ensures ws[i + 1].pool.connections == ws[i].pool.connections + [ws[i].pool.active[es[i].id]]
  {
    AlwaysInv(maxSize, ws, es, i);
    ReturnIsKept(maxSize, ws[i].pool, es[i].id);
  }

  /** An attempt finds the pool exhausted exactly when all `max_size` connections are lent. */
  lemma ExhaustedExactly(maxSize: nat, ws: seq<World>, es: seq<Event>, i: nat)
    requires Run(maxSize, ws, es) && i < |es| && es[i].Attempt?
    ensures TryTake(maxSize, ws[i].pool, es[i].id, es[i].product).1.None? <==> |ws[i].pool.active| == maxSize
  {
    AlwaysInv(maxSize, ws, es, i);
  }

  // ---------- What each operation does, outright ----------

  /** An attempt takes the last idle connection; only when none is idle, and fewer than `max_size` are
      lent, does it create one; else it changes nothing and fails. */
  lemma AttemptExactly(maxSize: nat, w: World, e: Event)
    requires e.Attempt? && Enabled(w, e)
    ensures var p, p', taken := w.pool, Step(maxSize, w, e).pool, TryTake(maxSize, w.pool, e.id, e.product).1;
            && (p.connections != [] ==>
                  var last := p.connections[|p.connections| - 1];
                  && taken == Some(last) && p.connections == p'.connections + [last]
                  && p'.active == p.active[e.id := last] && p'.counter == p.counter)
            && (p.connections == [] && |p.active| < maxSize ==>
                  && taken == Some(e.product) && p'.connections == []
                  && p'.active == p.active[e.id := e.product] && p'.counter == p.counter + 1)
            && (p.connections == [] && |p.active| >= maxSize ==> taken == None && p' == p)
  {
  }

  /** A return, of any pool: the connection is no longer lent, and becomes idle exactly when there is
      room for it beside the idle and the lent ones. */
  lemma ReturnExactly(maxSize: nat, p: Pool, id: nat, connection: nat)
    requires id in p.active
    ensures var p' := GiveBack(maxSize, p, id, connection);
            && p'.active == p.active - {id} && p'.counter == p.counter
            && p'.connections == if |p.connections| + |p.active| <= maxSize then p.connections + [connection]
                                 else p.connections
  {
    assert (p.active - {id}).Keys == p.active.Keys - {id};
    assert |p.active - {id}| == |p.active| - 1;
  }

  /** Event `k` is a failed attempt of call `id`: the pool exhausted, or a timeout. */
  ghost predicate Fails(maxSize: nat, w: World, e: Event, id: nat) {
    || (e.LockTimeout? && e.id == id)
    || (e.Attempt? && e.id == id && w.pool.connections == [] && |w.pool.active| >= maxSize)
  }

  ghost function FailureAt(maxSize: nat, ws: seq<World>, es: seq<Event>, id: nat): nat -> bool {
    (k: nat) => k < |es| && k < |ws| && Fails(maxSize, ws[k], es[k], id)
  }

  lemma CallStep(maxSize: nat, w: World, e: Event, id: nat)
    requires Enabled(w, e) && CallsInv(w)
    ensures var w' := Step(maxSize, w, e);
            && (id in w.calls && id in w'.calls ==>
                  && w'.calls[id].maxRetries == w.calls[id].maxRetries
                  && w'.calls[id].attempt == w.calls[id].attempt + if Fails(maxSize, w, e, id) then 1 else 0)
            && (id !in w.calls && id in w'.calls ==> e == Begin(id, w'.calls[id].maxRetries) && w'.calls[id].attempt == 0)
            && (id in w.calls && id !in w'.calls ==>
                  if Fails(maxSize, w, e, id) then w.calls[id].attempt + 1 == w.calls[id].maxRetries
                  else e.Attempt? && e.id == id && id in w'.pool.active)
            && (id !in w.calls ==> !Fails(maxSize, w, e, id))
  {
  }

  lemma CallBound(w: World, id: nat)
    requires CallsInv(w)
    ensures id in w.calls ==> id in w.seen && w.calls[id].attempt < w.calls[id].maxRetries
  {
  }

  lemma SeenStep(maxSize: nat, w: World, e: Event, id: nat)
    requires Enabled(w, e)
    ensures id in w.seen ==> id in Step(maxSize, w, e).seen
    ensures e.Begin? && e.id == id ==> id !in w.seen
  {
  }

  /** A call under way has made exactly as many failed attempts as it counts, and fewer than it may. */
  lemma {:induction false} AttemptsCounted(maxSize: nat, ws: seq<World>, es: seq<Event>, i: nat, id: nat)
    requires Run(maxSize, ws, es) && i < |ws|
    ensures id in ws[i].calls ==>
              ws[i].calls[id].attempt == Count(FailureAt(maxSize, ws, es, id), i) < ws[i].calls[id].maxRetries
    ensures id !in ws[i].seen ==> Count(FailureAt(maxSize, ws, es, id), i) == 0
    decreases i
  {
    hide Step, Enabled, CallsInv, Fails, Counted, Exclusive, Made;
    AlwaysInv(maxSize, ws, es, i);
    CallBound(ws[i], id);
    if i > 0 {
      AttemptsCounted(maxSize, ws, es, i - 1, id);
      AlwaysInv(maxSize, ws, es, i - 1);
      assert Enabled(ws[i - 1], es[i - 1]) && ws[i] == Step(maxSize, ws[i - 1], es[i - 1]);
      CallBound(ws[i - 1], id);
      CallStep(maxSize, ws[i - 1], es[i - 1], id);
      SeenStep(maxSize, ws[i - 1], es[i - 1], id);
    }
  }

  /** A call gives up with its `max_retries`-th failed attempt, and not before. */
  lemma GivesUpExactly(maxSize: nat, ws: seq<World>, es: seq<Event>, i: nat, id: nat)
    requires Run(maxSize, ws, es) && i < |es| && id in ws[i].calls && Fails(maxSize, ws[i], es[i], id)
    ensures id !in ws[i + 1].calls <==>
            Count(FailureAt(maxSize, ws, es, id), i + 1) == ws[i].calls[id].maxRetries
  {
    AttemptsCounted(maxSize, ws, es, i, id);
    AttemptsCounted(maxSize, ws, es, i + 1, id);
    AlwaysInv(maxSize, ws, es, i);
    CallStep(maxSize, ws[i], es[i], id);
    assert ws[i + 1] == Step(maxSize, ws[i], es[i]);
  }
}
