/** The subscription handler's cache over its database (handler_subscription.py). Identifiers,
    agents and topics are opaque values with the order of their numbers. */
module SubscriptionCache {
  import opened Common

  type Id = nat
  type Agent = nat
  type Topic = nat

  datatype Status = Active | Suspended | Deleted

  datatype Subscription = Subscription(
    id: Id, agent: Agent, topic: Topic, status: Status, createdAt: real, updatedAt: real,
    metadata: Option<map<string, string>>)

  type Table = map<Id, Subscription>

  /** Every subscription is stored under its own id. */
  ghost predicate Keyed(db: Table) {
    forall id :: id in db ==> db[id].id == id
  }

  /** The primary key and the UNIQUE (agent_id, topic) constraint. */
  ghost predicate ValidTable(db: Table) {
    && Keyed(db)
    && forall a, b :: a in db && b in db && a != b ==> db[a].agent != db[b].agent || db[a].topic != db[b].topic
  }

  datatype Cache = Cache(topics: map<Topic, set<Id>>, agents: map<Agent, set<Id>>, subs: map<Id, Subscription>)

  /** The two set indexes are alike: by topic and by agent. */
  datatype Axis = ByTopic | ByAgent

  function Key(x: Axis, s: Subscription): nat {
    if x.ByTopic? then s.topic else s.agent
  }

  function Sets(c: Cache, x: Axis): map<nat, set<Id>> {
    if x.ByTopic? then c.topics else c.agents
  }

  // ---------- The key-value store ----------

  /** An absent set key reads as the empty set. */
  function Members(m: map<nat, set<Id>>, key: nat): set<Id> {
    if key in m then m[key] else {}
  }

  function SAdd(m: map<nat, set<Id>>, key: nat, ids: set<Id>): map<nat, set<Id>> {
    m[key := Members(m, key) + ids]
  }

  /** Removing the last member removes the key. */
  function SRem(m: map<nat, set<Id>>, key: nat, id: Id): map<nat, set<Id>> {
    if Members(m, key) - {id} == {} then m - {key} else m[key := Members(m, key) - {id}]
  }

  // ---------- The database ----------

  function ActiveIds(db: Table): set<Id> {
    set id | id in db && db[id].status == Active
  }

  function ActiveBy(db: Table, x: Axis, key: nat): set<Id> {
    set id | id in db && db[id].status == Active && Key(x, db[id]) == key
  }

  predicate IsPair(s: Subscription, agent: Agent, topic: Topic) {
    s.agent == agent && s.topic == topic
  }

  /** `SELECT ... WHERE agent_id AND topic AND status != deleted`: at most one row. */
  function LiveRow(db: Table, agent: Agent, topic: Topic): (r: Option<Id>)
    requires ValidTable(db)
    ensures r.Some? ==> r.value in db && IsPair(db[r.value], agent, topic) && db[r.value].status != Deleted
    ensures r.None? ==> forall id :: id in db && IsPair(db[id], agent, topic) ==> db[id].status == Deleted
  {
    if id :| id in db && IsPair(db[id], agent, topic) && db[id].status != Deleted then Some(id) else None
  }

  /** The row, live or deleted, that holds the unique pair: the one ON CONFLICT meets. */
  function PairRow(db: Table, agent: Agent, topic: Topic): (r: Option<Id>)
    requires ValidTable(db)
    ensures r.Some? ==> r.value in db && IsPair(db[r.value], agent, topic)
    ensures r.None? ==> forall id :: id in db ==> !IsPair(db[id], agent, topic)
  {
    if id :| id in db && IsPair(db[id], agent, topic) then Some(id) else None
  }

  /** Empty metadata is stored as NULL. */
  function Stored(metadata: Option<map<string, string>>): Option<map<string, string>> {
    if metadata == Some(map[]) then None else metadata
  }

  // ---------- Rows in id order ----------

  predicate IsLargest(ids: set<Id>, m: Id) {
    m in ids && forall x :: x in ids ==> x <= m
  }

  lemma {:induction false} HasLargest(ids: set<Id>)
    requires ids != {}
    ensures exists m :: IsLargest(ids, m)
  {
    var y :| y in ids;
    if ids == {y} {
      assert IsLargest(ids, y);
    } else {
      assert ids - {y} != {};
      HasLargest(ids - {y});
      var m :| IsLargest(ids - {y}, m);
      var n := if m < y then y else m;
      forall x | x in ids ensures x <= n {
        assert x == y || x in ids - {y};
      }
      assert IsLargest(ids, n);
    }
  }

  /** `ORDER BY id`. */
  function InOrder(ids: set<Id>): seq<Id> {
    if ids == {} then []
    else
      HasLargest(ids);
      var m :| m in ids && IsLargest(ids, m);
      InOrder(ids - {m}) + [m]
  }

  lemma InOrderUnfold(ids: set<Id>) returns (m: Id)
    requires ids != {}
    ensures IsLargest(ids, m) && InOrder(ids) == InOrder(ids - {m}) + [m]
  {
    HasLargest(ids);
    m := InOrder(ids)[|InOrder(ids)| - 1];
  }

  ghost predicate Lists(all: seq<Id>, ids: set<Id>) {
    && |all| == |ids|
    && (forall id :: id in all <==> id in ids)
    && forall i, k :: 0 <= i < k < |all| ==> all[i] < all[k]
  }

  lemma AppendLargest(front: seq<Id>, ids: set<Id>, m: Id)
    requires IsLargest(ids, m) && Lists(front, ids - {m})
    ensures Lists(front + [m], ids)
  {
    assert forall i :: 0 <= i < |front| ==> front[i] in front;
  }

  /** `ORDER BY id` lists every id exactly once, in increasing order. */
  lemma {:induction false} InOrderFacts(ids: set<Id>)
    ensures Lists(InOrder(ids), ids)
  {
    if ids != {} {
      var m := InOrderUnfold(ids);
      InOrderFacts(ids - {m});
      AppendLargest(InOrder(ids - {m}), ids, m);
    }
  }

  function Slice(all: seq<Id>, limit: nat, offset: nat): seq<Id> {
    if offset >= |all| then []
    else if offset + limit > |all| then all[offset..]
    else all[offset..offset + limit]
  }

  /** `ORDER BY id LIMIT limit OFFSET offset` over the ACTIVE rows. */
  function Page(db: Table, limit: nat, offset: nat): seq<Id> {
    Slice(InOrder(ActiveIds(db)), limit, offset)
  }

  function MinInt(x: int, y: int): int { if x <= y then x else y }

  lemma SliceFacts(all: seq<Id>, limit: nat, offset: nat)
    requires limit >= 1 && offset < |all|
    ensures var page := Slice(all, limit, offset);
            && page != [] && offset + |page| == MinInt(offset + limit, |all|)
            && page == all[offset..offset + |page|]
            && forall i :: 0 <= i < |page| ==> page[i] in all
  {
  }

  /** The rows of the given ids that exist, in the given order. */
  function RowsOf(db: Table, ids: seq<Id>): seq<Subscription> {
    if ids == [] then []
    else
      var n := |ids| - 1;
      RowsOf(db, ids[..n]) + if ids[n] in db then [db[ids[n]]] else []
  }

  function MissingOf(subs: Table, ids: seq<Id>): seq<Id> {
    if ids == [] then []
    else
      var n := |ids| - 1;
      MissingOf(subs, ids[..n]) + if ids[n] in subs then [] else [ids[n]]
  }

  function ActiveOnly(ss: seq<Subscription>): seq<Subscription> {
    if ss == [] then []
    else
      var n := |ss| - 1;
      ActiveOnly(ss[..n]) + if ss[n].status == Active then [ss[n]] else []
  }

  // ---------- Operations ----------

  /** Caches one subscription under its id, its topic and its agent. */
  function IndexOne(c: Cache, s: Subscription): Cache {
    Cache(SAdd(c.topics, s.topic, {s.id}), SAdd(c.agents, s.agent, {s.id}), c.subs[s.id := s])
  }

  /** Caches the rows of the given ids, one by one. */
  function IndexAll(c: Cache, db: Table, ids: seq<Id>): Cache {
    if ids == [] then c
    else
      var n := |ids| - 1;
      var before := IndexAll(c, db, ids[..n]);
      if ids[n] in db then IndexOne(before, db[ids[n]]) else before
  }

  /** The rebuilt cache. */
  function Rebuilt(c: Cache, db: Table): Cache {
    IndexAll(c, db, InOrder(ActiveIds(db)))
  }

  lemma IndexNone(c: Cache, db: Table)
    ensures IndexAll(c, db, []) == c
  {
  }

  lemma IndexNext(c: Cache, db: Table, ids: seq<Id>, i: nat)
    requires i < |ids| && ids[i] in db
    ensures IndexAll(c, db, ids[..i + 1]) == IndexOne(IndexAll(c, db, ids[..i]), db[ids[i]])
  {
    assert ids[..i + 1][..i] == ids[..i];
  }

  /** The row an UPDATE writes, or ON CONFLICT writes over the row already there. */
  function Rewritten(row: Subscription, status: Status, metadata: Option<map<string, string>>, now: real): Subscription {
    row.(status := status, updatedAt := now, metadata := Stored(metadata))
  }

  /** The subscription `subscribe` builds and caches; its id is the live row's or a new one. */
  function Subscribed(db: Table, agent: Agent, topic: Topic, metadata: Option<map<string, string>>, newId: Id, now: real)
    : Subscription
    requires ValidTable(db)
  {
    match LiveRow(db, agent, topic)
    case Some(id) => db[id].(status := Active, updatedAt := now, metadata := metadata)
    case None => Subscription(newId, agent, topic, Active, now, now, metadata)
  }

  function AfterSubscribe(
      db: Table, agent: Agent, topic: Topic, metadata: Option<map<string, string>>, newId: Id, now: real): Table
    requires ValidTable(db)
  {
    var live, conflict := LiveRow(db, agent, topic), PairRow(db, agent, topic);
    if live.Some? then db[live.value := Rewritten(db[live.value], Active, metadata, now)]
    else if conflict.Some? then db[conflict.value := Rewritten(db[conflict.value], Active, metadata, now)]
    else db[newId := Subscription(newId, agent, topic, Active, now, now, Stored(metadata))]
  }

  /** The row a subscribe writes. */
  function WrittenRow(db: Table, agent: Agent, topic: Topic, newId: Id): Id
    requires ValidTable(db)
  {
    match PairRow(db, agent, topic)
    case Some(id) => id
    case None => newId
  }

  function AfterUnsubscribe(db: Table, id: Id, now: real): Table
    requires id in db
  {
    db[id := db[id].(status := Deleted, updatedAt := now)]
  }

  /** The first `steps` of the three evictions: topic set, agent set, copy. */
  function EvictSome(c: Cache, s: Subscription, steps: nat): Cache {
    Cache(if steps >= 1 then SRem(c.topics, s.topic, s.id) else c.topics,
          if steps >= 2 then SRem(c.agents, s.agent, s.id) else c.agents,
          if steps >= 3 then c.subs - {s.id} else c.subs)
  }

  function Evict(c: Cache, s: Subscription): Cache {
    EvictSome(c, s, 3)
  }

  function TopicRead(db: Table, c: Cache, topic: Topic): (Cache, set<Id>) {
    var cached := Members(c.topics, topic);
    if cached != {} then (c, cached)
    else
      var ids := ActiveBy(db, ByTopic, topic);
      (if ids != {} then c.(topics := SAdd(c.topics, topic, ids)) else c, ids)
  }

  /** Fills the cache with the rows of the missing ids. */
  function FillSubs(subs: Table, db: Table, missing: seq<Id>): Table {
    if missing == [] then subs
    else
      var n := |missing| - 1;
      var filled := FillSubs(subs, db, missing[..n]);
      if missing[n] in db then filled[missing[n] := db[missing[n]]] else filled
  }

  /** Cached copies first, then the rows of the ids that had none, whatever their status. */
  function Load(db: Table, c: Cache, ids: seq<Id>): (Cache, seq<Subscription>) {
    var missing := MissingOf(c.subs, ids);
    (c.(subs := FillSubs(c.subs, db, missing)), RowsOf(c.subs, ids) + RowsOf(db, missing))
  }

  /** `order` is some order of a set, without repetition. */
  ghost predicate Enumerates(order: seq<Id>, ids: set<Id>) {
    && (forall id :: id in order <==> id in ids)
    && forall i, k :: 0 <= i < k < |order| ==> order[i] != order[k]
  }

  /** `ORDER BY created_at DESC`. */
  ghost predicate NewestFirst(ss: seq<Subscription>) {
    forall i, k :: 0 <= i < k < |ss| ==> ss[i].createdAt >= ss[k].createdAt
  }

  /** The listing without pagination; the cached set is iterated in `order`, and the database answers
      the agent's ACTIVE rows in `rowOrder`. */
  function ListRead(db: Table, c: Cache, agent: Agent, order: seq<Id>, rowOrder: seq<Id>)
    : (Cache, seq<Subscription>)
  {
    if Members(c.agents, agent) != {} then
      var (c', loaded) := Load(db, c, order);
      (c', ActiveOnly(loaded))
    else (c, RowsOf(db, rowOrder))
  }

  class HandlerSubscription {
    var rows: Table
    var topics: map<Topic, set<Id>>
    var agents: map<Agent, set<Id>>
    var subs: map<Id, Subscription>
    const batchSize: nat

    ghost predicate Valid()
      reads this
    {
      ValidTable(rows) && batchSize >= 1
    }

    function Cached(): Cache
      reads this
    {
      Cache(topics, agents, subs)
    }

    constructor (rows: Table, batchSize: nat)
      requires ValidTable(rows) && batchSize >= 1
      ensures Valid() && this.rows == rows && Cached() == Cache(map[], map[], map[])
    {
      this.rows, this.batchSize := rows, batchSize;
      topics, agents, subs := map[], map[], map[];
    }

    method PersistSubscription(s: Subscription, isUpdate: bool)
      requires Valid() && (isUpdate ==> s.id in rows)
      modifies this`rows
      ensures rows ==
              if isUpdate then old(rows)[s.id := Rewritten(old(rows)[s.id], s.status, s.metadata, s.updatedAt)]
              else match PairRow(old(rows), s.agent, s.topic)
                   case Some(id) => old(rows)[id := Rewritten(old(rows)[id], s.status, s.metadata, s.updatedAt)]
                   case None => old(rows)[s.id := s.(metadata := Stored(s.metadata))]
    {
      if isUpdate {
        rows := rows[s.id := Rewritten(rows[s.id], s.status, s.metadata, s.updatedAt)];
        return;
      }
      var conflict := PairRow(rows, s.agent, s.topic);
      if conflict.Some? {
        rows := rows[conflict.value := Rewritten(rows[conflict.value], s.status, s.metadata, s.updatedAt)];
      } else {
        rows := rows[s.id := s.(metadata := Stored(s.metadata))];
      }
    }

    /** `None` is the ValueError for a malformed topic; `cacheUp` says that the cache pipeline succeeds,
        whose failure is swallowed. */
    method Subscribe(agent: Agent, topic: Topic, topicIsValid: bool, metadata: Option<map<string, string>>,
                     newId: Id, now: real, cacheUp: bool) returns (r: Option<Subscription>)
      requires Valid()
      modifies this
      ensures !topicIsValid ==> r == None && rows == old(rows) && Cached() == old(Cached())
      ensures topicIsValid ==>
                && r == Some(Subscribed(old(rows), agent, topic, metadata, newId, now))
                && rows == AfterSubscribe(old(rows), agent, topic, metadata, newId, now)
                && Cached() == if cacheUp then IndexOne(old(Cached()), r.value) else old(Cached())
    {
      if !topicIsValid {
        return None;
      }
      var existing := LiveRow(rows, agent, topic);
      var subscription := Subscription(newId, agent, topic, Active, now, now, metadata);
      if existing.Some? {
        subscription := subscription.(id := existing.value, createdAt := rows[existing.value].createdAt);
      }
      PersistSubscription(subscription, existing.Some?);
      if cacheUp {
        topics := SAdd(topics, topic, {subscription.id});
        agents := SAdd(agents, agent, {subscription.id});
        subs := subs[subscription.id := subscription];
      }
      return Some(subscription);
    }

    /** `steps` is how many of the three evictions succeed before one fails; the failure is swallowed. */
    method Unsubscribe(agent: Agent, topic: Topic, now: real, steps: nat) returns (found: bool)
      requires Valid()
      modifies this
      ensures found <==> LiveRow(old(rows), agent, topic).Some?
      ensures !found ==> rows == old(rows) && Cached() == old(Cached())
      ensures found ==>
                var id := LiveRow(old(rows), agent, topic).value;
                && rows == AfterUnsubscribe(old(rows), id, now)
                && Cached() == EvictSome(old(Cached()), old(rows)[id], steps)
    {
      var existing := LiveRow(rows, agent, topic);
      if existing.None? {
        return false;
      }
      var id := existing.value;
      rows := rows[id := rows[id].(status := Deleted, updatedAt := now)];
      if steps >= 1 {
        topics := SRem(topics, topic, id);
        if steps >= 2 {
          agents := SRem(agents, agent, id);
          if steps >= 3 {
            subs := subs - {id};
          }
        }
      }
      return true;
    }

    method CacheRow(s: Subscription)
      modifies this`topics, this`agents, this`subs
      ensures Cached() == IndexOne(old(Cached()), s)
    {
      subs := subs[s.id := s];
      topics := SAdd(topics, s.topic, {s.id});
      agents := SAdd(agents, s.agent, {s.id});
    }

    /** One batch of the rebuild: `page` is the stretch of `all` after the first `done` ids. */
    method CachePage(page: seq<Id>, ghost start: Cache, ghost all: seq<Id>, ghost done: nat)
      requires done + |page| <= |all| && page == all[done..done + |page|]
      requires forall i :: 0 <= i < |page| ==> page[i] in rows
      requires Cached() == IndexAll(start, rows, all[..done])
      modifies this`topics, this`agents, this`subs
      ensures Cached() == IndexAll(start, rows, all[..done + |page|])
    {
      for i := 0 to |page|
        invariant Cached() == IndexAll(start, rows, all[..done + i])
      {
        assert page[i] == all[done + i];
        IndexNext(start, rows, all, done + i);
        CacheRow(rows[page[i]]);
      }
    }

    /** The paging loop. */
    method CachePages(totalCount: nat, ghost all: seq<Id>) returns (processed: nat)
      requires Valid() && all == InOrder(ActiveIds(rows)) && totalCount == |all|
      requires forall id :: id in all ==> id in rows
      modifies this`topics, this`agents, this`subs
      ensures Cached() == IndexAll(old(Cached()), rows, all)
      ensures processed == totalCount
    {
      hide IndexAll, InOrder, ActiveIds, Slice, ValidTable;
      ghost var start := Cached();
      processed := 0;
      IndexNone(start, rows);
      assert all[..0] == [] && all[..|all|] == all;
      if totalCount == 0 {
        return;
      }
      var offset := 0;
      while offset < totalCount
        invariant processed == MinInt(offset, totalCount)
        invariant Cached() == IndexAll(start, rows, all[..processed])
      {
        SliceFacts(all, batchSize, offset);
        var page := Page(rows, batchSize, offset);
        if page == [] {
          break;
        }
        CachePage(page, start, all, offset);
        processed := processed + |page|;
        offset := offset + batchSize;
      }
    }

    /** The paged rebuild, which visits every ACTIVE row once, in id order. */
    method RebuildCacheFromDb() returns (processed: nat)
      requires Valid()
      modifies this`topics, this`agents, this`subs
      ensures Cached() == Rebuilt(old(Cached()), rows)
      ensures processed == |ActiveIds(rows)|
    {
      hide IndexAll, InOrder, ValidTable;
      InOrderFacts(ActiveIds(rows));
      var totalCount := |ActiveIds(rows)|;
      processed := CachePages(totalCount, InOrder(ActiveIds(rows)));
    }

    method GetSubscribersForTopic(topic: Topic) returns (ids: set<Id>)
      modifies this`topics
      ensures (Cached(), ids) == TopicRead(rows, old(Cached()), topic)
    {
      ids := Members(topics, topic);
      if ids != {} {
        return;
      }
      ids := ActiveBy(rows, ByTopic, topic);
      if ids != {} {
        topics := SAdd(topics, topic, ids);
      }
    }

    /** `ids` is the set's iteration order. */
    method LoadSubscriptions(ids: seq<Id>) returns (loaded: seq<Subscription>)
      modifies this`subs
      ensures (Cached(), loaded) == Load(rows, old(Cached()), ids)
    {
      loaded := [];
      var missing: seq<Id> := [];
      for i := 0 to |ids|
        invariant loaded == RowsOf(subs, ids[..i]) && missing == MissingOf(subs, ids[..i])
      {
        assert ids[..i + 1][..i] == ids[..i];
        if ids[i] in subs {
          loaded := loaded + [subs[ids[i]]];
        } else {
          missing := missing + [ids[i]];
        }
      }
      assert ids[..|ids|] == ids;
      ghost var cached := loaded;
      for i := 0 to |missing|
        invariant loaded == cached + RowsOf(rows, missing[..i])
        invariant subs == FillSubs(old(subs), rows, missing[..i])
      {
        assert missing[..i + 1][..i] == missing[..i];
        if missing[i] in rows {
          loaded := loaded + [rows[missing[i]]];
          subs := subs[missing[i] := rows[missing[i]]];
        }
      }
      assert missing[..|missing|] == missing;
    }

    /** The listing without pagination. */
    method ListSubscriptions(agent: Agent, order: seq<Id>, rowOrder: seq<Id>) returns (listed: seq<Subscription>)
      requires Enumerates(order, Members(agents, agent))
      requires Enumerates(rowOrder, ActiveBy(rows, ByAgent, agent)) && NewestFirst(RowsOf(rows, rowOrder))
      modifies this`subs
      ensures (Cached(), listed) == ListRead(rows, old(Cached()), agent, order, rowOrder)
      ensures Members(agents, agent) == {} ==> NewestFirst(listed)
    {
      var ids := Members(agents, agent);
      if ids != {} {
        var loaded := LoadSubscriptions(order);
        listed := [];
        for i := 0 to |loaded|
          invariant listed == ActiveOnly(loaded[..i])
        {
          assert loaded[..i + 1][..i] == loaded[..i];
          if loaded[i].status == Active {
            listed := listed + [loaded[i]];
          }
        }
        assert loaded[..|loaded|] == loaded;
        return;
      }
      return RowsOf(rows, rowOrder);
    }
  }

  // ---------- Coherence ----------

  /** The cache is exactly the topic, agent and id index of the ACTIVE rows. */
  ghost predicate IndexCoherent(db: Table, c: Cache) {
    && (forall x: Axis, k: nat :: Members(Sets(c, x), k) == ActiveBy(db, x, k))
    && c.subs.Keys == ActiveIds(db)
  }

  /** ... and every cached copy is the row itself. */
  ghost predicate Coherent(db: Table, c: Cache) {
    IndexCoherent(db, c) && forall id :: id in c.subs ==> c.subs[id] == db[id]
  }

  ghost predicate HasDeletedRow(db: Table, agent: Agent, topic: Topic) {
    exists id :: id in db && IsPair(db[id], agent, topic) && db[id].status == Deleted
  }

  lemma Gains(m: map<nat, set<Id>>, key: nat, id: Id, k: nat)
    ensures Members(SAdd(m, key, {id}), k) == Members(m, k) + if k == key then {id} else {}
  {
  }

  lemma Loses(m: map<nat, set<Id>>, key: nat, id: Id, k: nat)
    ensures Members(SRem(m, key, id), k) == if k == key then Members(m, k) - {id} else Members(m, k)
  {
  }

  /** What a subscribe writes, when no soft-deleted row is in the way: one ACTIVE row of the pair,
      like the cached subscription but for the metadata as stored. */
  ghost predicate Writes(db: Table, db': Table, s: Subscription) {
    && s.id in db' && db' == db[s.id := db'[s.id]] && s.status == Active
    && db'[s.id] == s.(metadata := Stored(s.metadata))
    && (s.id in db ==> db[s.id].topic == s.topic && db[s.id].agent == s.agent)
  }

  lemma SubscribeRow(
      db: Table, agent: Agent, topic: Topic, metadata: Option<map<string, string>>, newId: Id, now: real)
    requires ValidTable(db) && newId !in db && !HasDeletedRow(db, agent, topic)
    ensures Subscribed(db, agent, topic, metadata, newId, now).metadata == metadata
    ensures Writes(db, AfterSubscribe(db, agent, topic, metadata, newId, now),
                   Subscribed(db, agent, topic, metadata, newId, now))
  {
  }

  lemma ActiveGains(db: Table, db': Table, s: Subscription, x: Axis, k: nat)
    requires Writes(db, db', s)
    ensures ActiveBy(db', x, k) == ActiveBy(db, x, k) + if k == Key(x, s) then {s.id} else {}
  {
    assert forall id :: id in db && id != s.id ==> db'[id] == db[id];
  }

  lemma IdsGain(db: Table, db': Table, s: Subscription)
    requires Writes(db, db', s)
    ensures ActiveIds(db') == ActiveIds(db) + {s.id}
  {
    assert forall id :: id in db && id != s.id ==> db'[id] == db[id];
  }

  lemma IndexGains(c: Cache, s: Subscription, x: Axis, k: nat)
    ensures Members(Sets(IndexOne(c, s), x), k) == Members(Sets(c, x), k) + if k == Key(x, s) then {s.id} else {}
  {
    Gains(Sets(c, x), Key(x, s), s.id, k);
  }

  /** Writing one ACTIVE row, new or over a row of the same pair, and caching it. */
  lemma SubscribeIndexes(db: Table, db': Table, c: Cache, s: Subscription)
    requires IndexCoherent(db, c) && Writes(db, db', s)
    ensures IndexCoherent(db', IndexOne(c, s))
  {
    hide Writes, Members, Sets, SAdd, ActiveBy, Key;
    forall x: Axis, k: nat ensures Members(Sets(IndexOne(c, s), x), k) == ActiveBy(db', x, k) {
      ActiveGains(db, db', s, x, k);
      IndexGains(c, s, x, k);
    }
    IdsGain(db, db', s);
  }

  lemma SubscribeCopies(db: Table, db': Table, c: Cache, s: Subscription)
    requires Coherent(db, c) && Writes(db, db', s) && IndexCoherent(db', IndexOne(c, s))
    ensures Coherent(db', IndexOne(c, s)) <==> s.metadata != Some(map[])
  {
    var c' := IndexOne(c, s);
    assert s.id in c'.subs && c'.subs[s.id] == s;
    assert c'.subs[s.id] == db'[s.id] <==> s.metadata != Some(map[]);
  }

  /** Over a soft-deleted row the cache gets an id the table does not hold. */
  lemma SubscribeOverDeleted(
      db: Table, c: Cache, agent: Agent, topic: Topic, metadata: Option<map<string, string>>, newId: Id, now: real)
    requires ValidTable(db) && newId !in db && HasDeletedRow(db, agent, topic)
    ensures !IndexCoherent(AfterSubscribe(db, agent, topic, metadata, newId, now),
                           IndexOne(c, Subscribed(db, agent, topic, metadata, newId, now)))
  {
    assert LiveRow(db, agent, topic).None?;
    assert newId !in AfterSubscribe(db, agent, topic, metadata, newId, now);
    assert newId in IndexOne(c, Subscribed(db, agent, topic, metadata, newId, now)).subs.Keys;
  }

  /** After a subscribe the index is still exact if and only if the pair has no soft-deleted row;
      the copies are exact as well if and only if, besides, the metadata is not the empty
      dictionary, which the database stores as NULL. */
  lemma SubscribeCoherentExactly(
      db: Table, c: Cache, agent: Agent, topic: Topic, metadata: Option<map<string, string>>, newId: Id, now: real)
    requires ValidTable(db) && Coherent(db, c) && newId !in db
    ensures var db' := AfterSubscribe(db, agent, topic, metadata, newId, now);
            var c' := IndexOne(c, Subscribed(db, agent, topic, metadata, newId, now));
            && (IndexCoherent(db', c') <==> !HasDeletedRow(db, agent, topic))
            && (Coherent(db', c') <==> !HasDeletedRow(db, agent, topic) && metadata != Some(map[]))
  {
    if HasDeletedRow(db, agent, topic) {
      SubscribeOverDeleted(db, c, agent, topic, metadata, newId, now);
    } else {
      SubscribeRow(db, agent, topic, metadata, newId, now);
      var s := Subscribed(db, agent, topic, metadata, newId, now);
      SubscribeIndexes(db, AfterSubscribe(db, agent, topic, metadata, newId, now), c, s);
      SubscribeCopies(db, AfterSubscribe(db, agent, topic, metadata, newId, now), c, s);
    }
  }

  /** The subscription answered and cached: of the live row's id and creation time, if there is one,
      else new. */
  lemma SubscribedExactly(
      db: Table, agent: Agent, topic: Topic, metadata: Option<map<string, string>>, newId: Id, now: real)
    requires ValidTable(db)
    ensures var s, live := Subscribed(db, agent, topic, metadata, newId, now), LiveRow(db, agent, topic);
            && s.agent == agent && s.topic == topic && s.status == Active && s.updatedAt == now && s.metadata == metadata
            && (live.Some? ==> s.id == live.value && s.createdAt == db[live.value].createdAt)
            && (live.None? ==> s.id == newId && s.createdAt == now)
  {
  }

  lemma ActiveLoses(db: Table, id: Id, now: real, x: Axis, k: nat)
    requires id in db
    ensures ActiveBy(AfterUnsubscribe(db, id, now), x, k) ==
            if k == Key(x, db[id]) then ActiveBy(db, x, k) - {id} else ActiveBy(db, x, k)
  {
  }

  lemma IndexLoses(c: Cache, s: Subscription, x: Axis, k: nat)
    ensures Members(Sets(Evict(c, s), x), k) ==
            if k == Key(x, s) then Members(Sets(c, x), k) - {s.id} else Members(Sets(c, x), k)
  {
    Loses(Sets(c, x), Key(x, s), s.id, k);
  }

  /** Unsubscribing always keeps the agreement. */
  lemma UnsubscribeKeepsCoherent(db: Table, c: Cache, id: Id, now: real)
    requires ValidTable(db) && Coherent(db, c) && id in db
    ensures Coherent(AfterUnsubscribe(db, id, now), Evict(c, db[id]))
  {
    hide Members, Sets, ActiveBy, Key;
    var db', c' := AfterUnsubscribe(db, id, now), Evict(c, db[id]);
    forall x: Axis, k: nat ensures Members(Sets(c', x), k) == ActiveBy(db', x, k) {
      ActiveLoses(db, id, now, x, k);
      IndexLoses(c, db[id], x, k);
    }
    assert ActiveIds(db') == ActiveIds(db) - {id};
  }

  /** So unsubscribing a pair and subscribing to it again always leaves the index wrong. */
  lemma ResubscribeBreaksIndex(
      db: Table, c: Cache, id: Id, metadata: Option<map<string, string>>, newId: Id, t1: real, t2: real)
    requires ValidTable(db) && Coherent(db, c) && id in db && newId !in db
    ensures var s, db1, c1 := db[id], AfterUnsubscribe(db, id, t1), Evict(c, db[id]);
            && ValidTable(db1)
            && !IndexCoherent(AfterSubscribe(db1, s.agent, s.topic, metadata, newId, t2),
                              IndexOne(c1, Subscribed(db1, s.agent, s.topic, metadata, newId, t2)))
  {
    var db1 := AfterUnsubscribe(db, id, t1);
    UnsubscribeKeepsCoherent(db, c, id, t1);
    assert IsPair(db1[id], db[id].agent, db[id].topic) && db1[id].status == Deleted;
    SubscribeCoherentExactly(db1, Evict(c, db[id]), db[id].agent, db[id].topic, metadata, newId, t2);
  }

  // ---------- Failed cache writes and expired keys ----------

  /** A subscribe whose cache write fails leaves the index exact if and only if the pair was ACTIVE
      already, and the copies too if and only if, besides, it changed nothing. */
  lemma SubscribeUncachedExactly(
      db: Table, c: Cache, agent: Agent, topic: Topic, metadata: Option<map<string, string>>, newId: Id, now: real)
    requires ValidTable(db) && Coherent(db, c) && newId !in db
    ensures var db', live := AfterSubscribe(db, agent, topic, metadata, newId, now), LiveRow(db, agent, topic);
            var wasActive := live.Some? && db[live.value].status == Active;
            && (IndexCoherent(db', c) <==> wasActive)
            && (Coherent(db', c) <==>
                  wasActive && db[live.value].updatedAt == now && db[live.value].metadata == Stored(metadata))
  {
    var db', live := AfterSubscribe(db, agent, topic, metadata, newId, now), LiveRow(db, agent, topic);
    var row := WrittenRow(db, agent, topic, newId);
    assert row in ActiveIds(db');
    if live.Some? && db[live.value].status == Active {
      assert live.value in c.subs && db' == db[live.value := db'[live.value]];
      assert ActiveIds(db') == ActiveIds(db);
      forall x: Axis, k: nat ensures ActiveBy(db', x, k) == ActiveBy(db, x, k) {
      }
    } else {
      assert row !in ActiveIds(db);
    }
  }

  /** The evictions are made in this order: topic set, agent set, copy; each takes out this id only. */
  lemma EvictsInOrder(c: Cache, s: Subscription, steps: nat, k: nat)
    ensures Members(EvictSome(c, s, steps).topics, k) ==
            if steps >= 1 && k == s.topic then Members(c.topics, k) - {s.id} else Members(c.topics, k)
    ensures Members(EvictSome(c, s, steps).agents, k) ==
            if steps >= 2 && k == s.agent then Members(c.agents, k) - {s.id} else Members(c.agents, k)
    ensures forall id :: id in EvictSome(c, s, steps).subs <==> id in c.subs && (steps >= 3 ==> id != s.id)
    ensures forall id :: id in EvictSome(c, s, steps).subs ==> EvictSome(c, s, steps).subs[id] == c.subs[id]
  {
    Loses(c.topics, s.topic, s.id, k);
    Loses(c.agents, s.agent, s.id, k);
  }

  lemma EvictsNothing(db: Table, c: Cache, id: Id, steps: nat)
    requires ValidTable(db) && IndexCoherent(db, c) && id in db && db[id].status != Active
    ensures forall x: Axis, k: nat :: Members(Sets(EvictSome(c, db[id], steps), x), k) == Members(Sets(c, x), k)
    ensures EvictSome(c, db[id], steps).subs == c.subs
  {
    assert id !in ActiveIds(db);
    forall x: Axis, k: nat
      ensures Members(Sets(EvictSome(c, db[id], steps), x), k) == Members(Sets(c, x), k)
    {
      assert Members(Sets(c, x), k) == ActiveBy(db, x, k);
      Loses(Sets(c, x), Key(x, db[id]), id, k);
    }
  }

  /** An unsubscribe whose evictions stop after `steps` leaves the agreement if and only if all three
      were done or the row was not ACTIVE. */
  lemma UnsubscribeUncachedExactly(db: Table, c: Cache, id: Id, now: real, steps: nat)
    requires ValidTable(db) && Coherent(db, c) && id in db
    ensures Coherent(AfterUnsubscribe(db, id, now), EvictSome(c, db[id], steps)) <==>
            steps >= 3 || db[id].status != Active
  {
    var db', c' := AfterUnsubscribe(db, id, now), EvictSome(c, db[id], steps);
    assert id in ActiveIds(db) <==> db[id].status == Active;
    if steps >= 3 {
      UnsubscribeKeepsCoherent(db, c, id, now);
      assert c' == Evict(c, db[id]);
    } else if db[id].status == Active {
      assert id in c'.subs && id !in ActiveIds(db');
    } else {
      EvictsNothing(db, c, id, steps);
      assert ActiveIds(db') == ActiveIds(db);
      forall x: Axis, k: nat ensures Members(Sets(c', x), k) == ActiveBy(db', x, k) {
        assert ActiveBy(db', x, k) == ActiveBy(db, x, k);
      }
    }
  }

  function Expire(c: Cache, topic: Topic): Cache {
    c.(topics := c.topics - {topic})
  }

  /** When a topic's key has expired, a subscribe to the topic leaves a partial set: the next read of
      the topic is right if and only if nobody else is subscribed to it. */
  lemma ExpiryThenSubscribe(
      db: Table, c: Cache, agent: Agent, topic: Topic, metadata: Option<map<string, string>>, newId: Id, now: real)
    requires ValidTable(db) && Coherent(db, c) && newId !in db && !HasDeletedRow(db, agent, topic)
    ensures var db' := AfterSubscribe(db, agent, topic, metadata, newId, now);
            var s := Subscribed(db, agent, topic, metadata, newId, now);
            TopicRead(db', IndexOne(Expire(c, topic), s), topic).1 == ActiveBy(db', ByTopic, topic) <==>
            ActiveBy(db, ByTopic, topic) <= {s.id}
  {
    var db' := AfterSubscribe(db, agent, topic, metadata, newId, now);
    var s := Subscribed(db, agent, topic, metadata, newId, now);
    SubscribeRow(db, agent, topic, metadata, newId, now);
    ActiveGains(db, db', s, ByTopic, topic);
    assert Members(IndexOne(Expire(c, topic), s).topics, topic) == {s.id};
  }

  // ---------- Effects on the table ----------

  /** A row other than those of the pair is untouched, and none is added for another pair. */
  ghost predicate OthersUntouched(db: Table, db': Table, agent: Agent, topic: Topic) {
    forall id :: (id in db && !IsPair(db[id], agent, topic)) || (id in db' && !IsPair(db'[id], agent, topic)) ==>
      id in db && id in db' && db[id] == db'[id]
  }

  lemma SubscribeTouchesPair(
      db: Table, agent: Agent, topic: Topic, metadata: Option<map<string, string>>, newId: Id, now: real)
    requires ValidTable(db) && newId !in db
    ensures var db' := AfterSubscribe(db, agent, topic, metadata, newId, now);
            ValidTable(db') && OthersUntouched(db, db', agent, topic)
  {
  }

  /** After a subscribe, whatever was there before, the pair has one live row and it is ACTIVE;
      it is the pair's old row, if there was one, with its creation time. */
  lemma SubscribeLeavesOneLive(
      db: Table, agent: Agent, topic: Topic, metadata: Option<map<string, string>>, newId: Id, now: real)
    requires ValidTable(db) && newId !in db
    ensures var db', row := AfterSubscribe(db, agent, topic, metadata, newId, now), WrittenRow(db, agent, topic, newId);
            && ValidTable(db') && OthersUntouched(db, db', agent, topic)
            && LiveRow(db', agent, topic) == Some(row) && db'[row].status == Active
            && db'[row].metadata == Stored(metadata) && db'[row].updatedAt == now
            && db'[row].createdAt == if row in db then db[row].createdAt else now
  {
    var db', row := AfterSubscribe(db, agent, topic, metadata, newId, now), WrittenRow(db, agent, topic, newId);
    SubscribeTouchesPair(db, agent, topic, metadata, newId, now);
    assert row in db' && IsPair(db'[row], agent, topic) && db'[row].status == Active;
  }

  /** Unsubscribing a live pair leaves it without a live row, so a second unsubscribe finds none. */
  lemma UnsubscribeLeavesNone(db: Table, agent: Agent, topic: Topic, now: real)
    requires ValidTable(db) && LiveRow(db, agent, topic).Some?
    ensures var db' := AfterUnsubscribe(db, LiveRow(db, agent, topic).value, now);
            && ValidTable(db') && OthersUntouched(db, db', agent, topic) && LiveRow(db', agent, topic).None?
            && var id := LiveRow(db, agent, topic).value;
            id in db' && db'[id] == db[id].(status := Deleted, updatedAt := now)
  {
  }

  // ---------- Rebuilding ----------

  lemma {:induction false} RebuildSets(db: Table, c: Cache, ids: seq<Id>, x: Axis, k: nat)
    requires ValidTable(db) && forall id :: id in ids ==> id in db
    ensures Members(Sets(IndexAll(c, db, ids), x), k)
            == Members(Sets(c, x), k) + set id | id in ids && Key(x, db[id]) == k
  {
    if ids != [] {
      var n := |ids| - 1;
      assert ids == ids[..n] + [ids[n]] && ids[..n + 1] == ids;
      RebuildSets(db, c, ids[..n], x, k);
      IndexNext(c, db, ids, n);
      IndexGains(IndexAll(c, db, ids[..n]), db[ids[n]], x, k);
    }
  }

  lemma {:induction false} RebuildSubs(db: Table, c: Cache, ids: seq<Id>)
    requires ValidTable(db) && forall id :: id in ids ==> id in db
    ensures IndexAll(c, db, ids).subs.Keys == c.subs.Keys + set id | id in ids
    ensures forall id :: id in ids ==> IndexAll(c, db, ids).subs[id] == db[id]
  {
    if ids != [] {
      var n := |ids| - 1;
      assert ids == ids[..n] + [ids[n]] && ids[..n + 1] == ids;
      RebuildSubs(db, c, ids[..n]);
      IndexNext(c, db, ids, n);
    }
  }

  lemma OrderedActive(db: Table)
    ensures forall id :: id in InOrder(ActiveIds(db)) <==> id in ActiveIds(db)
    ensures forall id :: id in InOrder(ActiveIds(db)) ==> id in db
  {
    InOrderFacts(ActiveIds(db));
  }

  lemma SameSet(db: Table, ids: seq<Id>, x: Axis, k: nat)
    requires forall id :: id in ids <==> id in ActiveIds(db)
    ensures (set id | id in ids && Key(x, db[id]) == k) == ActiveBy(db, x, k)
  {
  }

  lemma RebuiltSets(db: Table, c: Cache, x: Axis, k: nat)
    requires ValidTable(db)
    ensures Members(Sets(Rebuilt(c, db), x), k) == Members(Sets(c, x), k) + ActiveBy(db, x, k)
  {
    hide InOrder, IndexAll, ActiveIds, ActiveBy, ValidTable, Members, Sets, Key;
    OrderedActive(db);
    RebuildSets(db, c, InOrder(ActiveIds(db)), x, k);
    SameSet(db, InOrder(ActiveIds(db)), x, k);
  }

  lemma RebuiltSubs(db: Table, c: Cache)
    requires ValidTable(db)
    ensures Rebuilt(c, db).subs.Keys == c.subs.Keys + ActiveIds(db)
    ensures forall id :: id in ActiveIds(db) ==> Rebuilt(c, db).subs[id] == db[id]
  {
    hide InOrder, IndexAll, ActiveIds, ValidTable;
    var ids := InOrder(ActiveIds(db));
    OrderedActive(db);
    RebuildSubs(db, c, ids);
    assert (set id | id in ids) == ActiveIds(db);
  }

  /** What a rebuild leaves: everything that was cached, plus the index of the ACTIVE rows. */
  lemma RebuildAdds(db: Table, c: Cache)
    requires ValidTable(db)
    ensures var c' := Rebuilt(c, db);
            && (forall x: Axis, k: nat :: Members(Sets(c', x), k) == Members(Sets(c, x), k) + ActiveBy(db, x, k))
            && c'.subs.Keys == c.subs.Keys + ActiveIds(db)
            && (forall id :: id in ActiveIds(db) ==> c'.subs[id] == db[id])
  {
    hide Rebuilt, Members, Sets, ActiveBy;
    forall x: Axis, k: nat
      ensures Members(Sets(Rebuilt(c, db), x), k) == Members(Sets(c, x), k) + ActiveBy(db, x, k)
    {
      RebuiltSets(db, c, x, k);
    }
    RebuiltSubs(db, c);
  }

  /** Everything cached before the rebuild is still right. */
  ghost predicate NothingStale(db: Table, c: Cache) {
    && (forall x: Axis, k: nat :: Members(Sets(c, x), k) <= ActiveBy(db, x, k))
    && c.subs.Keys <= ActiveIds(db)
  }

  /** The rebuild leaves the cache exact if and only if no stale entry was in it: it adds and
      overwrites but never removes. From an empty cache it is exact. */
  lemma RebuildCoherentExactly(db: Table, c: Cache)
    requires ValidTable(db)
    ensures Coherent(db, Rebuilt(c, db)) <==> NothingStale(db, c)
  {
    hide Rebuilt, ActiveBy, ActiveIds, Members, Sets, ValidTable;
    RebuildAdds(db, c);
    if Coherent(db, Rebuilt(c, db)) {
      forall x: Axis, k: nat ensures Members(Sets(c, x), k) <= ActiveBy(db, x, k) {
        assert Members(Sets(Rebuilt(c, db), x), k) == ActiveBy(db, x, k);
      }
    }
    if NothingStale(db, c) {
      forall x: Axis, k: nat ensures Members(Sets(Rebuilt(c, db), x), k) == ActiveBy(db, x, k) {
        assert Members(Sets(c, x), k) <= ActiveBy(db, x, k);
      }
    }
  }

  // ---------- Reads ----------

  /** A topic read answers the database's set as long as the topic's own key is exact or gone,
      so expiry of any key is harmless to reads; it leaves the key exact. */
  lemma TopicReadRight(db: Table, c: Cache, topic: Topic)
    requires Members(c.topics, topic) in {{}, ActiveBy(db, ByTopic, topic)}
    ensures TopicRead(db, c, topic).1 == ActiveBy(db, ByTopic, topic)
    ensures Members(TopicRead(db, c, topic).0.topics, topic) == ActiveBy(db, ByTopic, topic)
    ensures forall t :: t != topic ==> Members(TopicRead(db, c, topic).0.topics, t) == Members(c.topics, t)
    ensures Members(c.topics, topic) == ActiveBy(db, ByTopic, topic) ==> TopicRead(db, c, topic).0 == c
  {
  }

  /** A cached set, right or wrong, is answered as it is. */
  lemma TopicCached(db: Table, c: Cache, topic: Topic)
    requires Members(c.topics, topic) != {}
    ensures TopicRead(db, c, topic) == (c, c.topics[topic])
  {
  }

  /** The rows themselves, as a set. */
  ghost function Rows(db: Table, ids: set<Id>): set<Subscription> {
    set id | id in ids && id in db :: db[id]
  }

  lemma RowsGrow(db: Table, ids: set<Id>, id: Id)
    requires Keyed(db) && id in db && id !in ids
    ensures multiset(Rows(db, ids + {id})) == multiset(Rows(db, ids)) + multiset{db[id]}
  {
    assert Rows(db, ids + {id}) == Rows(db, ids) + {db[id]};
    assert db[id] !in Rows(db, ids);
  }

  lemma EnumeratesFront(order: seq<Id>, ids: set<Id>)
    requires Enumerates(order, ids) && order != []
    ensures var n := |order| - 1; order[n] in ids && Enumerates(order[..n], ids - {order[n]})
  {
    var n := |order| - 1;
    assert order == order[..n] + [order[n]];
  }

  /** However a set of ids is ordered, the query answers each of their rows once. */
  lemma {:induction false} RowsOnce(db: Table, order: seq<Id>, ids: set<Id>)
    requires Keyed(db) && Enumerates(order, ids)
    ensures multiset(RowsOf(db, order)) == multiset(Rows(db, ids))
    decreases |order|
  {
    if order == [] {
      assert Rows(db, ids) == {};
    } else {
      var n := |order| - 1;
      EnumeratesFront(order, ids);
      RowsOnce(db, order[..n], ids - {order[n]});
      assert ids - {order[n]} + {order[n]} == ids;
      if order[n] in db {
        RowsGrow(db, ids - {order[n]}, order[n]);
      } else {
        assert Rows(db, ids) == Rows(db, ids - {order[n]});
      }
    }
  }

  lemma {:induction false} RowsInOrder(db: Table, ids: seq<Id>)
    requires forall id :: id in ids ==> id in db
    ensures |RowsOf(db, ids)| == |ids| && forall i :: 0 <= i < |ids| ==> RowsOf(db, ids)[i] == db[ids[i]]
  {
    if ids != [] {
      var n := |ids| - 1;
      assert ids == ids[..n] + [ids[n]];
      RowsInOrder(db, ids[..n]);
    }
  }

  lemma ValidIsKeyed(db: Table)
    requires ValidTable(db)
    ensures Keyed(db)
  {
  }

  lemma ActiveByInTable(db: Table, x: Axis, key: nat)
    ensures ActiveBy(db, x, key) <= db.Keys
  {
  }

  lemma {:induction false} LoadExact(db: Table, subs: Table, ids: seq<Id>)
    requires forall id :: id in ids ==> id in subs && id in db && subs[id] == db[id] && db[id].status == Active
    ensures MissingOf(subs, ids) == [] && RowsOf(subs, ids) == RowsOf(db, ids)
    ensures ActiveOnly(RowsOf(db, ids)) == RowsOf(db, ids)
  {
    if ids != [] {
      var n := |ids| - 1;
      assert ids[n] in ids && forall id :: id in ids[..n] ==> id in ids;
      LoadExact(db, subs, ids[..n]);
      var rows := RowsOf(db, ids[..n]);
      assert (rows + [db[ids[n]]])[..|rows|] == rows;
    }
  }

  lemma LoadRight(db: Table, c: Cache, ids: seq<Id>)
    requires forall id :: id in ids ==> id in c.subs && id in db && c.subs[id] == db[id] && db[id].status == Active
    ensures Load(db, c, ids) == (c, RowsOf(db, ids)) && ActiveOnly(RowsOf(db, ids)) == RowsOf(db, ids)
  {
    LoadExact(db, c.subs, ids);
    assert RowsOf(db, ids) + [] == RowsOf(db, ids);
  }

  lemma AgentCached(db: Table, c: Cache, agent: Agent)
    requires Coherent(db, c)
    ensures Members(c.agents, agent) == ActiveBy(db, ByAgent, agent) <= db.Keys
    ensures forall id :: id in ActiveBy(db, ByAgent, agent) ==>
              id in c.subs && c.subs[id] == db[id] && db[id].status == Active
  {
    assert Members(Sets(c, ByAgent), agent) == ActiveBy(db, ByAgent, agent);
    assert ActiveBy(db, ByAgent, agent) <= ActiveIds(db);
  }

  /** Over an exact cache a listing answers each ACTIVE row of the agent once, through the cache or
      not and whatever the orders, and changes nothing. */
  lemma ListReadRight(db: Table, c: Cache, agent: Agent, order: seq<Id>, rowOrder: seq<Id>)
    requires ValidTable(db) && Coherent(db, c)
    requires Enumerates(order, Members(c.agents, agent)) && Enumerates(rowOrder, ActiveBy(db, ByAgent, agent))
    ensures ListRead(db, c, agent, order, rowOrder).0 == c
    ensures multiset(ListRead(db, c, agent, order, rowOrder).1) == multiset(Rows(db, ActiveBy(db, ByAgent, agent)))
  {
    hide Coherent, ValidTable, RowsOf, ActiveOnly, ActiveBy, Load, Rows;
    AgentCached(db, c, agent);
    ValidIsKeyed(db);
    RowsOnce(db, order, ActiveBy(db, ByAgent, agent));
    RowsOnce(db, rowOrder, ActiveBy(db, ByAgent, agent));
    LoadRight(db, c, order);
  }

  /** Whatever else is cached, an agent without a cached set is answered from the database: each of
      its ACTIVE rows once, in the order asked for, and the cache is left alone. */
  lemma ListFallback(db: Table, c: Cache, agent: Agent, order: seq<Id>, rowOrder: seq<Id>)
    requires ValidTable(db) && Members(c.agents, agent) == {}
    requires Enumerates(rowOrder, ActiveBy(db, ByAgent, agent))
    ensures ListRead(db, c, agent, order, rowOrder).0 == c
    ensures multiset(ListRead(db, c, agent, order, rowOrder).1) == multiset(Rows(db, ActiveBy(db, ByAgent, agent)))
    ensures |ListRead(db, c, agent, order, rowOrder).1| == |rowOrder|
    ensures forall i :: 0 <= i < |rowOrder| ==>
              rowOrder[i] in db && ListRead(db, c, agent, order, rowOrder).1[i] == db[rowOrder[i]]
  {
    hide ValidTable, RowsOf, Load, ActiveOnly, Rows;
    ValidIsKeyed(db);
    ActiveByInTable(db, ByAgent, agent);
    RowsOnce(db, rowOrder, ActiveBy(db, ByAgent, agent));
    RowsInOrder(db, rowOrder);
  }

  /** What a load answers for an id: the cached copy, or else the row. */
  function Copy(db: Table, subs: Table, id: Id): Option<Subscription> {
    if id in subs then Some(subs[id]) else if id in db then Some(db[id]) else None
  }

  lemma {:induction false} LoadAnswers(db: Table, subs: Table, ids: seq<Id>)
    ensures forall id :: id in MissingOf(subs, ids) <==> id in ids && id !in subs
    ensures forall s :: s in RowsOf(subs, ids) <==> exists id :: id in ids && id in subs && subs[id] == s
  {
    if ids != [] {
      var n := |ids| - 1;
      assert ids == ids[..n] + [ids[n]];
      LoadAnswers(db, subs, ids[..n]);
    }
  }

  lemma {:induction false} FillSubsExactly(subs: Table, db: Table, missing: seq<Id>)
    ensures forall id :: id in FillSubs(subs, db, missing) <==> id in subs || (id in missing && id in db)
    ensures forall id :: id in FillSubs(subs, db, missing) ==>
              FillSubs(subs, db, missing)[id] == if id in missing && id in db then db[id] else subs[id]
  {
    if missing != [] {
      var n := |missing| - 1;
      assert missing == missing[..n] + [missing[n]];
      FillSubsExactly(subs, db, missing[..n]);
    }
  }

  lemma {:induction false} ActiveOnlyExactly(ss: seq<Subscription>)
    ensures forall s :: s in ActiveOnly(ss) <==> s in ss && s.status == Active
    ensures forall s: Subscription :: s.status == Active ==> multiset(ActiveOnly(ss))[s] == multiset(ss)[s]
  {
    if ss != [] {
      var n := |ss| - 1;
      assert ss == ss[..n] + [ss[n]];
      ActiveOnlyExactly(ss[..n]);
    }
  }

  lemma {:induction false} LoadCounts(db: Table, subs: Table, ids: seq<Id>)
    ensures |RowsOf(subs, ids)| + |MissingOf(subs, ids)| == |ids|
  {
    if ids != [] {
      LoadCounts(db, subs, ids[..|ids| - 1]);
    }
  }

  lemma LoadAnswersCopies(db: Table, subs: Table, ids: seq<Id>, s: Subscription)
    ensures s in RowsOf(subs, ids) + RowsOf(db, MissingOf(subs, ids)) <==>
            exists id :: id in ids && Copy(db, subs, id) == Some(s)
  {
    hide RowsOf, MissingOf;
    LoadAnswers(db, subs, ids);
    LoadAnswers(db, db, MissingOf(subs, ids));
    if id :| id in ids && id in subs && subs[id] == s {
      assert Copy(db, subs, id) == Some(s);
    }
    if id :| id in MissingOf(subs, ids) && id in db && db[id] == s {
      assert Copy(db, subs, id) == Some(s);
    }
  }

  /** Loading, whatever the cache holds: each id is answered by its cached copy or else its row, the
      rows so fetched are cached, and nothing else changes. */
  lemma LoadExactly(db: Table, c: Cache, ids: seq<Id>)
    ensures var (c', loaded) := Load(db, c, ids);
            && (forall s :: s in loaded <==> exists id :: id in ids && Copy(db, c.subs, id) == Some(s))
            && c'.topics == c.topics && c'.agents == c.agents
            && (forall id :: id in c'.subs <==> id in c.subs || (id in ids && id in db))
            && (forall id :: id in c'.subs ==> c'.subs[id] == if id in c.subs then c.subs[id] else db[id])
  {
    hide RowsOf, MissingOf, FillSubs, Copy;
    LoadAnswers(db, c.subs, ids);
    FillSubsExactly(c.subs, db, MissingOf(c.subs, ids));
    forall s
      ensures s in RowsOf(c.subs, ids) + RowsOf(db, MissingOf(c.subs, ids)) <==>
              exists id :: id in ids && Copy(db, c.subs, id) == Some(s)
    {
      LoadAnswersCopies(db, c.subs, ids, s);
    }
  }

  lemma NothingToEnumerate(ids: set<Id>)
    requires Enumerates([], ids)
    ensures ids == {}
  {
    assert forall id :: id in ids ==> id in [];
  }

  lemma EnumeratesMore(order: seq<Id>, ids: set<Id>, id: Id)
    requires Enumerates(order, ids) && id !in ids
    ensures Enumerates(order + [id], ids + {id})
  {
    assert forall i :: 0 <= i < |order| ==> order[i] in order;
  }

  lemma {:induction false} MissingOnce(subs: Table, order: seq<Id>, ids: set<Id>)
    requires Enumerates(order, ids)
    ensures Enumerates(MissingOf(subs, order), ids - subs.Keys)
    decreases |order|
  {
    hide Enumerates;
    if order == [] {
      NothingToEnumerate(ids);
      assert MissingOf(subs, order) == order && ids - subs.Keys == ids;
    } else {
      var n := |order| - 1;
      EnumeratesFront(order, ids);
      MissingOnce(subs, order[..n], ids - {order[n]});
      var front, rest := MissingOf(subs, order[..n]), ids - {order[n]} - subs.Keys;
      if order[n] in subs {
        assert rest == ids - subs.Keys && MissingOf(subs, order) == front;
      } else {
        EnumeratesMore(front, rest, order[n]);
        assert rest + {order[n]} == ids - subs.Keys;
      }
    }
  }

  /** What a load answers for a set of ids. */
  ghost function Copies(db: Table, subs: Table, ids: set<Id>): set<Subscription> {
    set id | id in ids && Copy(db, subs, id).Some? :: Copy(db, subs, id).value
  }

  lemma CopiesSplit(db: Table, subs: Table, ids: set<Id>)
    requires Keyed(db) && Keyed(subs)
    ensures multiset(Copies(db, subs, ids)) == multiset(Rows(subs, ids)) + multiset(Rows(db, ids - subs.Keys))
  {
    var cached, fetched := Rows(subs, ids), Rows(db, ids - subs.Keys);
    forall s ensures s in Copies(db, subs, ids) <==> s in cached + fetched {
      if s in cached {
        var id :| id in ids && id in subs && subs[id] == s;
        assert Copy(db, subs, id) == Some(s);
      }
      if s in fetched {
        var id :| id in ids - subs.Keys && id in db && db[id] == s;
        assert Copy(db, subs, id) == Some(s);
      }
    }
    assert Copies(db, subs, ids) == cached + fetched;
    assert cached !! fetched;
  }

  /** ... each once. */
  lemma LoadOnce(db: Table, c: Cache, order: seq<Id>, ids: set<Id>)
    requires Keyed(db) && Keyed(c.subs) && Enumerates(order, ids)
    ensures multiset(Load(db, c, order).1) == multiset(Copies(db, c.subs, ids))
  {
    hide Keyed, Enumerates, RowsOf, MissingOf, Copies, Rows;
    MissingOnce(c.subs, order, ids);
    RowsOnce(c.subs, order, ids);
    RowsOnce(db, MissingOf(c.subs, order), ids - c.subs.Keys);
    CopiesSplit(db, c.subs, ids);
  }

  /** The ACTIVE ones. */
  ghost function ActiveAmong(ss: set<Subscription>): set<Subscription> {
    set s | s in ss && s.status == Active
  }

  lemma ActiveOnce(ss: seq<Subscription>, all: set<Subscription>)
    requires multiset(ss) == multiset(all)
    ensures multiset(ActiveOnly(ss)) == multiset(ActiveAmong(all))
  {
    ActiveOnlyExactly(ss);
    forall s: Subscription ensures multiset(ActiveOnly(ss))[s] == multiset(ActiveAmong(all))[s] {
      if s.status != Active {
        assert s !in ActiveOnly(ss);
      }
    }
  }

  /** A listing through the cache, whatever it holds: each of the agent's cached ids is answered once,
      by its cached copy or else its row, if that is ACTIVE; copies that were gone are cached again. */
  lemma ListCached(db: Table, c: Cache, agent: Agent, order: seq<Id>, rowOrder: seq<Id>)
    requires Keyed(db) && Keyed(c.subs)
    requires Members(c.agents, agent) != {} && Enumerates(order, Members(c.agents, agent))
    ensures var (c', listed) := ListRead(db, c, agent, order, rowOrder);
            && multiset(listed) == multiset(ActiveAmong(Copies(db, c.subs, Members(c.agents, agent))))
            && c'.topics == c.topics && c'.agents == c.agents
            && (forall id :: id in c'.subs <==> id in c.subs || (id in Members(c.agents, agent) && id in db))
            && (forall id :: id in c'.subs ==> c'.subs[id] == if id in c.subs then c.subs[id] else db[id])
  {
    hide Keyed, Load, ActiveOnly, RowsOf, Copies, ActiveAmong;
    LoadExactly(db, c, order);
    LoadOnce(db, c, order, Members(c.agents, agent));
    ActiveOnce(Load(db, c, order).1, Copies(db, c.subs, Members(c.agents, agent)));
  }

  // ---------- Runs ----------

  datatype State = State(db: Table, cache: Cache)

  datatype Op =
    | DoSubscribe(agent: Agent, topic: Topic, metadata: Option<map<string, string>>, newId: Id, now: real, cacheUp: bool)
    | DoUnsubscribe(agent: Agent, topic: Topic, now: real, steps: nat)
    | DoReadTopic(topic: Topic)
    | DoList(agent: Agent, order: seq<Id>, rowOrder: seq<Id>)
    | DoRebuild

  /** Ids are fresh; sets and rows are answered in some order. */
  ghost predicate Enabled(s: State, op: Op) {
    match op
    case DoSubscribe(_, _, _, newId, _, _) => newId !in s.db
    case DoList(agent, order, rowOrder) =>
      Enumerates(order, Members(s.cache.agents, agent)) && Enumerates(rowOrder, ActiveBy(s.db, ByAgent, agent))
    case _ => true
  }

  function Step(s: State, op: Op): State
    requires ValidTable(s.db)
  {
    match op
    case DoSubscribe(agent, topic, metadata, newId, now, cacheUp) =>
      State(AfterSubscribe(s.db, agent, topic, metadata, newId, now),
            if cacheUp then IndexOne(s.cache, Subscribed(s.db, agent, topic, metadata, newId, now)) else s.cache)
    case DoUnsubscribe(agent, topic, now, steps) =>
      var live := LiveRow(s.db, agent, topic);
      if live.None? then s
      else State(AfterUnsubscribe(s.db, live.value, now), EvictSome(s.cache, s.db[live.value], steps))
    case DoReadTopic(topic) => s.(cache := TopicRead(s.db, s.cache, topic).0)
    case DoList(agent, order, rowOrder) => s.(cache := ListRead(s.db, s.cache, agent, order, rowOrder).0)
    case DoRebuild => s.(cache := Rebuilt(s.cache, s.db))
  }

  /** No cache write fails, no pair with a soft-deleted row is subscribed again, and no metadata is
      the empty dictionary. */
  ghost predicate Careful(db: Table, op: Op) {
    match op
    case DoSubscribe(agent, topic, metadata, _, _, cacheUp) =>
      cacheUp && metadata != Some(map[]) && !HasDeletedRow(db, agent, topic)
    case DoUnsubscribe(_, _, _, steps) => steps >= 3
    case _ => true
  }

  ghost predicate Run(ss: seq<State>, ops: seq<Op>) {
    && |ss| == |ops| + 1 && ValidTable(ss[0].db)
    && forall i {:trigger ops[i]} :: 0 <= i < |ops| ==>
         Enabled(ss[i], ops[i]) && (ValidTable(ss[i].db) ==> ss[i + 1] == Step(ss[i], ops[i]))
  }

  ghost predicate CarefulRun(ss: seq<State>, ops: seq<Op>) {
    && Run(ss, ops) && ss[0].cache == Rebuilt(Cache(map[], map[], map[]), ss[0].db)
    && forall i {:trigger ops[i]} :: 0 <= i < |ops| ==> Careful(ss[i].db, ops[i])
  }

  lemma StepKeepsTable(s: State, op: Op)
    requires ValidTable(s.db) && Enabled(s, op)
    ensures ValidTable(Step(s, op).db)
  {
    hide IndexOne, EvictSome, TopicRead, ListRead, Rebuilt;
    if op.DoSubscribe? {
      SubscribeTouchesPair(s.db, op.agent, op.topic, op.metadata, op.newId, op.now);
    }
  }

  /** Every run, careful or not, keeps the table's constraints. */
  lemma {:induction false} AlwaysValidTable(ss: seq<State>, ops: seq<Op>, i: nat)
    requires Run(ss, ops) && i < |ss|
    ensures ValidTable(ss[i].db)
    decreases i
  {
    hide ValidTable, Enabled, Step;
    if i > 0 {
      AlwaysValidTable(ss, ops, i - 1);
      assert Enabled(ss[i - 1], ops[i - 1]);
      StepKeepsTable(ss[i - 1], ops[i - 1]);
    }
  }

  lemma TopicExact(db: Table, c: Cache, topic: Topic)
    requires Coherent(db, c)
    ensures Members(c.topics, topic) == ActiveBy(db, ByTopic, topic)
  {
    assert Members(Sets(c, ByTopic), topic) == ActiveBy(db, ByTopic, topic);
  }

  lemma NothingStaleIfCoherent(db: Table, c: Cache)
    requires Coherent(db, c)
    ensures NothingStale(db, c)
  {
  }

  lemma StepKeepsCoherent(s: State, op: Op)
    requires ValidTable(s.db) && Coherent(s.db, s.cache) && Enabled(s, op) && Careful(s.db, op)
    ensures Coherent(Step(s, op).db, Step(s, op).cache)
  {
    hide ValidTable, Coherent, HasDeletedRow, Rebuilt, ListRead, TopicRead, Members, ActiveBy;
    match op
    case DoSubscribe(agent, topic, metadata, newId, now, _) =>
      SubscribeCoherentExactly(s.db, s.cache, agent, topic, metadata, newId, now);
    case DoUnsubscribe(agent, topic, now, steps) =>
      var live := LiveRow(s.db, agent, topic);
      if live.Some? {
        UnsubscribeUncachedExactly(s.db, s.cache, live.value, now, steps);
      }
    case DoReadTopic(topic) =>
      TopicExact(s.db, s.cache, topic);
      TopicReadRight(s.db, s.cache, topic);
    case DoList(agent, order, rowOrder) => ListReadRight(s.db, s.cache, agent, order, rowOrder);
    case DoRebuild =>
      NothingStaleIfCoherent(s.db, s.cache);
      RebuildCoherentExactly(s.db, s.cache);
  }

  lemma EmptyIsNotStale(db: Table)
    ensures NothingStale(db, Cache(map[], map[], map[]))
  {
  }

  lemma {:induction false} RebuiltKeyed(db: Table, c: Cache, ids: seq<Id>)
    requires Keyed(db) && Keyed(c.subs)
    ensures Keyed(IndexAll(c, db, ids).subs)
  {
    if ids != [] {
      RebuiltKeyed(db, c, ids[..|ids| - 1]);
    }
  }

  /** Every step, careful or not, caches copies under their own ids. */
  lemma StepKeepsKeyed(s: State, op: Op)
    requires ValidTable(s.db) && Keyed(s.cache.subs)
    ensures Keyed(Step(s, op).cache.subs)
  {
    match op
    case DoSubscribe(agent, topic, metadata, newId, now, _) =>
      SubscribedExactly(s.db, agent, topic, metadata, newId, now);
    case DoList(agent, order, _) =>
      LoadExactly(s.db, s.cache, order);
    case DoRebuild =>
      RebuiltKeyed(s.db, s.cache, InOrder(ActiveIds(s.db)));
    case _ =>
  }

  lemma {:induction false} AlwaysKeyed(ss: seq<State>, ops: seq<Op>, i: nat)
    requires Run(ss, ops) && i < |ss| && Keyed(ss[0].cache.subs)
    ensures Keyed(ss[i].cache.subs)
    decreases i
  {
    hide ValidTable, Keyed, Enabled, Step;
    if i > 0 {
      AlwaysKeyed(ss, ops, i - 1);
      AlwaysValidTable(ss, ops, i - 1);
      assert Enabled(ss[i - 1], ops[i - 1]);
      StepKeepsKeyed(ss[i - 1], ops[i - 1]);
    }
  }

  /** From a rebuild over an empty cache, every careful run keeps the cache exact. */
  lemma {:induction false} AlwaysCoherent(ss: seq<State>, ops: seq<Op>, i: nat)
    requires CarefulRun(ss, ops) && i < |ss|
    ensures Coherent(ss[i].db, ss[i].cache)
    decreases i
  {
    hide Coherent, Rebuilt, ValidTable, Enabled, Step, Careful;
    AlwaysValidTable(ss, ops, i);
    if i == 0 {
      EmptyIsNotStale(ss[0].db);
      RebuildCoherentExactly(ss[0].db, Cache(map[], map[], map[]));
    } else {
      AlwaysValidTable(ss, ops, i - 1);
      AlwaysCoherent(ss, ops, i - 1);
      assert Careful(ss[i - 1].db, ops[i - 1]);
      StepKeepsCoherent(ss[i - 1], ops[i - 1]);
    }
  }

  /** So at every moment of a careful run, cached reads answer what the database does: a topic read
      its set of subscribers, a listing each of the agent's ACTIVE rows once. */
  lemma CachedReadsAgree(
      ss: seq<State>, ops: seq<Op>, i: nat, topic: Topic, agent: Agent, order: seq<Id>, rowOrder: seq<Id>)
    requires CarefulRun(ss, ops) && i < |ss| && Enabled(ss[i], DoList(agent, order, rowOrder))
    ensures TopicRead(ss[i].db, ss[i].cache, topic) == (ss[i].cache, ActiveBy(ss[i].db, ByTopic, topic))
    ensures ListRead(ss[i].db, ss[i].cache, agent, order, rowOrder).0 == ss[i].cache
    ensures multiset(ListRead(ss[i].db, ss[i].cache, agent, order, rowOrder).1)
            == multiset(Rows(ss[i].db, ActiveBy(ss[i].db, ByAgent, agent)))
  {
    hide ListRead, TopicRead, Rebuilt, Coherent, ValidTable, Step, Careful, Rows, Members, ActiveBy;
    AlwaysValidTable(ss, ops, i);
    AlwaysCoherent(ss, ops, i);
    TopicExact(ss[i].db, ss[i].cache, topic);
    TopicReadRight(ss[i].db, ss[i].cache, topic);
    ListReadRight(ss[i].db, ss[i].cache, agent, order, rowOrder);
  }
}
