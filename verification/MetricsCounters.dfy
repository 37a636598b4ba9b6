/** `Counter` (adapter_metrics_counter.py): counters by label key in bounded storage with LRU
    eviction. The key type stands for the tuple of label values. */
module MetricsCounters {
  datatype Entry<K> = Entry(key: K, value: int)

  /** The `OrderedDict`, oldest first. */
  type Store<K> = seq<Entry<K>>

  ghost predicate HasKey<K>(s: Store<K>, k: K) {
    exists i :: 0 <= i < |s| && s[i].key == k
  }

  /** A position of `k`; the position, as keys are distinct. */
  ghost function Find<K>(s: Store<K>, k: K): (p: nat)
    requires HasKey(s, k)
    ensures p < |s| && s[p].key == k
  {
    var p :| 0 <= p < |s| && s[p].key == k;
    p
  }

  /** `move_to_end`, with the value increased by `amount`. */
  ghost function Renew<K>(s: Store<K>, k: K, amount: int): Store<K>
    requires HasKey(s, k)
  {
    var p := Find(s, k);
    s[..p] + s[p + 1..] + [Entry(k, s[p].value + amount)]
  }

  /** Evicts oldest entries until there is room for one more. */
  function MakeRoom<K>(max: nat, s: Store<K>): Store<K>
    requires max >= 1
  {
    if |s| >= max then s[|s| + 1 - max..] else s
  }

  ghost function Inc<K>(max: nat, s: Store<K>, k: K, amount: int): Store<K>
    requires max >= 1
  {
    if HasKey(s, k) then Renew(s, k, amount) else MakeRoom(max, s) + [Entry(k, amount)]
  }

  ghost function Get<K>(s: Store<K>, k: K): (Store<K>, int) {
    if HasKey(s, k) then (Renew(s, k, 0), s[Find(s, k)].value) else (s, 0)
  }

  ghost predicate DistinctKeys<K>(s: Store<K>) {
    forall i, j :: 0 <= i < j < |s| ==> s[i].key != s[j].key
  }

  class Counter<K(==)> {
    const maxEntries: nat
    var values: Store<K>

    ghost predicate Valid()
      reads this
    {
      DistinctKeys(values)
    }

    constructor (maxEntries: nat)
      ensures Valid() && this.maxEntries == maxEntries && values == []
    {
      this.maxEntries, values := maxEntries, [];
    }

    /** The dictionary lookup: the entry's position, or the length if there is none. */
    method Lookup(key: K) returns (p: nat)
      requires Valid()
      ensures p <= |values| && (p < |values| <==> HasKey(values, key))
      ensures p < |values| ==> p == Find(values, key)
    {
      for i := 0 to |values|
        invariant forall j :: 0 <= j < i ==> values[j].key != key
      {
        if values[i].key == key {
          return i;
        }
      }
      return |values|;
    }

    method MoveToEnd(p: nat)
      requires Valid() && p < |values|
      modifies this
      ensures Valid() && values == Renew(old(values), old(values[p].key), 0)
    {
      values := values[..p] + values[p + 1..] + [values[p]];
    }

    /** `popitem(last=False)` until there is room. */
    method Evict()
      requires Valid() && maxEntries >= 1
      modifies this
      ensures Valid() && values == MakeRoom(maxEntries, old(values))
    {
      while |values| >= maxEntries
        invariant |values| <= |old(values)| && values == old(values)[|old(values)| - |values|..]
        invariant |values| < |old(values)| ==> |values| >= maxEntries - 1
      {
        values := values[1..];
      }
    }

    method IncBy(key: K, amount: int)
      requires Valid() && maxEntries >= 1
      modifies this
      ensures Valid() && values == Inc(maxEntries, old(values), key, amount)
    {
      var p := Lookup(key);
      if p == |values| {
        Evict();
        values := values + [Entry(key, 0)];
      } else {
        MoveToEnd(p);
      }
      var last := |values| - 1;
      values := values[last := Entry(key, values[last].value + amount)];
    }

    method Read(key: K) returns (value: int)
      requires Valid()
      modifies this
      ensures Valid() && (values, value) == Get(old(values), key)
    {
      var p := Lookup(key);
      if p == |values| {
        return 0;
      }
      MoveToEnd(p);
      return values[|values| - 1].value;
    }

    method Reset()
      modifies this
      ensures Valid() && values == []
    {
      values := [];
    }
  }

  // ---------- Runs ----------

  datatype Op<K> = DoInc(key: K, amount: int) | DoGet(key: K) | DoReset

  ghost function Step<K>(max: nat, s: Store<K>, op: Op<K>): Store<K>
    requires max >= 1
  {
    match op
    case DoInc(k, amount) => Inc(max, s, k, amount)
    case DoGet(k) => Get(s, k).0
    case DoReset => []
  }

  /** `ss[i]` is the store after the first `i` operations of a run from empty. */
  ghost predicate Run<K>(max: nat, ops: seq<Op<K>>, ss: seq<Store<K>>) {
    && max >= 1 && |ss| == |ops| + 1 && ss[0] == []
    && forall i {:trigger ops[i]} :: 0 <= i < |ops| ==> ss[i + 1] == Step(max, ss[i], ops[i])
  }

  /** Operation `i` touches `k`: an increment, or a read that finds it. */
  ghost predicate Touches<K>(ops: seq<Op<K>>, ss: seq<Store<K>>, i: nat, k: K)
    requires i < |ops| < |ss|
  {
    match ops[i]
    case DoInc(key, _) => key == k
    case DoGet(key) => key == k && HasKey(ss[i], k)
    case DoReset => false
  }

  /** One more than the index of the last touch of `k` among the first `n` operations, counting
      only those after the last reset; 0 if there is none. */
  ghost function LastTouch<K>(ops: seq<Op<K>>, ss: seq<Store<K>>, n: nat, k: K): (t: nat)
    requires n <= |ops| < |ss|
    ensures t <= n
    ensures t > 0 ==> Touches(ops, ss, t - 1, k) && forall j :: t <= j < n ==> !Touches(ops, ss, j, k) && !ops[j].DoReset?
    ensures t == 0 ==> forall i :: 0 <= i < n && Touches(ops, ss, i, k) ==> exists j :: i < j < n && ops[j].DoReset?
  {
    if n == 0 then 0
    else if ops[n - 1].DoReset? then 0
    else if Touches(ops, ss, n - 1, k) then n
    else LastTouch(ops, ss, n - 1, k)
  }

  // ---------- LRU exactness ----------

  ghost function Touched<K>(ops: seq<Op<K>>, ss: seq<Store<K>>, n: nat): K -> nat
    requires n <= |ops| < |ss|
  {
    k => LastTouch(ops, ss, n, k)
  }

  /** The stored keys are the most recently touched ones by `last`, in recency order, and as many
      of them as there are or fit. */
  ghost predicate MostRecent<K(!new)>(max: nat, s: Store<K>, last: K -> nat) {
    && |s| <= max
    && (forall i :: 0 <= i < |s| ==> last(s[i].key) > 0)
    && (forall i, j :: 0 <= i < j < |s| ==> last(s[i].key) < last(s[j].key))
    && (forall k :: last(k) > 0 && !HasKey(s, k) ==>
          |s| == max && forall i :: 0 <= i < |s| ==> last(k) < last(s[i].key))
  }

  lemma FindAt<K>(s: Store<K>, i: nat)
    requires DistinctKeys(s) && i < |s|
    ensures Find(s, s[i].key) == i
  {
  }

  /** Where entry `i` of the new store was in the old one: `p` is the place of the renewed entry, or
      else the number of evicted ones. */
  function From(p: nat, renewed: bool, i: nat): nat {
    if renewed && i < p then i else if renewed then i + 1 else i + p
  }

  /** A touch of `k` puts it last; every other entry was stored before, in the same order, and
      only a full store loses one, its oldest. */
  ghost predicate TouchShape<K>(max: nat, s: Store<K>, k: K, s': Store<K>, p: nat, renewed: bool) {
    && |s'| > 0 && s'[|s'| - 1].key == k && renewed == HasKey(s, k)
    && |s'| - 1 == |s| - (if renewed then 1 else p)
    && (renewed ==> p < |s| && s[p].key == k)
    && (!renewed && p > 0 ==> p == 1 && |s| == max)
    && (!renewed ==> |s| - p < max)
    && (forall i :: 0 <= i < |s'| - 1 ==> From(p, renewed, i) < |s| && s'[i] == s[From(p, renewed, i)])
  }

  lemma RenewShape<K>(max: nat, s: Store<K>, k: K, amount: int)
    requires HasKey(s, k)
    ensures TouchShape(max, s, k, Renew(s, k, amount), Find(s, k), true)
  {
    var p, s' := Find(s, k), Renew(s, k, amount);
    assert |s'| == |s| && s'[|s'| - 1].key == k;
    assert forall i :: 0 <= i < |s'| - 1 ==> s'[i] == s[From(p, true, i)];
  }

  lemma InsertShape<K>(max: nat, s: Store<K>, k: K, amount: int) returns (p: nat)
    requires max >= 1 && |s| <= max && !HasKey(s, k)
    ensures TouchShape(max, s, k, MakeRoom(max, s) + [Entry(k, amount)], p, false)
  {
    p := if |s| >= max then 1 else 0;
    var s' := MakeRoom(max, s) + [Entry(k, amount)];
    assert MakeRoom(max, s) == s[p..];
    assert forall i :: 0 <= i < |s'| - 1 ==> s'[i] == s[From(p, false, i)];
  }

  lemma StepShape<K>(max: nat, s: Store<K>, op: Op<K>) returns (p: nat)
    requires max >= 1 && |s| <= max && !op.DoReset? && (op.DoInc? || HasKey(s, op.key))
    ensures TouchShape(max, s, op.key, Step(max, s, op), p, HasKey(s, op.key))
  {
    var amount := if op.DoInc? then op.amount else 0;
    if HasKey(s, op.key) {
      p := Find(s, op.key);
      RenewShape(max, s, op.key, amount);
    } else {
      p := InsertShape(max, s, op.key, amount);
    }
  }

  lemma ShapeDistinct<K>(max: nat, s: Store<K>, k: K, s': Store<K>, p: nat, renewed: bool)
    requires DistinctKeys(s) && TouchShape(max, s, k, s', p, renewed)
    ensures DistinctKeys(s')
    ensures forall i :: 0 <= i < |s'| - 1 ==> s'[i].key != k
  {
    forall i | 0 <= i < |s'| - 1 ensures s'[i].key != k {
      var q := From(p, renewed, i);
      assert s'[i] == s[q];
      assert renewed ==> q != p;
    }
    forall i, j | 0 <= i < j < |s'| ensures s'[i].key != s'[j].key {
      if j < |s'| - 1 {
        assert s'[i] == s[From(p, renewed, i)] && s'[j] == s[From(p, renewed, j)];
      }
    }
  }

  lemma ShapeKeeps<K>(max: nat, s: Store<K>, k: K, s': Store<K>, p: nat, renewed: bool, q: K)
    requires TouchShape(max, s, k, s', p, renewed) && HasKey(s, q)
    ensures HasKey(s', q) || (!renewed && p == 1 && q == s[0].key)
  {
    var i := Find(s, q);
    if q == k {
      assert s'[|s'| - 1].key == q;
    } else if renewed {
      var i' := if i < p then i else i - 1;
      assert From(p, renewed, i') == i && s'[i'] == s[i];
    } else if i >= p {
      assert From(p, renewed, i - p) == i && s'[i - p] == s[i];
    }
  }

  /** What a touch at time `n` does to the times of last touch. */
  ghost predicate TouchedAt<K(!new)>(k: K, n: nat, last: K -> nat, last': K -> nat) {
    forall q :: last(q) < n && last'(q) == if q == k then n else last(q)
  }

  lemma TouchKeepsOrder<K(!new)>(
      max: nat, s: Store<K>, k: K, s': Store<K>, p: nat, renewed: bool, last: K -> nat, last': K -> nat, n: nat)
    requires DistinctKeys(s) && MostRecent(max, s, last) && TouchShape(max, s, k, s', p, renewed)
    requires TouchedAt(k, n, last, last')
    ensures |s'| <= max && last'(s'[|s'| - 1].key) == n
    ensures forall i :: 0 <= i < |s'| - 1 ==> 0 < last'(s'[i].key) == last(s[From(p, renewed, i)].key) < n
  {
    ShapeDistinct(max, s, k, s', p, renewed);
    forall i | 0 <= i < |s'| - 1
      ensures 0 < last'(s'[i].key) == last(s[From(p, renewed, i)].key) < n
    {
      assert s'[i] == s[From(p, renewed, i)];
    }
  }

  lemma AbsentOlder<K(!new)>(
      max: nat, s: Store<K>, k: K, s': Store<K>, p: nat, renewed: bool, last: K -> nat, q: K)
    requires MostRecent(max, s, last) && TouchShape(max, s, k, s', p, renewed)
    requires q != k && last(q) > 0 && !HasKey(s', q)
    ensures |s'| == max && forall i :: 0 <= i < |s'| - 1 ==> last(q) < last(s[From(p, renewed, i)].key)
  {
    if HasKey(s, q) {
      ShapeKeeps(max, s, k, s', p, renewed, q);
    }
  }

  lemma TouchKeepsRecency<K(!new)>(
      max: nat, s: Store<K>, k: K, s': Store<K>, p: nat, renewed: bool, last: K -> nat, last': K -> nat, n: nat)
    requires DistinctKeys(s) && MostRecent(max, s, last) && TouchShape(max, s, k, s', p, renewed)
    requires TouchedAt(k, n, last, last')
    ensures MostRecent(max, s', last')
  {
    var m := |s'| - 1;
    TouchKeepsOrder(max, s, k, s', p, renewed, last, last', n);
    forall i, j | 0 <= i < j < |s'| ensures last'(s'[i].key) < last'(s'[j].key) {
      if j < m {
        assert From(p, renewed, i) < From(p, renewed, j);
      }
    }
    forall q | last'(q) > 0 && !HasKey(s', q)
      ensures |s'| == max && forall i :: 0 <= i < |s'| ==> last'(q) < last'(s'[i].key)
    {
      assert s'[m].key == k;
      AbsentOlder(max, s, k, s', p, renewed, last, q);
    }
  }

  lemma TouchTimes<K(!new)>(max: nat, ops: seq<Op<K>>, ss: seq<Store<K>>, n: nat)
    requires Run(max, ops, ss) && 0 < n <= |ops| && !ops[n - 1].DoReset?
    requires ops[n - 1].DoInc? || HasKey(ss[n - 1], ops[n - 1].key)
    ensures ss[n] == Step(max, ss[n - 1], ops[n - 1])
    ensures TouchedAt(ops[n - 1].key, n, Touched(ops, ss, n - 1), Touched(ops, ss, n))
  {
  }

  lemma NoTouch<K(!new)>(max: nat, ops: seq<Op<K>>, ss: seq<Store<K>>, n: nat)
    requires Run(max, ops, ss) && 0 < n <= |ops| && ops[n - 1].DoGet? && !HasKey(ss[n - 1], ops[n - 1].key)
    ensures ss[n] == ss[n - 1]
    ensures forall k :: Touched(ops, ss, n)(k) == Touched(ops, ss, n - 1)(k)
  {
  }

  lemma LruStep<K(!new)>(max: nat, ops: seq<Op<K>>, ss: seq<Store<K>>, n: nat)
    requires Run(max, ops, ss) && 0 < n <= |ops| && !ops[n - 1].DoReset?
    requires DistinctKeys(ss[n - 1]) && MostRecent(max, ss[n - 1], Touched(ops, ss, n - 1))
    ensures DistinctKeys(ss[n]) && MostRecent(max, ss[n], Touched(ops, ss, n))
  {
    hide TouchShape, Step, DistinctKeys, LastTouch, HasKey;
    var s, s', op := ss[n - 1], ss[n], ops[n - 1];
    if op.DoInc? || HasKey(s, op.key) {
      TouchTimes(max, ops, ss, n);
      var p := StepShape(max, s, op);
      ShapeDistinct(max, s, op.key, s', p, HasKey(s, op.key));
      TouchKeepsRecency(max, s, op.key, s', p, HasKey(s, op.key), Touched(ops, ss, n - 1), Touched(ops, ss, n), n);
    } else {
      NoTouch(max, ops, ss, n);
    }
  }

  /** LRU exactness: after any run the stored keys are exactly the `max_entries` most recently
      touched distinct keys since the last reset, in recency order. */
  lemma {:induction false} LruExact<K(!new)>(max: nat, ops: seq<Op<K>>, ss: seq<Store<K>>, n: nat)
    requires Run(max, ops, ss) && n <= |ops|
    ensures DistinctKeys(ss[n]) && MostRecent(max, ss[n], Touched(ops, ss, n))
  {
    if n > 0 {
      if ops[n - 1].DoReset? {
        assert ss[n] == [];
        assert forall k :: Touched(ops, ss, n)(k) == 0;
      } else {
        LruExact(max, ops, ss, n - 1);
        LruStep(max, ops, ss, n);
      }
    }
  }

  // ---------- Values ----------

  ghost function SumIncs<K>(ops: seq<Op<K>>, k: K, lo: nat, hi: nat): int
    requires lo <= hi <= |ops|
  {
    if lo == hi then 0
    else SumIncs(ops, k, lo, hi - 1) + if ops[hi - 1].DoInc? && ops[hi - 1].key == k then ops[hi - 1].amount else 0
  }

  /** `k` was inserted by operation `j` and has been stored after every operation since. */
  ghost predicate InsertedAt<K>(ops: seq<Op<K>>, ss: seq<Store<K>>, n: nat, k: K, j: nat)
    requires n <= |ops| < |ss|
  {
    && j < n && ops[j].DoInc? && ops[j].key == k && !HasKey(ss[j], k)
    && forall m {:trigger HasKey(ss[m], k)} :: j < m <= n ==> HasKey(ss[m], k)
  }

  ghost function ValueOf<K>(s: Store<K>, k: K): int {
    if HasKey(s, k) then s[Find(s, k)].value else 0
  }

  lemma StepValue<K>(max: nat, s: Store<K>, op: Op<K>, k: K)
    requires max >= 1 && DistinctKeys(s) && DistinctKeys(Step(max, s, op)) && |s| <= max
    requires HasKey(Step(max, s, op), k)
    ensures (op.DoInc? && op.key == k) || HasKey(s, k)
    ensures ValueOf(Step(max, s, op), k) == ValueOf(s, k) + if op.DoInc? && op.key == k then op.amount else 0
  {
    var s' := Step(max, s, op);
    if op.DoInc? || HasKey(s, op.key) {
      var p := StepShape(max, s, op);
      var i := Find(s', k);
      if op.key == k {
        FindAt(s', |s'| - 1);
      } else {
        assert i < |s'| - 1;
        FindAt(s, From(p, HasKey(s, op.key), i));
      }
    }
  }

  lemma StoreFacts<K(!new)>(max: nat, ops: seq<Op<K>>, ss: seq<Store<K>>, n: nat)
    requires Run(max, ops, ss) && n <= |ops|
    ensures DistinctKeys(ss[n]) && |ss[n]| <= max
  {
    LruExact(max, ops, ss, n);
  }

  lemma StepValueAt<K(!new)>(max: nat, ops: seq<Op<K>>, ss: seq<Store<K>>, n: nat, k: K)
    requires Run(max, ops, ss) && 0 < n <= |ops| && HasKey(ss[n], k)
    ensures (ops[n - 1].DoInc? && ops[n - 1].key == k) || HasKey(ss[n - 1], k)
    ensures ValueOf(ss[n], k) == ValueOf(ss[n - 1], k) + SumIncs(ops, k, n - 1, n)
  {
    StoreFacts(max, ops, ss, n - 1);
    StoreFacts(max, ops, ss, n);
    StepValue(max, ss[n - 1], ops[n - 1], k);
    assert SumIncs(ops, k, n - 1, n - 1) == 0;
  }

  /** A stored key has a latest insertion. */
  lemma {:induction false} LatestInsertion<K(!new)>(max: nat, ops: seq<Op<K>>, ss: seq<Store<K>>, n: nat, k: K)
    returns (j: nat)
    requires Run(max, ops, ss) && n <= |ops| && HasKey(ss[n], k)
    ensures InsertedAt(ops, ss, n, k, j)
  {
    StepValueAt(max, ops, ss, n, k);
    if HasKey(ss[n - 1], k) {
      j := LatestInsertion(max, ops, ss, n - 1, k);
    } else {
      j := n - 1;
    }
  }

  lemma InsertedFacts<K>(max: nat, ops: seq<Op<K>>, ss: seq<Store<K>>, n: nat, k: K, j: nat)
    requires Run(max, ops, ss) && n <= |ops| && InsertedAt(ops, ss, n, k, j)
    ensures j < n && |ss| == |ops| + 1 && HasKey(ss[n], k) && ValueOf(ss[j], k) == SumIncs(ops, k, j, j) == 0
    ensures n == j + 1 || InsertedAt(ops, ss, n - 1, k, j)
  {
  }

  lemma SumSplit<K>(ops: seq<Op<K>>, k: K, lo: nat, hi: nat)
    requires lo < hi <= |ops|
    ensures SumIncs(ops, k, lo, hi) == SumIncs(ops, k, lo, hi - 1) + SumIncs(ops, k, hi - 1, hi)
  {
    assert SumIncs(ops, k, hi - 1, hi - 1) == 0;
  }

  /** The value of a stored key is the sum of the increments since its latest insertion. */
  lemma {:induction false} ValueIsSumSinceInsertion<K(!new)>(
      max: nat, ops: seq<Op<K>>, ss: seq<Store<K>>, n: nat, k: K, j: nat)
    requires Run(max, ops, ss) && n <= |ops| && InsertedAt(ops, ss, n, k, j)
    ensures ValueOf(ss[n], k) == SumIncs(ops, k, j, n)
    decreases n
  {
    hide Run, HasKey, InsertedAt, ValueOf, SumIncs;
    InsertedFacts(max, ops, ss, n, k, j);
    StepValueAt(max, ops, ss, n, k);
    SumSplit(ops, k, j, n);
    if n > j + 1 {
      ValueIsSumSinceInsertion(max, ops, ss, n - 1, k, j);
    }
  }

  /** A read answers 0 for a key not stored, and otherwise the sum of increments since the key's
      latest insertion. */
  lemma ReadExactly<K(!new)>(max: nat, ops: seq<Op<K>>, ss: seq<Store<K>>, n: nat, k: K)
    requires Run(max, ops, ss) && n <= |ops|
    ensures if HasKey(ss[n], k)
            then exists j: nat :: InsertedAt(ops, ss, n, k, j) && Get(ss[n], k).1 == SumIncs(ops, k, j, n)
            else Get(ss[n], k) == (ss[n], 0)
  {
    if HasKey(ss[n], k) {
      var j := LatestInsertion(max, ops, ss, n, k);
      ValueIsSumSinceInsertion(max, ops, ss, n, k, j);
    }
  }
}
