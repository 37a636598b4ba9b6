/** `ClassModelConfigCollector` (validate_pydantic_patterns.py): resolving transitive Pydantic
    inheritance and tracing inheritance chains, over arbitrary, possibly cyclic class graphs. */
module PydanticModels {
  /** The classes of one file and the names of their bases. */
  type Graph = map<string, seq<string>>

  // ---------- Reference notions ----------

  /** A chain of in-file inheritance: every node but the last is a class of the file with the
      next node among its bases. */
  ghost predicate IsChain(g: Graph, p: seq<string>) {
    p != [] && forall i :: 0 <= i < |p| - 1 ==> p[i] in g && p[i + 1] in g[p[i]]
  }

  /** `name` is one of the seeds or inherits from one through classes of the file. */
  ghost predicate Derives(g: Graph, seeds: set<string>, name: string) {
    exists p :: IsChain(g, p) && p[0] == name && p[|p| - 1] in seeds
  }

  predicate HasBaseIn(bases: seq<string>, s: set<string>) {
    exists b :: b in bases && b in s
  }

  /** Every class with a base in `s` is in `s`. */
  ghost predicate ClosedUnder(g: Graph, s: set<string>) {
    forall name :: name in g && HasBaseIn(g[name], s) ==> name in s
  }

  /** `s` is the least set that contains the seeds and is closed. */
  ghost predicate LeastClosed(g: Graph, seeds: set<string>, s: set<string>) {
    && seeds <= s && ClosedUnder(g, s)
    && forall t: set<string> :: seeds <= t && ClosedUnder(g, t) ==> s <= t
  }

  ghost predicate IsOrder(g: Graph, order: seq<string>) {
    && (forall name :: name in order <==> name in g)
    && forall i, k :: 0 <= i < k < |order| ==> order[i] != order[k]
  }

  lemma {:induction false} ChainStaysIn(g: Graph, t: set<string>, p: seq<string>)
    requires ClosedUnder(g, t) && IsChain(g, p) && p[|p| - 1] in t
    ensures p[0] in t
  {
    if |p| > 1 {
      assert IsChain(g, p[1..]) by {
        forall i | 0 <= i < |p[1..]| - 1 ensures p[1..][i] in g && p[1..][i + 1] in g[p[1..][i]] {
          assert p[i + 1] in g && p[i + 2] in g[p[i + 1]];
        }
      }
      ChainStaysIn(g, t, p[1..]);
      assert p[0] in g && p[1] in g[p[0]];
    }
  }

  lemma DerivesThrough(g: Graph, seeds: set<string>, name: string, b: string)
    requires name in g && b in g[name] && Derives(g, seeds, b)
    ensures Derives(g, seeds, name)
  {
    var p :| IsChain(g, p) && p[0] == b && p[|p| - 1] in seeds;
    var q := [name] + p;
    forall i | 0 <= i < |q| - 1 ensures q[i] in g && q[i + 1] in g[q[i]] {
      if i > 0 {
        assert q[i] == p[i - 1] && q[i + 1] == p[i];
      }
    }
    assert IsChain(g, q) && q[0] == name && q[|q| - 1] == p[|p| - 1];
  }

  /** The least closed set is exactly the set of deriving names: a set has at most one meaning,
      whatever order it was computed in. */
  lemma LeastIsDerives(g: Graph, seeds: set<string>, s: set<string>)
    requires LeastClosed(g, seeds, s)
    ensures forall name :: name in s <==> Derives(g, seeds, name)
  {
    forall name | Derives(g, seeds, name) ensures name in s {
      var p :| IsChain(g, p) && p[0] == name && p[|p| - 1] in seeds;
      ChainStaysIn(g, s, p);
    }
    var t := set name | name in s && Derives(g, seeds, name);
    forall name | name in seeds ensures name in t {
      assert IsChain(g, [name]) && [name][0] == name;
    }
    forall name | name in g && HasBaseIn(g[name], t) ensures name in t {
      var b :| b in g[name] && b in t;
      assert HasBaseIn(g[name], s);
      DerivesThrough(g, seeds, name, b);
    }
    assert s <= t;
  }

  lemma LeastIsUnique(g: Graph, seeds: set<string>, s: set<string>, t: set<string>)
    requires LeastClosed(g, seeds, s) && LeastClosed(g, seeds, t)
    ensures s == t
  {
    assert s <= t && t <= s;
  }

  // ---------- Tracing ----------

  /** `_trace_inheritance_chain` with `visited` copied into every recursive call. */
  function Trace(g: Graph, name: string, visited: set<string>): (seq<string>, bool)
    decreases |g.Keys - visited|, 1, 0
  {
    if name in visited then ([name], true)
    else if name !in g then ([name], false)
    else
      assert g.Keys - visited == (g.Keys - (visited + {name})) + {name};
      TraceBases(g, name, visited + {name}, g[name])
  }

  /** The loop over the remaining bases of `name`. */
  function TraceBases(g: Graph, name: string, visited: set<string>, bases: seq<string>): (seq<string>, bool)
    decreases |g.Keys - visited|, 2, |bases|
  {
    if bases == [] then ([name], false)
    else if bases[0] in g then
      var (sub, cycle) := Trace(g, bases[0], visited);
      if cycle then ([name] + sub, true) else TraceBases(g, name, visited, bases[1..])
    else TraceBases(g, name, visited, bases[1..])
  }

  /** A path through classes of the file. */
  ghost predicate InFile(g: Graph, p: seq<string>) {
    IsChain(g, p) && forall i :: 0 <= i < |p| ==> p[i] in g
  }

  ghost predicate Repeats(p: seq<string>) {
    exists i, k :: 0 <= i < k < |p| && p[i] == p[k]
  }

  /** Some in-file path from `name` runs into itself. */
  ghost predicate ReachesCycle(g: Graph, name: string) {
    exists p :: InFile(g, p) && p[0] == name && Repeats(p)
  }

  /** `p` is a genuine in-file path from `name` that ends in a node of `visited` or in one of its
      own earlier nodes, with no other repetition. */
  ghost predicate ClosesOn(g: Graph, name: string, visited: set<string>, p: seq<string>) {
    && p != [] && p[0] == name && IsChain(g, p)
    && (p[|p| - 1] in visited || exists i :: 0 <= i < |p| - 1 && p[i] == p[|p| - 1])
    && (forall i :: 0 <= i < |p| - 1 ==> p[i] !in visited)
    && (forall i, k :: 0 <= i < k < |p| - 1 ==> p[i] != p[k])
  }

  lemma {:induction false} TraceSound(g: Graph, name: string, visited: set<string>)
    ensures Trace(g, name, visited).1 ==> ClosesOn(g, name, visited, Trace(g, name, visited).0)
    ensures !Trace(g, name, visited).1 ==> Trace(g, name, visited).0 == [name]
    decreases |g.Keys - visited|, 1, 0
  {
    if name !in visited && name in g {
      assert g.Keys - visited == (g.Keys - (visited + {name})) + {name};
      TraceBasesSound(g, name, visited, g[name]);
    }
  }

  lemma Prepend(g: Graph, name: string, visited: set<string>, sub: seq<string>)
    requires name in g && name !in visited
    requires sub != [] && sub[0] in g[name] && ClosesOn(g, sub[0], visited + {name}, sub)
    ensures ClosesOn(g, name, visited, [name] + sub)
  {
    var p := [name] + sub;
    var last := |p| - 1;
    forall i | 0 <= i < last ensures p[i] in g && p[i + 1] in g[p[i]] && p[i] !in visited {
      if i > 0 {
        assert p[i] == sub[i - 1] && p[i + 1] == sub[i];
      }
    }
    assert p[last] == sub[|sub| - 1];
    if sub[|sub| - 1] in visited + {name} {
      if sub[|sub| - 1] == name {
        assert p[0] == p[last];
      }
    } else {
      var i :| 0 <= i < |sub| - 1 && sub[i] == sub[|sub| - 1];
      assert p[i + 1] == p[last];
    }
    forall i, k | 0 <= i < k < last ensures p[i] != p[k] {
      assert p[k] == sub[k - 1] && sub[k - 1] !in visited + {name};
      if i > 0 {
        assert p[i] == sub[i - 1];
      }
    }
  }

  lemma {:induction false} TraceBasesSound(g: Graph, name: string, visited: set<string>, bases: seq<string>)
    requires name in g && name !in visited && forall b :: b in bases ==> b in g[name]
    ensures var (chain, cycle) := TraceBases(g, name, visited + {name}, bases);
            if cycle then ClosesOn(g, name, visited, chain) else chain == [name]
    decreases |g.Keys - (visited + {name})|, 2, |bases|
  {
    if bases != [] {
      var v := visited + {name};
      TraceBasesSound(g, name, visited, bases[1..]);
      if bases[0] in g {
        TraceSound(g, bases[0], v);
        var (sub, cycle) := Trace(g, bases[0], v);
        if cycle {
          Prepend(g, name, visited, sub);
        }
      }
    }
  }

  lemma {:induction false} EveryBaseTraced(g: Graph, name: string, visited: set<string>, bases: seq<string>, b: string)
    requires !TraceBases(g, name, visited, bases).1 && b in bases && b in g
    ensures !Trace(g, b, visited).1
    decreases |bases|
  {
    if b != bases[0] {
      EveryBaseTraced(g, name, visited, bases[1..], b);
    }
  }

  /** If no cycle is reported, no in-file path from `name` meets `visited` or itself. */
  lemma {:induction false} TraceComplete(g: Graph, name: string, visited: set<string>, p: seq<string>)
    requires !Trace(g, name, visited).1 && InFile(g, p) && p[0] == name
    ensures !Repeats(p) && forall i :: 0 <= i < |p| ==> p[i] !in visited
    decreases |p|
  {
    if |p| > 1 {
      var v, q := visited + {name}, p[1..];
      assert InFile(g, q) by {
        forall i | 0 <= i < |q| ensures q[i] in g && (i < |q| - 1 ==> q[i + 1] in g[q[i]]) {
          assert q[i] == p[i + 1];
          if i < |q| - 1 {
            assert p[i + 2] in g[p[i + 1]];
          }
        }
      }
      assert p[1] in g[p[0]];
      EveryBaseTraced(g, name, v, g[name], p[1]);
      TraceComplete(g, p[1], v, q);
      forall i | 0 <= i < |p| ensures p[i] !in visited && (i > 0 ==> p[i] != name) {
        if i > 0 {
          assert p[i] == q[i - 1];
        }
      }
    }
  }

  /** Tracing reports a cycle exactly when one is reachable through in-file bases, and the chain
      it then returns is a genuine path from the class whose last node repeats an earlier one. */
  lemma TraceExactly(g: Graph, name: string)
    ensures Trace(g, name, {}).1 <==> ReachesCycle(g, name)
    ensures Trace(g, name, {}).1 ==>
              var p := Trace(g, name, {}).0;
              InFile(g, p) && p[0] == name && exists i :: 0 <= i < |p| - 1 && p[i] == p[|p| - 1]
  {
    TraceSound(g, name, {});
    if Trace(g, name, {}).1 {
      var p := Trace(g, name, {}).0;
      var i :| 0 <= i < |p| - 1 && p[i] == p[|p| - 1];
      assert forall k :: 0 <= k < |p| - 1 ==> p[k] in g;
      assert InFile(g, p) && Repeats(p);
    } else if ReachesCycle(g, name) {
      var p :| InFile(g, p) && p[0] == name && Repeats(p);
      TraceComplete(g, name, {}, p);
    }
  }

  // ---------- The class ----------

  lemma {:induction false} Subset(a: set<string>, b: set<string>)
    requires a <= b
    ensures |a| <= |b|
  {
    if a != {} {
      var x :| x in a;
      Subset(a - {x}, b - {x});
    }
  }

  lemma Shrinks(keys: set<string>, before: set<string>, after: set<string>)
    requires before <= after && exists name :: name in after && name in keys && name !in before
    ensures |keys - after| < |keys - before|
  {
    var name :| name in after && name in keys && name !in before;
    assert keys - after <= (keys - before) - {name};
    Subset(keys - after, (keys - before) - {name});
  }

  class ClassModelConfigCollector {
    var classBases: Graph
    var pydanticModels: set<string>

    constructor (classBases: Graph, direct: set<string>)
      ensures this.classBases == classBases && pydanticModels == direct
    {
      this.classBases, pydanticModels := classBases, direct;
    }

    /** The inner loop over the bases of one class. */
    method AnyResolved(bases: seq<string>) returns (found: bool)
      ensures found <==> HasBaseIn(bases, pydanticModels)
    {
      for i := 0 to |bases|
        invariant !HasBaseIn(bases[..i], pydanticModels)
      {
        if bases[i] in pydanticModels {
          return true;
        }
      }
      assert bases[..|bases|] == bases;
      return false;
    }

    /** One pass over the classes; `changed` says it added one. */
    method OnePass(order: seq<string>) returns (changed: bool)
      requires IsOrder(classBases, order)
      modifies this`pydanticModels
      ensures old(pydanticModels) <= pydanticModels
      ensures forall t: set<string> :: old(pydanticModels) <= t && ClosedUnder(classBases, t) ==> pydanticModels <= t
      ensures if changed
              then exists name :: name in pydanticModels && name in classBases && name !in old(pydanticModels)
              else pydanticModels == old(pydanticModels) && ClosedUnder(classBases, pydanticModels)
    {
      changed := false;
      for i := 0 to |order|
        invariant old(pydanticModels) <= pydanticModels
        invariant forall t: set<string> ::
                    old(pydanticModels) <= t && ClosedUnder(classBases, t) ==> pydanticModels <= t
        invariant if changed
                  then exists name :: name in pydanticModels && name in classBases && name !in old(pydanticModels)
                  else pydanticModels == old(pydanticModels)
        invariant !changed ==> forall k :: 0 <= k < i && HasBaseIn(classBases[order[k]], pydanticModels) ==>
                                 order[k] in pydanticModels
      {
        var className := order[i];
        if className in pydanticModels {
          continue;
        }
        var found := AnyResolved(classBases[className]);
        if found {
          pydanticModels := pydanticModels + {className};
          changed := true;
        }
      }
    }

    /** `order` is the dictionary's iteration order; `limitReached` says the guard fired. */
    method ResolvePydanticModels(order: seq<string>) returns (limitReached: bool)
      requires IsOrder(classBases, order)
      modifies this`pydanticModels
      ensures !limitReached
      ensures LeastClosed(classBases, old(pydanticModels), pydanticModels)
    {
      ghost var seeds := pydanticModels;
      var maxIterations := |classBases| + 1;
      var iterationCount := 0;
      var changed := true;
      limitReached := false;
      while changed
        invariant seeds <= pydanticModels
        invariant forall t: set<string> :: seeds <= t && ClosedUnder(classBases, t) ==> pydanticModels <= t
        invariant !changed ==> ClosedUnder(classBases, pydanticModels)
        invariant !limitReached
        invariant iterationCount <= |classBases| - |classBases.Keys - pydanticModels| + if changed then 0 else 1
        decreases changed, |classBases.Keys - pydanticModels|
      {
        iterationCount := iterationCount + 1;
        if iterationCount > maxIterations {
          limitReached := true;
          break;
        }
        ghost var before := pydanticModels;
        changed := OnePass(order);
        if changed {
          Shrinks(classBases.Keys, before, pydanticModels);
        }
      }
    }

    /** The recursion measure is the classes of the file not yet visited. */
    method TraceInheritanceChain(className: string, visited: set<string>) returns (chain: seq<string>, isCycle: bool)
      ensures (chain, isCycle) == Trace(classBases, className, visited)
      decreases |classBases.Keys - visited|
    {
      chain := [className];
      if className in visited {
        return chain, true;
      }
      if className !in classBases {
        return chain, false;
      }
      var visited' := visited + {className};
      assert classBases.Keys - visited == (classBases.Keys - visited') + {className};
      var bases := classBases[className];
      for i := 0 to |bases|
        invariant TraceBases(classBases, className, visited', bases)
                  == TraceBases(classBases, className, visited', bases[i..])
      {
        assert bases[i..][1..] == bases[i + 1..];
        if bases[i] in classBases {
          var subChain, subCycle := TraceInheritanceChain(bases[i], visited');
          if subCycle {
            return chain + subChain, true;
          }
        }
      }
      return chain, false;
    }
  }
}
