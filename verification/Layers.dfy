/** Memoised layering: a crate's layer is the length of the longest dependency chain below it. */
module Layers {
  import opened Names
  import opened DepGraph

  ghost predicate ChainFrom(g: Dag, n: string, p: seq<string>) {
    IsPath(g, p) && p[0] == n
  }

  ghost predicate HasChain(g: Dag, n: string, k: nat) {
    exists p :: ChainFrom(g, n, p) && |p| == k + 1
  }

  ghost predicate NoLongerChain(g: Dag, n: string, k: nat) {
    forall p :: ChainFrom(g, n, p) ==> |p| <= k + 1
  }

  /** The longest dependency chain starting at `n` has `k` steps. */
  ghost predicate IsLayer(g: Dag, n: string, k: nat) {
    HasChain(g, n, k) && NoLongerChain(g, n, k)
  }

  lemma LayerUnique(g: Dag, n: string, k: nat, l: nat)
    requires IsLayer(g, n, k) && IsLayer(g, n, l)
    ensures k == l
  {
    var p :| ChainFrom(g, n, p) && |p| == k + 1;
    var q :| ChainFrom(g, n, q) && |q| == l + 1;
  }

  /** A dependency lies in a strictly lower layer. */
  lemma DependencyIsLower(g: Dag, n: string, k: nat, d: string, l: nat)
    requires IsLayer(g, n, k) && IsLayer(g, d, l) && d in g.Deps(n)
    ensures l < k
  {
    var p :| ChainFrom(g, d, p) && |p| == l + 1;
    PrependPath(g, n, p);
    assert ChainFrom(g, n, [n] + p);
  }

  lemma LeafLayer(g: Dag, n: string)
    requires g.Deps(n) == []
    ensures IsLayer(g, n, 0)
  {
    assert ChainFrom(g, n, [n]);
    forall p | ChainFrom(g, n, p) ensures |p| <= 1 {
      assert |p| <= 1 || Linked(g, p, 0);
    }
  }

  /** `best` bounds the layers of the first `j` dependencies and, if there are any, is one of them. */
  ghost predicate MaxSoFar(g: Dag, deps: seq<string>, j: nat, best: nat)
    requires j <= |deps|
  {
    && (forall i :: 0 <= i < j ==> NoLongerChain(g, deps[i], best))
    && (j > 0 ==> exists i :: 0 <= i < j && HasChain(g, deps[i], best))
  }

  lemma MaxStep(g: Dag, deps: seq<string>, j: nat, best: nat, l: nat)
    requires j < |deps| && MaxSoFar(g, deps, j, best) && IsLayer(g, deps[j], l)
    requires j == 0 ==> best == 0
    ensures MaxSoFar(g, deps, j + 1, if l > best then l else best)
  {
    var m := if l > best then l else best;
    forall i | 0 <= i < j + 1 ensures NoLongerChain(g, deps[i], m) {
      if i < j { assert NoLongerChain(g, deps[i], best); }
    }
    if m == l {
      assert HasChain(g, deps[j], m);
    }
  }

  lemma LayerAboveMax(g: Dag, n: string, best: nat)
    requires g.Deps(n) != [] && MaxSoFar(g, g.Deps(n), |g.Deps(n)|, best)
    ensures IsLayer(g, n, best + 1)
  {
    var deps := g.Deps(n);
    var i :| 0 <= i < |deps| && HasChain(g, deps[i], best);
    var p :| ChainFrom(g, deps[i], p) && |p| == best + 1;
    PrependPath(g, n, p);
    assert ChainFrom(g, n, [n] + p);
    forall q | ChainFrom(g, n, q) ensures |q| <= best + 2 {
      if |q| > 1 {
        assert Linked(g, q, 0);
        var j :| 0 <= j < |deps| && deps[j] == q[1];
        SubPath(g, q, 1, |q|);
        assert ChainFrom(g, deps[j], q[1..|q|]);
      }
    }
  }

  /** The table shared by all calls of the layering. */
  class LayerMemo {
    const g: Dag
    var memo: map<string, nat>

    ghost predicate Valid()
      reads this
    {
      forall n :: n in memo ==> IsLayer(g, n, memo[n])
    }

    constructor (g: Dag)
      ensures this.g == g && memo == map[] && Valid()
    {
      this.g := g;
      memo := map[];
    }

    /** The layer of `name`. The recursion ends because `chain`, the chain of callers, is a path of
        an acyclic graph and so never longer than the graph has crates. */
    method AssignLayer(name: string, ghost chain: seq<string>) returns (layer: nat)
      requires Valid() && g.Closed() && !HasCycle(g)
      requires IsPath(g, chain) && chain[0] in g.deps && chain[|chain| - 1] == name
      modifies this
      ensures Valid() && IsLayer(g, name, layer)
      ensures name in memo && memo[name] == layer
      ensures forall n :: n in old(memo) ==> n in memo && memo[n] == old(memo)[n]
      decreases |g.deps.Keys| - |chain|
    {
      hide IsLayer, IsPath, HasCycle;
      if name in memo {
        return memo[name];
      }
      var deps := g.Deps(name);
      if |deps| == 0 {
        LeafLayer(g, name);
        memo := memo[name := 0];
        return 0;
      }
      var maxDepLayer := 0;
      var j := 0;
      while j < |deps|
        invariant 0 <= j <= |deps|
        invariant Valid() && MaxSoFar(g, deps, j, maxDepLayer)
        invariant j == 0 ==> maxDepLayer == 0
        invariant forall n :: n in old(memo) ==> n in memo && memo[n] == old(memo)[n]
      {
        LongerChain(g, chain, deps[j]);
        var l := AssignLayer(deps[j], chain + [deps[j]]);
        MaxStep(g, deps, j, maxDepLayer, l);
        maxDepLayer := if l > maxDepLayer then l else maxDepLayer;
        j := j + 1;
      }
      LayerAboveMax(g, name, maxDepLayer);
      layer := maxDepLayer + 1;
      if name in memo {
        LayerUnique(g, name, memo[name], layer);
      }
      memo := memo[name := layer];
    }
  }

  lemma LongerChain(g: Dag, chain: seq<string>, d: string)
    requires g.Closed() && !HasCycle(g) && IsPath(g, chain) && chain[0] in g.deps
    requires d in g.Deps(chain[|chain| - 1])
    ensures IsPath(g, chain + [d]) && |chain + [d]| <= |g.deps.Keys|
  {
    var q := chain + [d];
    ExtendPath(g, chain, d);
    AcyclicPathDistinct(g, q);
    forall x | x in q ensures x in g.deps {
      var k :| 0 <= k < |q| && q[k] == x;
      PathNodesInGraph(g, q, k);
    }
    DistinctFits(q, g.deps.Keys);
  }
}
