/** Directed graphs over names, such as the dependency multigraph of the release planner: paths and cycles. */
module DepGraph {
  import opened Names

  /** The planner's Map from a crate to the list of the crates it depends on.
      `keys` is the Map's insertion order; a dependency may be listed more than once. */
  datatype Dag = Dag(keys: seq<string>, deps: map<string, seq<string>>) {
    ghost predicate WellFormed() {
      && Distinct(keys)
      && (forall n :: n in keys <==> n in deps)
    }

    /** Every dependency listed in the graph is itself a node. */
    ghost predicate Closed() {
      forall n, d :: n in deps && d in deps[n] ==> d in deps
    }

    /** The dependencies of `n`, none for a name that is not in the Map. */
    function Deps(n: string): seq<string> {
      if n in deps then deps[n] else []
    }
  }

  ghost predicate Linked(g: Dag, p: seq<string>, i: int)
    requires 0 <= i < |p| - 1
  {
    p[i + 1] in g.Deps(p[i])
  }

  /** A nonempty chain in which every crate depends on the next one. */
  ghost predicate IsPath(g: Dag, p: seq<string>) {
    |p| > 0 && forall i :: 0 <= i < |p| - 1 ==> Linked(g, p, i)
  }

  ghost predicate IsCycle(g: Dag, p: seq<string>) {
    IsPath(g, p) && |p| >= 2 && p[0] == p[|p| - 1]
  }

  ghost predicate HasCycle(g: Dag) {
    exists p :: IsCycle(g, p)
  }

  /** Path `p` leads from `n` to the node on which cycle `c` starts. */
  ghost predicate LeadsInto(g: Dag, n: string, p: seq<string>, c: seq<string>) {
    IsPath(g, p) && IsCycle(g, c) && p[0] == n && p[|p| - 1] == c[0]
  }

  ghost predicate ReachesCycle(g: Dag, n: string) {
    exists p, c :: LeadsInto(g, n, p, c)
  }

  lemma SubPath(g: Dag, p: seq<string>, lo: int, hi: int)
    requires IsPath(g, p) && 0 <= lo < hi <= |p|
    ensures IsPath(g, p[lo..hi])
  {
    var q := p[lo..hi];
    forall i | 0 <= i < |q| - 1 ensures Linked(g, q, i) {
      assert Linked(g, p, lo + i);
    }
  }

  lemma ExtendPath(g: Dag, p: seq<string>, d: string)
    requires p != [] ==> IsPath(g, p) && d in g.Deps(p[|p| - 1])
    ensures IsPath(g, p + [d])
  {
    var q := p + [d];
    forall i | 0 <= i < |q| - 1 ensures Linked(g, q, i) {
      if i < |p| - 1 { assert Linked(g, p, i); }
    }
  }

  lemma PrependPath(g: Dag, d: string, p: seq<string>)
    requires IsPath(g, p) && p[0] in g.Deps(d)
    ensures IsPath(g, [d] + p)
  {
    var q := [d] + p;
    forall i | 0 <= i < |q| - 1 ensures Linked(g, q, i) {
      if i > 0 { assert Linked(g, p, i - 1); }
    }
  }

  /** A path that visits a node twice contains a cycle, and so leads into one. */
  lemma RepeatMakesCycle(g: Dag, p: seq<string>, i: int, j: int)
    requires IsPath(g, p) && 0 <= i < j < |p| && p[i] == p[j]
    ensures IsCycle(g, p[i..j + 1])
    ensures ReachesCycle(g, p[0])
  {
    SubPath(g, p, i, j + 1);
    SubPath(g, p, 0, i + 1);
    assert LeadsInto(g, p[0], p[0..i + 1], p[i..j + 1]);
  }

  /** On a path of an acyclic graph no node repeats. */
  lemma AcyclicPathDistinct(g: Dag, p: seq<string>)
    requires IsPath(g, p) && !HasCycle(g)
    ensures Distinct(p)
  {
    forall i, j | 0 <= i < j < |p| ensures p[i] != p[j] {
      if p[i] == p[j] { RepeatMakesCycle(g, p, i, j); }
    }
  }

  lemma PathNodesInGraph(g: Dag, p: seq<string>, k: int)
    requires g.Closed() && IsPath(g, p) && p[0] in g.deps && 0 <= k < |p|
    ensures p[k] in g.deps
  {
    if k > 0 {
      PathNodesInGraph(g, p, k - 1);
      assert Linked(g, p, k - 1);
    }
  }

  // ----- orders in which dependencies come first -----

  /** Every dependency of `n` that is a crate of the graph is among `done`. */
  ghost predicate DepsDone(g: Dag, n: string, done: seq<string>) {
    forall d :: d in g.Deps(n) && d in g.deps ==> d in done
  }

  /** `n` is a crate that is not yet placed and whose dependencies all are. */
  ghost predicate Ready(g: Dag, n: string, done: seq<string>) {
    n in g.deps && n !in done && DepsDone(g, n, done)
  }

  /** A dependency-first order of some of the crates: each is placed once, after all its dependencies. */
  ghost predicate Linear(g: Dag, s: seq<string>) {
    forall i :: 0 <= i < |s| ==> Ready(g, s[i], s[..i])
  }

  /** No further crate can be placed after `s`. */
  ghost predicate Maximal(g: Dag, s: seq<string>) {
    forall n :: !Ready(g, n, s)
  }

  lemma LinearDistinct(g: Dag, s: seq<string>)
    requires Linear(g, s)
    ensures Distinct(s)
    ensures forall n :: n in s ==> n in g.deps
  {
    forall i, j | 0 <= i < j < |s| ensures s[i] != s[j] {
      assert Ready(g, s[j], s[..j]);
      assert s[i] in s[..j];
    }
  }

  lemma LinearExtend(g: Dag, s: seq<string>, n: string)
    requires Linear(g, s) && Ready(g, n, s)
    ensures Linear(g, s + [n])
  {
    var t := s + [n];
    forall i | 0 <= i < |t| ensures Ready(g, t[i], t[..i]) {
      if i < |s| {
        assert t[..i] == s[..i];
      } else {
        assert t[..i] == s;
      }
    }
  }

  /** The dependency of a placed crate is placed strictly earlier. */
  lemma StepDescends(g: Dag, s: seq<string>, m: nat, a: string, b: string)
    requires Linear(g, s) && m <= |s| && a in s[..m] && b in g.Deps(a) && b in g.deps
    ensures m >= 1 && b in s[..m - 1]
  {
    var j :| 0 <= j < m && s[j] == a;
    assert Ready(g, s[j], s[..j]);
    assert b in s[..j];
    var k :| 0 <= k < j && s[k] == b;
    assert s[..m - 1][k] == b;
  }

  /** Along a path the position in a dependency-first order drops at every step. */
  lemma {:induction false} PathDescends(g: Dag, s: seq<string>, m: nat, p: seq<string>, k: nat)
    requires Linear(g, s) && m <= |s| && IsPath(g, p) && p[0] in s[..m] && k < |p|
    requires forall i :: 0 <= i < |p| ==> p[i] in g.deps
    ensures k < m && p[k] in s[..m - k]
    decreases k
  {
    hide Linear;
    if k > 0 {
      PathDescends(g, s, m, p, k - 1);
      assert Linked(g, p, k - 1);
      StepDescends(g, s, m - (k - 1), p[k - 1], p[k]);
    }
  }

  lemma CycleNodesInGraph(g: Dag, c: seq<string>, i: nat)
    requires IsCycle(g, c) && i < |c|
    ensures c[i] in g.deps
  {
    assert Linked(g, c, if i == |c| - 1 then 0 else i);
  }

  lemma CycleInGraph(g: Dag, c: seq<string>)
    requires IsCycle(g, c)
    ensures forall i :: 0 <= i < |c| ==> c[i] in g.deps
  {
    forall i | 0 <= i < |c| ensures c[i] in g.deps {
      CycleNodesInGraph(g, c, i);
    }
  }

  /** No cycle passes through a crate of a dependency-first order. */
  lemma {:induction false} NoCycleThrough(g: Dag, s: seq<string>, m: nat, c: seq<string>)
    requires Linear(g, s) && m <= |s| && IsCycle(g, c) && c[0] in s[..m]
    ensures false
    decreases m
  {
    CycleInGraph(g, c);
    var k := |c| - 1;
    PathDescends(g, s, m, c, k);
    NoCycleThrough(g, s, m - k, c);
  }

  /** A dependency-first order of every crate proves the graph acyclic. */
  lemma OrderOfAllIsAcyclic(g: Dag, s: seq<string>)
    requires Linear(g, s)
    requires forall n :: n in g.deps ==> n in s
    ensures !HasCycle(g)
  {
    if HasCycle(g) {
      var c :| IsCycle(g, c);
      CycleNodesInGraph(g, c, 0);
      assert s[..|s|] == s;
      NoCycleThrough(g, s, |s|, c);
    }
  }

  /** No crate of a dependency-first order has a dependency path into a cycle. */
  lemma PlacedReachesNoCycle(g: Dag, s: seq<string>, n: string)
    requires g.Closed() && Linear(g, s) && n in s
    ensures !ReachesCycle(g, n)
  {
    hide Linear;
    if ReachesCycle(g, n) {
      var p, c :| LeadsInto(g, n, p, c);
      LinearDistinct(g, s);
      forall k | 0 <= k < |p| ensures p[k] in g.deps {
        PathNodesInGraph(g, p, k);
      }
      assert s[..|s|] == s;
      PathDescends(g, s, |s|, p, |p| - 1);
      NoCycleThrough(g, s, |s| - (|p| - 1), c);
    }
  }

  /** Where nothing more can be placed, every unplaced crate has a path into a cycle: walk along
      unplaced dependencies until one repeats. */
  lemma {:induction false} UnplacedReachesCycle(g: Dag, s: seq<string>, p: seq<string>)
    requires g.Closed() && Maximal(g, s) && IsPath(g, p) && Distinct(p)
    requires forall x :: x in p ==> x in g.deps && x !in s
    ensures ReachesCycle(g, p[0])
    decreases |g.deps.Keys| - |p|
  {
    var last := p[|p| - 1];
    assert last in p && !Ready(g, last, s);
    var d :| d in g.Deps(last) && d in g.deps && d !in s;
    var q := p + [d];
    ExtendPath(g, p, d);
    if d in p {
      var i :| 0 <= i < |p| && p[i] == d;
      RepeatMakesCycle(g, q, i, |p|);
      assert q[0] == p[0];
    } else {
      DistinctFits(q, g.deps.Keys);
      UnplacedReachesCycle(g, s, q);
    }
  }
}
