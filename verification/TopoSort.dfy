/** Kahn's algorithm with a queue that is re-sorted after every push. */
module TopoSort {
  import opened Names
  import opened DepGraph

  // ----- the specification: always place the least crate that is ready -----

  ghost predicate LeastReady(g: Dag, s: seq<string>, i: nat)
    requires i < |s|
  {
    Ready(g, s[i], s[..i]) && forall n :: Ready(g, n, s[..i]) ==> Leq(s[i], n)
  }

  ghost predicate Greedy(g: Dag, s: seq<string>) {
    forall i :: 0 <= i < |s| ==> LeastReady(g, s, i)
  }

  lemma GreedyIsLinear(g: Dag, s: seq<string>)
    requires Greedy(g, s)
    ensures Linear(g, s)
  {
    forall i | 0 <= i < |s| ensures Ready(g, s[i], s[..i]) {
      assert LeastReady(g, s, i);
    }
  }

  /** `s` and `q` agree up to position `k`, where `s` has the smaller name. */
  ghost predicate FirstDifferBelow(s: seq<string>, q: seq<string>, k: nat) {
    k < |s| && k < |q| && s[..k] == q[..k] && Less(s[k], q[k])
  }

  /** `s` comes before `q` in the lexicographic order of name lists, or `q` is its beginning. */
  ghost predicate LexLeast(s: seq<string>, q: seq<string>) {
    q <= s || exists k :: FirstDifferBelow(s, q, k)
  }

  lemma NotExhausted(g: Dag, s: seq<string>, q: seq<string>, k: nat)
    requires Maximal(g, s) && Linear(g, q) && k < |q| && k <= |s| && s[..k] == q[..k]
    ensures k < |s|
  {
    assert Ready(g, q[k], q[..k]);
    assert s[..|s|] == s;
  }

  /** The greedy order is lexicographically least among all dependency-first orders,
      whether or not they are complete. */
  lemma {:induction false} GreedyIsLexLeast(g: Dag, s: seq<string>, q: seq<string>, k: nat)
    requires Greedy(g, s) && Maximal(g, s) && Linear(g, q)
    requires k <= |q| && k <= |s| && s[..k] == q[..k]
    ensures LexLeast(s, q)
    decreases |q| - k
  {
    if k == |q| {
      assert q == q[..k] == s[..k];
    } else {
      hide Maximal, Leq;
      NotExhausted(g, s, q, k);
      assert LeastReady(g, s, k) && Ready(g, q[k], q[..k]);
      if s[k] == q[k] {
        hide Greedy, Linear, LexLeast, Ready, LeastReady;
        assert s[..k + 1] == s[..k] + [s[k]] == q[..k + 1];
        GreedyIsLexLeast(g, s, q, k + 1);
      } else {
        assert FirstDifferBelow(s, q, k);
      }
    }
  }

  /** The graphs have the same crates and the same dependencies, up to the order in which crates
      were added, the order of each list, and repeated entries. */
  ghost predicate SameDependencies(g: Dag, h: Dag) {
    && (forall n :: n in g.deps <==> n in h.deps)
    && (forall n, d :: d in g.Deps(n) <==> d in h.Deps(n))
  }

  lemma SameReady(g: Dag, h: Dag, n: string, done: seq<string>)
    requires SameDependencies(g, h) && Ready(g, n, done)
    ensures Ready(h, n, done)
  {
  }

  lemma {:induction false} GreedyPrefixUnique(g: Dag, h: Dag, s: seq<string>, t: seq<string>, k: nat)
    requires SameDependencies(g, h) && Greedy(g, s) && Greedy(h, t) && k <= |s| && k <= |t|
    ensures s[..k] == t[..k]
  {
    if k > 0 {
      var j := k - 1;
      GreedyPrefixUnique(g, h, s, t, j);
      assert LeastReady(g, s, j) && LeastReady(h, t, j);
      SameReady(g, h, s[j], s[..j]);
      SameReady(h, g, t[j], t[..j]);
      LeqAntisymmetric(s[j], t[j]);
      assert s[..k] == s[..j] + [s[j]] == t[..k];
    }
  }

  lemma NotLonger(g: Dag, h: Dag, s: seq<string>, t: seq<string>)
    requires SameDependencies(g, h) && Greedy(g, s) && Maximal(g, s) && Greedy(h, t)
    ensures |t| <= |s|
  {
    if |s| < |t| {
      GreedyPrefixUnique(g, h, s, t, |s|);
      assert s[..|s|] == s;
      assert LeastReady(h, t, |s|);
      SameReady(h, g, t[|s|], s);
    }
  }

  /** The publish order depends on the dependency relation alone. */
  lemma OrderUnique(g: Dag, h: Dag, s: seq<string>, t: seq<string>)
    requires SameDependencies(g, h)
    requires Greedy(g, s) && Maximal(g, s) && Greedy(h, t) && Maximal(h, t)
    ensures s == t
  {
    NotLonger(g, h, s, t);
    NotLonger(h, g, t, s);
    GreedyPrefixUnique(g, h, s, t, |s|);
    assert s[..|s|] == s && t[..|t|] == t;
  }

  /** The placed crates are exactly those without a dependency path into a cycle. */
  lemma PlacedExactly(g: Dag, s: seq<string>, n: string)
    requires g.Closed() && Linear(g, s) && Maximal(g, s) && n in g.deps
    ensures n in s <==> !ReachesCycle(g, n)
  {
    if n in s {
      PlacedReachesNoCycle(g, s, n);
    } else {
      UnplacedReachesCycle(g, s, [n]);
    }
  }

  /** Every crate is placed if and only if the graph has no cycle. */
  lemma AllPlacedIffAcyclic(g: Dag, s: seq<string>)
    requires g.Closed() && Linear(g, s) && Maximal(g, s)
    ensures (forall n :: n in g.deps ==> n in s) <==> !HasCycle(g)
  {
    if forall n :: n in g.deps ==> n in s {
      OrderOfAllIsAcyclic(g, s);
    } else {
      var n :| n in g.deps && n !in s;
      PlacedExactly(g, s, n);
      var p, c :| LeadsInto(g, n, p, c);
      assert IsCycle(g, c);
    }
  }

  // ----- counting the dependencies that are still missing -----

  /** How many entries of `deps` are not yet placed; a repeated entry counts each time. */
  ghost function Missing(deps: seq<string>, done: seq<string>): nat {
    if deps == [] then 0
    else (if deps[0] in done then 0 else 1) + Missing(deps[1..], done)
  }

  lemma {:induction false} MissingNone(deps: seq<string>, done: seq<string>)
    ensures Missing(deps, done) == 0 <==> forall d :: d in deps ==> d in done
  {
    if deps != [] {
      MissingNone(deps[1..], done);
      assert forall d :: d in deps <==> d == deps[0] || d in deps[1..];
    }
  }

  lemma {:induction false} MissingFresh(deps: seq<string>)
    ensures Missing(deps, []) == |deps|
  {
    if deps != [] { MissingFresh(deps[1..]); }
  }

  /** Placing `n` lowers the count by the number of times `n` is listed. */
  lemma {:induction false} MissingAfter(deps: seq<string>, done: seq<string>, n: string)
    requires n !in done
    ensures Missing(deps, done) == Missing(deps, done + [n]) + multiset(deps)[n]
  {
    if deps != [] {
      MissingAfter(deps[1..], done, n);
      assert deps == [deps[0]] + deps[1..];
      assert deps[0] in done + [n] <==> deps[0] in done || deps[0] == n;
    }
  }

  // ----- the reversed edges -----

  /** The dependents recorded for `d`. */
  function Recorded(reverseDag: map<string, seq<string>>, d: string): seq<string> {
    if d in reverseDag then reverseDag[d] else []
  }

  /** How often the first `i` crates and the first `j` entries of the next one list `d` for `n`. */
  ghost function Seen(g: Dag, i: nat, j: nat, n: string, d: string): nat
    requires i <= |g.keys| && (i < |g.keys| ==> j <= |g.Deps(g.keys[i])|)
  {
    if n in g.keys[..i] then multiset(g.Deps(n))[d]
    else if i < |g.keys| && n == g.keys[i] then multiset(g.Deps(n)[..j])[d]
    else 0
  }

  ghost predicate RecordedUpTo(g: Dag, reverseDag: map<string, seq<string>>, i: nat, j: nat)
    requires i <= |g.keys| && (i < |g.keys| ==> j <= |g.Deps(g.keys[i])|)
  {
    forall n, d :: multiset(Recorded(reverseDag, d))[n] == Seen(g, i, j, n, d)
  }

  /** Each crate is recorded as a dependent as often as it lists the dependency. */
  ghost predicate IsReverse(g: Dag, reverseDag: map<string, seq<string>>) {
    forall n, d :: multiset(Recorded(reverseDag, d))[n] == multiset(g.Deps(n))[d]
  }

  lemma SeenStep(g: Dag, i: nat, j: nat, n: string, d: string)
    requires g.WellFormed() && i < |g.keys| && j < |g.Deps(g.keys[i])|
    ensures
      var hit := n == g.keys[i] && d == g.Deps(g.keys[i])[j];
      Seen(g, i, j + 1, n, d) == Seen(g, i, j, n, d) + (if hit then 1 else 0)
  {
    var deps := g.Deps(g.keys[i]);
    assert g.keys[i] !in g.keys[..i];
    assert deps[..j + 1] == deps[..j] + [deps[j]];
  }

  lemma RecordedStep(reverseDag: map<string, seq<string>>, dep: string, node: string, n: string, d: string)
    ensures
      var after := reverseDag[dep := Recorded(reverseDag, dep) + [node]];
      multiset(Recorded(after, d))[n] == multiset(Recorded(reverseDag, d))[n] + (if n == node && d == dep then 1 else 0)
  {
  }

  lemma RecordOne(g: Dag, reverseDag: map<string, seq<string>>, i: nat, j: nat)
    requires g.WellFormed() && i < |g.keys| && j < |g.Deps(g.keys[i])| && RecordedUpTo(g, reverseDag, i, j)
    ensures
      var dep := g.Deps(g.keys[i])[j];
      RecordedUpTo(g, reverseDag[dep := Recorded(reverseDag, dep) + [g.keys[i]]], i, j + 1)
  {
    hide Seen, Recorded;
    var dep := g.Deps(g.keys[i])[j];
    var after := reverseDag[dep := Recorded(reverseDag, dep) + [g.keys[i]]];
    forall n, d ensures multiset(Recorded(after, d))[n] == Seen(g, i, j + 1, n, d) {
      SeenStep(g, i, j, n, d);
      RecordedStep(reverseDag, dep, g.keys[i], n, d);
    }
  }

  lemma SeenNext(g: Dag, i: nat, n: string, d: string)
    requires g.WellFormed() && i < |g.keys|
    ensures Seen(g, i + 1, 0, n, d) == Seen(g, i, |g.Deps(g.keys[i])|, n, d)
  {
    var node := g.keys[i];
    assert g.Deps(node)[..|g.Deps(node)|] == g.Deps(node);
    assert g.keys[..i + 1] == g.keys[..i] + [node];
    assert g.Deps(n)[..0] == [];
  }

  lemma RecordNext(g: Dag, reverseDag: map<string, seq<string>>, i: nat)
    requires g.WellFormed() && i < |g.keys|
    requires RecordedUpTo(g, reverseDag, i, |g.Deps(g.keys[i])|)
    ensures RecordedUpTo(g, reverseDag, i + 1, 0)
  {
    forall n, d { SeenNext(g, i, n, d); }
  }

  lemma RecordNone(g: Dag, reverseDag: map<string, seq<string>>)
    requires g.WellFormed() && forall d :: Recorded(reverseDag, d) == []
    ensures RecordedUpTo(g, reverseDag, 0, 0)
  {
    assert |g.keys| > 0 ==> g.Deps(g.keys[0])[..0] == [];
  }

  lemma RecordAll(g: Dag, reverseDag: map<string, seq<string>>)
    requires g.WellFormed() && RecordedUpTo(g, reverseDag, |g.keys|, 0)
    ensures IsReverse(g, reverseDag)
  {
    assert g.keys[..|g.keys|] == g.keys;
    forall n, d ensures multiset(Recorded(reverseDag, d))[n] == multiset(g.Deps(n))[d] {
      assert multiset(Recorded(reverseDag, d))[n] == Seen(g, |g.keys|, 0, n, d);
    }
  }

  /** Builds the reversed edges, keeping repeated entries. */
  method Reverse(g: Dag) returns (reverseDag: map<string, seq<string>>)
    requires g.WellFormed()
    ensures IsReverse(g, reverseDag)
  {
    hide RecordedUpTo, IsReverse;
    reverseDag := map n | n in g.deps :: [];
    RecordNone(g, reverseDag);
    var i := 0;
    while i < |g.keys|
      invariant 0 <= i <= |g.keys|
      invariant RecordedUpTo(g, reverseDag, i, 0)
    {
      var node := g.keys[i];
      var deps := g.Deps(node);
      var j := 0;
      while j < |deps|
        invariant 0 <= j <= |deps|
        invariant RecordedUpTo(g, reverseDag, i, j)
      {
        RecordOne(g, reverseDag, i, j);
        reverseDag := reverseDag[deps[j] := Recorded(reverseDag, deps[j]) + [node]];
        j := j + 1;
      }
      RecordNext(g, reverseDag, i);
      i := i + 1;
    }
    RecordAll(g, reverseDag);
  }

  // ----- the main loop -----

  ghost predicate Waiting(inDegree: map<string, int>, sorted: seq<string>, n: string) {
    n in inDegree && inDegree[n] == 0 && n !in sorted
  }

  ghost predicate DegreeMatches(g: Dag, inDegree: map<string, int>, sorted: seq<string>, rest: seq<string>, n: string) {
    n in inDegree ==> inDegree[n] == Missing(g.Deps(n), sorted) + multiset(rest)[n]
  }

  ghost predicate QueuedIffWaiting(inDegree: map<string, int>, queue: seq<string>, sorted: seq<string>, n: string) {
    multiset(queue)[n] == if Waiting(inDegree, sorted, n) then 1 else 0
  }

  ghost predicate Unplaced(g: Dag, sorted: seq<string>, rest: seq<string>) {
    forall n :: n in rest ==> n in g.deps && n !in sorted
  }

  /** The loop invariant. `rest` are the dependents of the crate placed last whose in-degree is
      still to be lowered, with repetitions. */
  ghost predicate Balanced(g: Dag, inDegree: map<string, int>, queue: seq<string>, sorted: seq<string>,
      rest: seq<string>) {
    && inDegree.Keys == g.deps.Keys
    && (forall n :: DegreeMatches(g, inDegree, sorted, rest, n))
    && (forall n :: QueuedIffWaiting(inDegree, queue, sorted, n))
    && Unplaced(g, sorted, rest)
    && Sorted(queue)
  }

  /** With no decrement pending, the queue holds exactly the crates that are ready. */
  lemma QueueIsReady(g: Dag, inDegree: map<string, int>, queue: seq<string>, sorted: seq<string>, n: string)
    requires g.Closed() && Balanced(g, inDegree, queue, sorted, [])
    ensures n in queue <==> Ready(g, n, sorted)
  {
    assert n in queue <==> multiset(queue)[n] > 0;
    assert QueuedIffWaiting(inDegree, queue, sorted, n) && DegreeMatches(g, inDegree, sorted, [], n);
    if n in g.deps {
      MissingNone(g.Deps(n), sorted);
    }
  }

  lemma HeadIsLeastReady(g: Dag, inDegree: map<string, int>, queue: seq<string>, sorted: seq<string>)
    requires g.Closed() && Balanced(g, inDegree, queue, sorted, []) && queue != []
    ensures Ready(g, queue[0], sorted)
    ensures forall n :: Ready(g, n, sorted) ==> Leq(queue[0], n)
  {
    QueueIsReady(g, inDegree, queue, sorted, queue[0]);
    forall n | Ready(g, n, sorted) ensures Leq(queue[0], n) {
      QueueIsReady(g, inDegree, queue, sorted, n);
      LeqReflexive(n);
    }
  }

  lemma GreedyExtend(g: Dag, s: seq<string>, n: string)
    requires Greedy(g, s) && Ready(g, n, s) && forall m :: Ready(g, m, s) ==> Leq(n, m)
    ensures Greedy(g, s + [n])
  {
    hide Ready, Leq;
    var t := s + [n];
    forall i | 0 <= i < |t| ensures LeastReady(g, t, i) {
      if i < |s| {
        assert LeastReady(g, s, i) && t[..i] == s[..i];
      } else {
        assert t[..i] == s;
      }
    }
  }

  /** A placed crate depends on placed crates only. */
  lemma PlacedDepends(g: Dag, sorted: seq<string>, n: string, d: string)
    requires Linear(g, sorted) && n in sorted && d in g.Deps(n) && d in g.deps
    ensures d in sorted
  {
    var i :| 0 <= i < |sorted| && sorted[i] == n;
    assert Ready(g, sorted[i], sorted[..i]);
  }

  lemma DependentsUnplaced(g: Dag, reverseDag: map<string, seq<string>>, sorted: seq<string>, node: string)
    requires IsReverse(g, reverseDag) && Linear(g, sorted) && Ready(g, node, sorted)
    ensures Unplaced(g, sorted + [node], Recorded(reverseDag, node))
  {
    var rest := Recorded(reverseDag, node);
    forall n | n in rest ensures n in g.deps && n !in sorted + [node] {
      assert n in multiset(rest);
      assert multiset(rest)[n] == multiset(g.Deps(n))[node];
      assert node in g.Deps(n);
      if n in sorted { PlacedDepends(g, sorted, n, node); }
    }
  }

  lemma PlaceHeadAt(g: Dag, reverseDag: map<string, seq<string>>, inDegree: map<string, int>,
      queue: seq<string>, sorted: seq<string>, n: string)
    requires IsReverse(g, reverseDag) && queue != [] && queue[0] !in sorted
    requires DegreeMatches(g, inDegree, sorted, [], n) && QueuedIffWaiting(inDegree, queue, sorted, n)
    ensures DegreeMatches(g, inDegree, sorted + [queue[0]], Recorded(reverseDag, queue[0]), n)
    ensures QueuedIffWaiting(inDegree, queue[1..], sorted + [queue[0]], n)
  {
    var node := queue[0];
    MissingAfter(g.Deps(n), sorted, node);
    assert multiset(Recorded(reverseDag, node))[n] == multiset(g.Deps(n))[node];
    assert queue == [node] + queue[1..];
    assert multiset(queue) == multiset{node} + multiset(queue[1..]);
  }

  /** Moving the head of the queue to the order leaves exactly its dependents to be updated. */
  lemma PlaceHead(g: Dag, reverseDag: map<string, seq<string>>, inDegree: map<string, int>, queue: seq<string>,
      sorted: seq<string>)
    requires IsReverse(g, reverseDag) && Linear(g, sorted) && queue != [] && Ready(g, queue[0], sorted)
    requires Balanced(g, inDegree, queue, sorted, [])
    ensures Balanced(g, inDegree, queue[1..], sorted + [queue[0]], Recorded(reverseDag, queue[0]))
  {
    hide DegreeMatches, QueuedIffWaiting, Unplaced, IsReverse, Linear;
    forall n { PlaceHeadAt(g, reverseDag, inDegree, queue, sorted, n); }
    DependentsUnplaced(g, reverseDag, sorted, queue[0]);
  }

  lemma LowerOneAt(g: Dag, inDegree: map<string, int>, queue: seq<string>, sorted: seq<string>,
      rest: seq<string>, m: string)
    requires rest != [] && rest[0] in inDegree && rest[0] !in sorted
    requires DegreeMatches(g, inDegree, sorted, rest, rest[0]) && DegreeMatches(g, inDegree, sorted, rest, m)
    requires QueuedIffWaiting(inDegree, queue, sorted, m)
    ensures
      var n := rest[0];
      var lowered := inDegree[n := inDegree[n] - 1];
      && DegreeMatches(g, lowered, sorted, rest[1..], m)
      && QueuedIffWaiting(lowered, if lowered[n] == 0 then Sort(queue + [n]) else queue, sorted, m)
  {
    var n := rest[0];
    assert rest == [n] + rest[1..];
    assert multiset(rest) == multiset{n} + multiset(rest[1..]);
    assert multiset(Sort(queue + [n])) == multiset(queue) + multiset{n};
  }

  lemma UnplacedHead(g: Dag, sorted: seq<string>, rest: seq<string>)
    requires Unplaced(g, sorted, rest) && rest != []
    ensures rest[0] in g.deps && rest[0] !in sorted && Unplaced(g, sorted, rest[1..])
  {
  }

  /** One decrement; a crate whose last missing dependency this was joins the queue. */
  lemma LowerOne(g: Dag, inDegree: map<string, int>, queue: seq<string>, sorted: seq<string>, rest: seq<string>)
    requires Balanced(g, inDegree, queue, sorted, rest) && rest != []
    ensures
      var n := rest[0];
      && n in inDegree
      && var lowered := inDegree[n := inDegree[n] - 1];
         Balanced(g, lowered, if lowered[n] == 0 then Sort(queue + [n]) else queue, sorted, rest[1..])
  {
    hide DegreeMatches, QueuedIffWaiting, Unplaced, Sorted;
    var n := rest[0];
    UnplacedHead(g, sorted, rest);
    SortIsSorted(queue + [n]);
    assert DegreeMatches(g, inDegree, sorted, rest, n);
    var lowered := inDegree[n := inDegree[n] - 1];
    var next := if lowered[n] == 0 then Sort(queue + [n]) else queue;
    forall m ensures DegreeMatches(g, lowered, sorted, rest[1..], m) && QueuedIffWaiting(lowered, next, sorted, m) {
      LowerOneAt(g, inDegree, queue, sorted, rest, m);
    }
  }

  lemma StartBalanced(g: Dag, inDegree: map<string, int>, queue: seq<string>)
    requires inDegree.Keys == g.deps.Keys && Sorted(queue)
    requires forall n :: n in inDegree ==> inDegree[n] == |g.Deps(n)|
    requires forall n :: QueuedIffWaiting(inDegree, queue, [], n)
    ensures Balanced(g, inDegree, queue, [], [])
  {
    forall n ensures DegreeMatches(g, inDegree, [], [], n) {
      MissingFresh(g.Deps(n));
    }
  }

  /** `n` is among the first `i` crates and has no dependencies. */
  ghost predicate EarlyRoot(g: Dag, inDegree: map<string, int>, i: nat, n: string)
    requires i <= |g.keys|
  {
    n in g.keys[..i] && n in inDegree && inDegree[n] == 0
  }

  ghost predicate HoldsRoots(g: Dag, inDegree: map<string, int>, i: nat, queue: seq<string>)
    requires i <= |g.keys|
  {
    forall n :: multiset(queue)[n] == if EarlyRoot(g, inDegree, i, n) then 1 else 0
  }

  lemma NoRootsYet(g: Dag, inDegree: map<string, int>)
    ensures HoldsRoots(g, inDegree, 0, [])
  {
  }

  lemma NextRoot(g: Dag, inDegree: map<string, int>, i: nat, queue: seq<string>)
    requires g.WellFormed() && inDegree.Keys == g.deps.Keys && i < |g.keys|
    requires HoldsRoots(g, inDegree, i, queue)
    ensures g.keys[i] in inDegree
    ensures HoldsRoots(g, inDegree, i + 1, if inDegree[g.keys[i]] == 0 then queue + [g.keys[i]] else queue)
  {
    var node := g.keys[i];
    assert node !in g.keys[..i] && g.keys[..i + 1] == g.keys[..i] + [node];
    var next := if inDegree[node] == 0 then queue + [node] else queue;
    forall n ensures multiset(next)[n] == if EarlyRoot(g, inDegree, i + 1, n) then 1 else 0 {
      assert multiset(queue)[n] == if EarlyRoot(g, inDegree, i, n) then 1 else 0;
    }
  }

  lemma RootsAreWaiting(g: Dag, inDegree: map<string, int>, queue: seq<string>)
    requires g.WellFormed() && inDegree.Keys == g.deps.Keys
    requires HoldsRoots(g, inDegree, |g.keys|, queue)
    ensures forall n :: QueuedIffWaiting(inDegree, Sort(queue), [], n)
  {
    assert g.keys[..|g.keys|] == g.keys;
    forall n ensures QueuedIffWaiting(inDegree, Sort(queue), [], n) {
      assert multiset(Sort(queue)) == multiset(queue);
      assert multiset(queue)[n] == if EarlyRoot(g, inDegree, |g.keys|, n) then 1 else 0;
    }
  }

  /** The crates without dependencies, in the order in which they were added, sorted. */
  method InitialQueue(g: Dag, inDegree: map<string, int>) returns (queue: seq<string>)
    requires g.WellFormed() && inDegree.Keys == g.deps.Keys
    requires forall n :: n in inDegree ==> inDegree[n] == |g.Deps(n)|
    ensures Balanced(g, inDegree, queue, [], [])
  {
    hide HoldsRoots, Balanced;
    queue := [];
    NoRootsYet(g, inDegree);
    var i := 0;
    while i < |g.keys|
      invariant 0 <= i <= |g.keys|
      invariant HoldsRoots(g, inDegree, i, queue)
    {
      var node := g.keys[i];
      NextRoot(g, inDegree, i, queue);
      if inDegree[node] == 0 { queue := queue + [node]; }
      i := i + 1;
    }
    RootsAreWaiting(g, inDegree, queue);
    SortIsSorted(queue);
    queue := Sort(queue);
    StartBalanced(g, inDegree, queue);
  }

  /** Kahn's algorithm: always places the least crate that is ready, until none is. */
  method TopologicalSort(g: Dag) returns (sorted: seq<string>)
    requires g.WellFormed() && g.Closed()
    ensures Greedy(g, sorted) && Maximal(g, sorted)
    ensures Linear(g, sorted)
    ensures forall q :: Linear(g, q) ==> LexLeast(sorted, q)
    ensures forall n :: n in g.deps ==> (n in sorted <==> !ReachesCycle(g, n))
  {
    hide Balanced, Linear, IsReverse, ReachesCycle, LexLeast, Maximal, Greedy;
    var inDegree: map<string, int> := map n | n in g.deps :: |g.Deps(n)|;
    var reverseDag := Reverse(g);
    var queue := InitialQueue(g, inDegree);
    sorted := [];
    NothingPlaced(g);
    while |queue| > 0
      invariant Balanced(g, inDegree, queue, sorted, [])
      invariant Greedy(g, sorted) && |sorted| <= |g.deps.Keys|
      decreases |g.deps.Keys| - |sorted|
    {
      var node := queue[0];
      GreedyIsLinear(g, sorted);
      HeadIsLeastReady(g, inDegree, queue, sorted);
      PlaceHead(g, reverseDag, inDegree, queue, sorted);
      GreedyExtend(g, sorted, node);
      queue := queue[1..];
      sorted := sorted + [node];
      OrderFits(g, sorted);

      var dependents := Recorded(reverseDag, node);
      var k := 0;
      while k < |dependents|
        invariant 0 <= k <= |dependents|
        invariant Balanced(g, inDegree, queue, sorted, dependents[k..])
      {
        var dependent := dependents[k];
        LowerOne(g, inDegree, queue, sorted, dependents[k..]);
        inDegree := inDegree[dependent := inDegree[dependent] - 1];
        if inDegree[dependent] == 0 {
          queue := Sort(queue + [dependent]);
        }
        k := k + 1;
      }
      assert dependents[k..] == [];
    }
    EmptyQueueIsMaximal(g, inDegree, queue, sorted);
    GreedyOrderMeans(g, sorted);
  }

  lemma EmptyQueueIsMaximal(g: Dag, inDegree: map<string, int>, queue: seq<string>, sorted: seq<string>)
    requires g.Closed() && Balanced(g, inDegree, queue, sorted, []) && queue == []
    ensures Maximal(g, sorted)
  {
    hide Balanced;
    forall n ensures !Ready(g, n, sorted) {
      QueueIsReady(g, inDegree, queue, sorted, n);
    }
  }

  lemma GreedyOrderMeans(g: Dag, s: seq<string>)
    requires g.Closed() && Greedy(g, s) && Maximal(g, s)
    ensures Linear(g, s)
    ensures forall q :: Linear(g, q) ==> LexLeast(s, q)
    ensures forall n :: n in g.deps ==> (n in s <==> !ReachesCycle(g, n))
  {
    hide Maximal, ReachesCycle, LexLeast, Linear;
    GreedyIsLinear(g, s);
    forall q | Linear(g, q) ensures LexLeast(s, q) {
      GreedyIsLexLeast(g, s, q, 0);
    }
    forall n | n in g.deps ensures n in s <==> !ReachesCycle(g, n) {
      PlacedExactly(g, s, n);
    }
  }

  lemma NothingPlaced(g: Dag)
    ensures Greedy(g, [])
  {
  }

  lemma OrderFits(g: Dag, s: seq<string>)
    requires Greedy(g, s)
    ensures |s| <= |g.deps.Keys|
  {
    GreedyIsLinear(g, s);
    LinearDistinct(g, s);
    DistinctFits(s, g.deps.Keys);
  }
}
