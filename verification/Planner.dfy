/** From crate manifests to a checked publish order. */
module Planner {
  import opened Names
  import opened DepGraph
  import opened CycleFinder
  import opened TopoSort
  import opened Layers

  /** A workspace member. `deps` are the names found in its dependency and dev-dependency sections,
      in that order, so that a crate listed in both appears twice. */
  datatype Crate = Crate(exists_: bool, publish: bool, packageName: string, member: string, deps: seq<string>) {
    predicate Published() { exists_ && publish }

    function Name(): (r: string)
      ensures packageName != "" ==> r == packageName
      ensures packageName == "" ==> r == member
    {
      if packageName != "" then packageName else member
    }
  }

  // ----- the dependency graph of a workspace -----

  /** The published names in order of first appearance. */
  function NodeNames(crates: seq<Crate>): seq<string> {
    if crates == [] then [] else
      var c := crates[|crates| - 1];
      var names := NodeNames(crates[..|crates| - 1]);
      if c.Published() && c.Name() !in names then names + [c.Name()] else names
  }

  function KnownOnly(deps: seq<string>, names: seq<string>): seq<string> {
    if deps == [] then [] else
      var d := deps[|deps| - 1];
      KnownOnly(deps[..|deps| - 1], names) + if d in names then [d] else []
  }

  /** All the known dependencies declared under the name `n`. */
  function DeclaredDeps(crates: seq<Crate>, names: seq<string>, n: string): seq<string> {
    if crates == [] then [] else
      var c := crates[|crates| - 1];
      DeclaredDeps(crates[..|crates| - 1], names, n)
      + if c.Published() && c.Name() == n then KnownOnly(c.deps, names) else []
  }

  function DagOf(crates: seq<Crate>): Dag {
    var names := NodeNames(crates);
    Dag(names, map n | n in names :: DeclaredDeps(crates, names, n))
  }

  lemma {:induction false} NodeNamesAre(crates: seq<Crate>, n: string)
    ensures Distinct(NodeNames(crates))
    ensures n in NodeNames(crates) <==> exists c :: c in crates && c.Published() && c.Name() == n
  {
    if crates != [] {
      var c := crates[|crates| - 1];
      var init := crates[..|crates| - 1];
      NodeNamesAre(init, n);
      assert crates == init + [c];
      assert forall x :: x in crates <==> x in init || x == c;
    }
  }

  lemma {:induction false} KnownOnlyAre(deps: seq<string>, names: seq<string>, d: string)
    ensures d in KnownOnly(deps, names) <==> d in deps && d in names
  {
    if deps != [] {
      var init := deps[..|deps| - 1];
      KnownOnlyAre(init, names, d);
      assert deps == init + [deps[|deps| - 1]];
    }
  }

  ghost predicate Declares(c: Crate, n: string, d: string) {
    c.Published() && c.Name() == n && d in c.deps
  }

  /** Some member of `crates` declares that `n` depends on `d`. */
  ghost predicate Declared(crates: seq<Crate>, n: string, d: string) {
    exists i :: 0 <= i < |crates| && Declares(crates[i], n, d)
  }

  lemma DeclaredByLast(crates: seq<Crate>, n: string, d: string)
    requires crates != []
    ensures
      var k := |crates| - 1;
      Declared(crates, n, d) <==> Declared(crates[..k], n, d) || Declares(crates[k], n, d)
  {
    var k := |crates| - 1;
    if Declared(crates[..k], n, d) {
      var i :| 0 <= i < k && Declares(crates[..k][i], n, d);
      assert Declares(crates[i], n, d);
    }
    if Declared(crates, n, d) && !Declares(crates[k], n, d) {
      var i :| 0 <= i < |crates| && Declares(crates[i], n, d);
      assert Declares(crates[..k][i], n, d);
    }
  }

  lemma {:induction false} DeclaredDepsAre(crates: seq<Crate>, names: seq<string>, n: string, d: string)
    ensures d in DeclaredDeps(crates, names, n) <==> d in names && Declared(crates, n, d)
  {
    if crates != [] {
      DeclaredDepsAre(crates[..|crates| - 1], names, n, d);
      KnownOnlyAre(crates[|crates| - 1].deps, names, d);
      DeclaredByLast(crates, n, d);
    }
  }

  /** Crate `c` exists, is to be published, and goes by the name `n`: its package name, if it has one. */
  ghost predicate Publishes(c: Crate, n: string) {
    c.exists_ && c.publish && (c.packageName == n != "" || (c.packageName == "" && c.member == n))
  }

  /** The graph has a node for every published crate and an edge for every dependency between
      published crates, and for nothing else. */
  lemma DagMeaning(crates: seq<Crate>, n: string, d: string)
    ensures n in DagOf(crates).deps <==> exists c :: c in crates && Publishes(c, n)
    ensures d in DagOf(crates).Deps(n) <==>
            && (exists c :: c in crates && Publishes(c, n) && d in c.deps)
            && (exists c :: c in crates && Publishes(c, d))
  {
    DagHolds(crates, n, d);
    hide DagOf;
    forall c: Crate, m: string ensures Publishes(c, m) <==> c.Published() && c.Name() == m { }
    if c :| c in crates && Publishes(c, n) && d in c.deps {
      var i :| 0 <= i < |crates| && crates[i] == c;
      assert Declares(crates[i], n, d);
    }
  }

  lemma DagHolds(crates: seq<Crate>, n: string, d: string)
    ensures n in DagOf(crates).deps <==> exists c :: c in crates && c.Published() && c.Name() == n
    ensures d in DagOf(crates).deps <==> exists c :: c in crates && c.Published() && c.Name() == d
    ensures d in DagOf(crates).Deps(n) <==>
            d in DagOf(crates).deps && Declared(crates, n, d)
  {
    var names := NodeNames(crates);
    NodeNamesAre(crates, n);
    NodeNamesAre(crates, d);
    DeclaredDepsAre(crates, names, n, d);
  }

  /** How often the crates published under the name `n` list `d` as a dependency. */
  ghost function TimesDeclared(crates: seq<Crate>, n: string, d: string): nat {
    if crates == [] then 0 else
      TimesDeclared(crates[1..], n, d) + if Publishes(crates[0], n) then multiset(crates[0].deps)[d] else 0
  }

  lemma {:induction false} TimesDeclaredLast(crates: seq<Crate>, n: string, d: string)
    requires crates != []
    ensures
      var k := |crates| - 1;
      TimesDeclared(crates, n, d) ==
      TimesDeclared(crates[..k], n, d) + if Publishes(crates[k], n) then multiset(crates[k].deps)[d] else 0
  {
    hide Publishes;
    if |crates| > 1 {
      TimesDeclaredLast(crates[1..], n, d);
      assert crates[1..][..|crates| - 2] == crates[..|crates| - 1][1..];
    }
  }

  lemma {:induction false} KnownOnlyCounts(deps: seq<string>, names: seq<string>, d: string)
    requires d in names
    ensures multiset(KnownOnly(deps, names))[d] == multiset(deps)[d]
  {
    if deps != [] {
      KnownOnlyCounts(deps[..|deps| - 1], names, d);
      assert deps == deps[..|deps| - 1] + [deps[|deps| - 1]];
    }
  }

  lemma {:induction false} DeclaredDepsCounts(crates: seq<Crate>, names: seq<string>, n: string, d: string)
    requires d in names
    ensures multiset(DeclaredDeps(crates, names, n))[d] == TimesDeclared(crates, n, d)
  {
    if crates != [] {
      var c := crates[|crates| - 1];
      DeclaredDepsCounts(crates[..|crates| - 1], names, n, d);
      KnownOnlyCounts(c.deps, names, d);
      TimesDeclaredLast(crates, n, d);
      hide KnownOnly;
    }
  }

  /** A dependency that is listed twice, as in two sections of a manifest, gives two edges. */
  lemma DagMultiplicity(crates: seq<Crate>, n: string, d: string)
    requires exists c :: c in crates && Publishes(c, n)
    requires exists c :: c in crates && Publishes(c, d)
    ensures multiset(DagOf(crates).Deps(n))[d] == TimesDeclared(crates, n, d)
  {
    var names := NodeNames(crates);
    DagMeaning(crates, n, d);
    DagMeaning(crates, d, d);
    assert n in names && d in names;
    DeclaredDepsCounts(crates, names, n, d);
  }

  lemma DagIsClosed(crates: seq<Crate>)
    ensures DagOf(crates).WellFormed() && DagOf(crates).Closed()
  {
    NodeNamesAre(crates, "");
    var g := DagOf(crates);
    forall n, d | n in g.deps && d in g.deps[n] ensures d in g.deps {
      DeclaredDepsAre(crates, NodeNames(crates), n, d);
    }
  }

  function EdgesUpTo(crates: seq<Crate>, i: nat, keys: seq<string>): map<string, seq<string>>
    requires i <= |crates|
  {
    map n | n in keys :: DeclaredDeps(crates[..i], keys, n)
  }

  lemma NextCrateEdges(crates: seq<Crate>, i: nat, keys: seq<string>)
    requires i < |crates| && (crates[i].Published() ==> crates[i].Name() in keys)
    ensures
      var c, before := crates[i], EdgesUpTo(crates, i, keys);
      EdgesUpTo(crates, i + 1, keys)
      == if c.Published() then before[c.Name() := before[c.Name()] + KnownOnly(c.deps, keys)] else before
  {
    assert crates[..i + 1][..i] == crates[..i];
    forall n | n in keys && !(crates[i].Published() && crates[i].Name() == n)
      ensures DeclaredDeps(crates[..i + 1], keys, n) == DeclaredDeps(crates[..i], keys, n)
    {
      assert DeclaredDeps(crates[..i], keys, n) + [] == DeclaredDeps(crates[..i], keys, n);
    }
  }

  lemma KnownOnlyNext(deps: seq<string>, j: nat, names: seq<string>)
    requires j < |deps|
    ensures KnownOnly(deps[..j + 1], names) == KnownOnly(deps[..j], names) + if deps[j] in names then [deps[j]] else []
  {
    assert deps[..j + 1][..j] == deps[..j];
  }

  lemma KnownOnlyStart(deps: seq<string>, names: seq<string>, s: seq<string>)
    ensures s + KnownOnly(deps[..0], names) == s
  {
  }

  /** First pass: every published crate becomes a node without edges. */
  method AddNodes(crates: seq<Crate>) returns (keys: seq<string>, deps: map<string, seq<string>>)
    ensures keys == NodeNames(crates) && deps == EdgesUpTo(crates, 0, keys)
  {
    keys, deps := [], map[];
    var i := 0;
    while i < |crates|
      invariant 0 <= i <= |crates|
      invariant keys == NodeNames(crates[..i])
      invariant forall n :: n in keys <==> n in deps
      invariant forall n :: n in deps ==> deps[n] == []
    {
      assert crates[..i + 1][..i] == crates[..i];
      var c := crates[i];
      if c.Published() {
        var name := c.Name();
        if name !in deps { keys := keys + [name]; }
        deps := deps[name := []];
      }
      i := i + 1;
    }
    assert crates[..i] == crates;
  }

  /** Fills the Map in two passes: first the nodes, then the edges between known nodes. */
  method BuildDag(crates: seq<Crate>) returns (g: Dag)
    ensures g == DagOf(crates) && g.WellFormed() && g.Closed()
  {
    hide NodeNames, KnownOnly, DeclaredDeps;
    var keys, deps := AddNodes(crates);
    var i := 0;
    while i < |crates|
      invariant 0 <= i <= |crates|
      invariant deps == EdgesUpTo(crates, i, keys)
    {
      var c := crates[i];
      if c.Published() { NodeNamesAre(crates, c.Name()); }
      NextCrateEdges(crates, i, keys);
      if c.Published() {
        var name := c.Name();
        ghost var before := deps;
        var j := 0;
        KnownOnlyStart(c.deps, keys, before[name]);
        while j < |c.deps|
          invariant 0 <= j <= |c.deps|
          invariant name in deps && deps == before[name := deps[name]]
          invariant deps[name] == before[name] + KnownOnly(c.deps[..j], keys)
        {
          KnownOnlyNext(c.deps, j, keys);
          if c.deps[j] in keys {
            deps := deps[name := deps[name] + [c.deps[j]]];
          }
          j := j + 1;
        }
        assert c.deps[..j] == c.deps;
      }
      i := i + 1;
    }
    assert crates[..i] == crates;
    g := Dag(keys, deps);
    DagIsClosed(crates);
  }

  // ----- the publish order -----

  datatype Entry = Entry(crate: string, layer: nat, dependencies: seq<string>, publishOrder: nat)

  /** Entry `e` is for the `i`-th crate: its name, its position and its dependencies. */
  ghost predicate Describes(g: Dag, sorted: seq<string>, i: nat, e: Entry)
    requires i < |sorted|
  {
    e.crate == sorted[i] && e.publishOrder == i + 1 && e.dependencies == g.Deps(sorted[i])
  }

  ghost predicate IsEntry(g: Dag, sorted: seq<string>, i: nat, e: Entry)
    requires i < |sorted|
  {
    Describes(g, sorted, i, e) && IsLayer(g, sorted[i], e.layer)
  }

  /** The entries are for the crates of `sorted`, in that order. */
  ghost predicate DescribeAll(g: Dag, sorted: seq<string>, entries: seq<Entry>) {
    |entries| == |sorted| && forall i :: 0 <= i < |sorted| ==> Describes(g, sorted, i, entries[i])
  }

  lemma EntriesDescribe(g: Dag, sorted: seq<string>, entries: seq<Entry>)
    requires AreEntries(g, sorted, entries)
    ensures DescribeAll(g, sorted, entries)
  {
    forall i | 0 <= i < |sorted| ensures Describes(g, sorted, i, entries[i]) {
      assert IsEntry(g, sorted, i, entries[i]);
    }
  }

  /** The entries describe the crates of `sorted`, in that order. */
  ghost predicate AreEntries(g: Dag, sorted: seq<string>, entries: seq<Entry>) {
    |entries| == |sorted| && forall i :: 0 <= i < |sorted| ==> IsEntry(g, sorted, i, entries[i])
  }

  method GeneratePublishOrder(sorted: seq<string>, g: Dag) returns (entries: seq<Entry>)
    requires g.Closed() && !HasCycle(g)
    requires forall n :: n in sorted ==> n in g.deps
    ensures AreEntries(g, sorted, entries)
  {
    hide IsLayer, HasCycle;
    var layers := new LayerMemo(g);
    entries := [];
    var i := 0;
    while i < |sorted|
      invariant 0 <= i <= |sorted| && |entries| == i
      invariant layers.Valid() && layers.g == g && fresh(layers)
      invariant forall k :: 0 <= k < i ==> IsEntry(g, sorted, k, entries[k])
    {
      var layer := layers.AssignLayer(sorted[i], [sorted[i]]);
      entries := entries + [Entry(sorted[i], layer, g.Deps(sorted[i]), i + 1)];
      i := i + 1;
    }
  }

  /** The position recorded for each crate; a later entry for the same crate wins. */
  function OrderMap(entries: seq<Entry>): map<string, nat> {
    if entries == [] then map[] else
      var e := entries[|entries| - 1];
      OrderMap(entries[..|entries| - 1])[e.crate := e.publishOrder]
  }

  /** A dependency that has no entry does not count against the order. */
  predicate DependencyEarlier(order: map<string, nat>, e: Entry, d: string) {
    d in order ==> order[d] < e.publishOrder
  }

  /** The final re-check of the order. */
  method RecheckOrder(entries: seq<Entry>) returns (topoValid: bool)
    ensures topoValid <==>
      forall e, d :: e in entries && d in e.dependencies ==> DependencyEarlier(OrderMap(entries), e, d)
  {
    var orderMap: map<string, nat> := map[];
    var i := 0;
    while i < |entries|
      invariant 0 <= i <= |entries|
      invariant orderMap == OrderMap(entries[..i])
    {
      assert entries[..i + 1][..i] == entries[..i];
      orderMap := orderMap[entries[i].crate := entries[i].publishOrder];
      i := i + 1;
    }
    assert entries[..i] == entries;
    topoValid := true;
    i := 0;
    while i < |entries|
      invariant 0 <= i <= |entries|
      invariant topoValid <==>
        forall e, d :: e in entries[..i] && d in e.dependencies ==> DependencyEarlier(orderMap, e, d)
    {
      var e := entries[i];
      assert forall x :: x in entries[..i + 1] <==> x in entries[..i] || x == e;
      var j := 0;
      while j < |e.dependencies|
        invariant 0 <= j <= |e.dependencies|
        invariant topoValid <==>
          && (forall x, d :: x in entries[..i] && d in x.dependencies ==> DependencyEarlier(orderMap, x, d))
          && (forall d :: d in e.dependencies[..j] ==> DependencyEarlier(orderMap, e, d))
      {
        var dep := e.dependencies[j];
        assert forall x :: x in e.dependencies[..j + 1] <==> x in e.dependencies[..j] || x == dep;
        if dep in orderMap && orderMap[dep] >= e.publishOrder {
          assert !DependencyEarlier(orderMap, e, dep);
          topoValid := false;
        }
        j := j + 1;
      }
      assert e.dependencies[..j] == e.dependencies;
      i := i + 1;
    }
    assert entries[..i] == entries;
  }

  lemma {:induction false} OrderMapAre(g: Dag, sorted: seq<string>, entries: seq<Entry>, m: nat, k: nat)
    requires DescribeAll(g, sorted, entries) && Distinct(sorted) && k < m <= |sorted|
    ensures sorted[k] in OrderMap(entries[..m]) && OrderMap(entries[..m])[sorted[k]] == k + 1
  {
    assert entries[..m][..m - 1] == entries[..m - 1];
    assert Describes(g, sorted, m - 1, entries[m - 1]);
    if k < m - 1 {
      OrderMapAre(g, sorted, entries, m - 1, k);
      assert sorted[k] != sorted[m - 1];
    }
  }

  /** The re-check accepts the entries of every dependency-first order. */
  lemma RecheckAccepts(g: Dag, sorted: seq<string>, entries: seq<Entry>, e: Entry, d: string)
    requires g.Closed() && Linear(g, sorted) && DescribeAll(g, sorted, entries)
    requires e in entries && d in e.dependencies
    ensures DependencyEarlier(OrderMap(entries), e, d)
  {
    var i :| 0 <= i < |entries| && entries[i] == e;
    assert Describes(g, sorted, i, entries[i]);
    assert Ready(g, sorted[i], sorted[..i]);
    assert d in sorted[..i];
    var k :| 0 <= k < i && sorted[k] == d;
    LinearDistinct(g, sorted);
    OrderMapAre(g, sorted, entries, |entries|, k);
    assert entries[..|entries|] == entries;
  }

  datatype Preparation =
    | CycleFound(cycle: seq<string>)
    | OrderRejected
    | Prepared(entries: seq<Entry>)

  /** What a prepared plan is: every crate of the graph once, dependencies first, the
      lexicographically least such order, with true layers. */
  ghost predicate IsPlan(g: Dag, entries: seq<Entry>) {
    exists sorted :: IsPlanFor(g, sorted, entries)
  }

  ghost predicate IsPlanFor(g: Dag, sorted: seq<string>, entries: seq<Entry>) {
    && AreEntries(g, sorted, entries)
    && Greedy(g, sorted)
    && (forall n :: n in g.deps <==> n in sorted)
  }

  /** Graph, cycle check, sort, layers and re-check. The re-check never rejects, and a plan results
      exactly when the dependencies have no cycle. */
  method Prepare(crates: seq<Crate>) returns (r: Preparation)
    ensures !r.OrderRejected?
    ensures r.CycleFound? <==> HasCycle(DagOf(crates))
    ensures r.CycleFound? ==> IsCycle(DagOf(crates), r.cycle)
    ensures r.Prepared? ==> IsPlan(DagOf(crates), r.entries)
  {
    hide IsEntry, HasCycle, IsCycle, Greedy, Linear, NodeNames, DeclaredDeps;
    var g := BuildDag(crates);
    var cycle := DetectCycle(g);
    if cycle.Some? {
      return CycleFound(cycle.value);
    }
    var sorted := TopologicalSort(g);
    GreedyIsLinear(g, sorted);
    LinearDistinct(g, sorted);
    AllPlacedIffAcyclic(g, sorted);
    var entries := GeneratePublishOrder(sorted, g);
    EntriesDescribe(g, sorted, entries);
    var topoValid := RecheckOrder(entries);
    forall e, d | e in entries && d in e.dependencies ensures DependencyEarlier(OrderMap(entries), e, d) {
      RecheckAccepts(g, sorted, entries, e, d);
    }
    if !topoValid {
      return OrderRejected;
    }
    assert IsPlanFor(g, sorted, entries);
    return Prepared(entries);
  }

  // ----- what a plan does not depend on -----

  ghost predicate PublishedName(crates: seq<Crate>, n: string) {
    exists i :: 0 <= i < |crates| && crates[i].Published() && crates[i].Name() == n
  }

  /** Two workspaces publish the same names and declare the same dependencies between them. */
  ghost predicate SameDeclarations(a: seq<Crate>, b: seq<Crate>) {
    && (forall n :: PublishedName(a, n) <==> PublishedName(b, n))
    && (forall n, d :: PublishedName(a, d) ==> (Declared(a, n, d) <==> Declared(b, n, d)))
  }

  lemma NodesArePublished(crates: seq<Crate>, n: string)
    ensures n in DagOf(crates).deps <==> PublishedName(crates, n)
  {
    DagHolds(crates, n, n);
    hide DagOf;
    if c :| c in crates && c.Published() && c.Name() == n {
      var i :| 0 <= i < |crates| && crates[i] == c;
    }
  }

  lemma EdgesAreDeclared(crates: seq<Crate>, n: string, d: string)
    ensures d in DagOf(crates).Deps(n) <==> PublishedName(crates, d) && Declared(crates, n, d)
  {
    DagHolds(crates, n, d);
    NodesArePublished(crates, d);
  }

  /** The graphs have the same dependencies exactly if the workspaces declare the same. */
  lemma SameGraphsIff(a: seq<Crate>, b: seq<Crate>)
    ensures SameDependencies(DagOf(a), DagOf(b)) <==> SameDeclarations(a, b)
  {
    hide DagOf, PublishedName, Declared;
    var g, h := DagOf(a), DagOf(b);
    forall n ensures (n in g.deps <==> PublishedName(a, n)) && (n in h.deps <==> PublishedName(b, n)) {
      NodesArePublished(a, n);
      NodesArePublished(b, n);
    }
    forall n, d
      ensures d in g.Deps(n) <==> PublishedName(a, d) && Declared(a, n, d)
      ensures d in h.Deps(n) <==> PublishedName(b, d) && Declared(b, n, d)
    {
      EdgesAreDeclared(a, n, d);
      EdgesAreDeclared(b, n, d);
    }
    if SameDependencies(g, h) {
      forall n, d | PublishedName(a, d) ensures Declared(a, n, d) <==> Declared(b, n, d) {
        assert d in g.Deps(n) <==> d in h.Deps(n);
      }
    }
    if SameDeclarations(a, b) {
      forall n, d ensures d in g.Deps(n) <==> d in h.Deps(n) {
        assert Declared(a, n, d) ==> PublishedName(a, d) ==> Declared(b, n, d);
      }
    }
  }

  /** The same member up to the order and the repetition of its dependency entries. */
  ghost predicate SameMember(c: Crate, d: Crate) {
    && c.Published() == d.Published() && c.Name() == d.Name()
    && forall x :: x in c.deps <==> x in d.deps
  }

  /** Every published member of `a` is listed in `b`. */
  ghost predicate MembersWithin(a: seq<Crate>, b: seq<Crate>) {
    forall i :: 0 <= i < |a| && a[i].Published() ==> exists j :: 0 <= j < |b| && SameMember(a[i], b[j])
  }

  lemma DeclarationsWithin(a: seq<Crate>, b: seq<Crate>, n: string, d: string)
    requires MembersWithin(a, b)
    ensures PublishedName(a, n) ==> PublishedName(b, n)
    ensures Declared(a, n, d) ==> Declared(b, n, d)
  {
    if PublishedName(a, n) {
      var i :| 0 <= i < |a| && a[i].Published() && a[i].Name() == n;
      var j :| 0 <= j < |b| && SameMember(a[i], b[j]);
    }
    if Declared(a, n, d) {
      var i :| 0 <= i < |a| && Declares(a[i], n, d);
      var j :| 0 <= j < |b| && SameMember(a[i], b[j]);
      assert Declares(b[j], n, d);
    }
  }

  /** Listing members in another order or repeatedly, or their dependency entries in another order or
      repeatedly, changes no declaration. */
  lemma SameMembersDeclareSame(a: seq<Crate>, b: seq<Crate>)
    requires MembersWithin(a, b) && MembersWithin(b, a)
    ensures SameDeclarations(a, b)
  {
    hide MembersWithin, PublishedName, Declared;
    forall n ensures PublishedName(a, n) <==> PublishedName(b, n) {
      DeclarationsWithin(a, b, n, n);
      DeclarationsWithin(b, a, n, n);
    }
    forall n, d ensures Declared(a, n, d) <==> Declared(b, n, d) {
      DeclarationsWithin(a, b, n, d);
      DeclarationsWithin(b, a, n, d);
    }
  }

  lemma SamePaths(g: Dag, h: Dag, p: seq<string>)
    requires SameDependencies(g, h) && IsPath(g, p)
    ensures IsPath(h, p)
  {
    forall i | 0 <= i < |p| - 1 ensures Linked(h, p, i) {
      assert Linked(g, p, i);
    }
  }

  lemma SameLayers(g: Dag, h: Dag, n: string, k: nat)
    requires SameDependencies(g, h) && IsLayer(g, n, k)
    ensures IsLayer(h, n, k)
  {
    var p :| ChainFrom(g, n, p) && |p| == k + 1;
    SamePaths(g, h, p);
    assert ChainFrom(h, n, p);
    forall q | ChainFrom(h, n, q) ensures |q| <= k + 1 {
      SamePaths(h, g, q);
      assert ChainFrom(g, n, q);
    }
  }

  /** Two plans have the same crates, layers and positions. */
  ghost predicate SameEntries(p: seq<Entry>, q: seq<Entry>) {
    && |p| == |q|
    && forall i :: 0 <= i < |p| ==>
         p[i].crate == q[i].crate && p[i].layer == q[i].layer && p[i].publishOrder == q[i].publishOrder
  }

  /** Plans of workspaces that publish the same names with the same dependencies agree. */
  lemma PlanUnique(a: seq<Crate>, b: seq<Crate>, p: seq<Entry>, q: seq<Entry>)
    requires SameDeclarations(a, b)
    requires IsPlan(DagOf(a), p) && IsPlan(DagOf(b), q)
    ensures SameEntries(p, q)
  {
    hide DagOf, Greedy, IsLayer, SameDeclarations;
    var g, h := DagOf(a), DagOf(b);
    SameGraphsIff(a, b);
    var s :| IsPlanFor(g, s, p);
    var t :| IsPlanFor(h, t, q);
    OrderUnique(g, h, s, t);
    forall i | 0 <= i < |p|
      ensures p[i].crate == q[i].crate && p[i].layer == q[i].layer && p[i].publishOrder == q[i].publishOrder
    {
      assert IsEntry(g, s, i, p[i]) && IsEntry(h, t, i, q[i]);
      SameLayers(g, h, s[i], p[i].layer);
      LayerUnique(h, s[i], p[i].layer, q[i].layer);
    }
  }

  /** A plan depends neither on the order in which members and dependency entries are listed nor on
      repeated ones. */
  lemma PlanForgetsListing(a: seq<Crate>, b: seq<Crate>, p: seq<Entry>, q: seq<Entry>)
    requires MembersWithin(a, b) && MembersWithin(b, a)
    requires IsPlan(DagOf(a), p) && IsPlan(DagOf(b), q)
    ensures SameEntries(p, q)
  {
    hide IsPlan, DagOf, SameEntries;
    SameMembersDeclareSame(a, b);
    PlanUnique(a, b, p, q);
  }

  // ----- what a publisher relies on -----

  /** An entry for `d` before position `i`. */
  ghost predicate EarlierEntry(entries: seq<Entry>, i: nat, d: string) {
    exists k :: 0 <= k < i && k < |entries| && entries[k].crate == d
  }

  /** The entries are in dependency-first order. */
  ghost predicate OrdersDependencies(g: Dag, entries: seq<Entry>) {
    forall i, d :: 0 <= i < |entries| && d in g.Deps(entries[i].crate) ==> EarlierEntry(entries, i, d)
  }

  /** Every crate has an entry. */
  ghost predicate HoldsAll(g: Dag, entries: seq<Entry>) {
    forall n :: n in g.deps ==> EarlierEntry(entries, |entries|, n)
  }

  /** A dependency of an entry's crate has an earlier entry, in a strictly lower layer. */
  lemma PlanOrdersDependencies(g: Dag, sorted: seq<string>, entries: seq<Entry>, i: nat, d: string)
    requires g.Closed() && IsPlanFor(g, sorted, entries) && i < |entries| && d in g.Deps(entries[i].crate)
    ensures exists k :: 0 <= k < i && entries[k].crate == d && entries[k].layer < entries[i].layer
  {
    hide IsLayer, Greedy;
    GreedyIsLinear(g, sorted);
    assert IsEntry(g, sorted, i, entries[i]);
    assert Ready(g, sorted[i], sorted[..i]);
    assert d in sorted[..i];
    var k :| 0 <= k < i && sorted[k] == d;
    assert IsEntry(g, sorted, k, entries[k]);
    DependencyIsLower(g, sorted[i], entries[i].layer, d, entries[k].layer);
  }

  /** What stands in the entries of a plan. */
  lemma PlanEntries(g: Dag, entries: seq<Entry>, i: nat)
    requires g.Closed() && IsPlan(g, entries) && i < |entries|
    ensures entries[i].crate in g.deps && entries[i].publishOrder == i + 1
    ensures entries[i].dependencies == g.deps[entries[i].crate]
    ensures IsLayer(g, entries[i].crate, entries[i].layer)
  {
    hide IsLayer, Greedy;
    var sorted :| IsPlanFor(g, sorted, entries);
    assert IsEntry(g, sorted, i, entries[i]);
    assert sorted[i] in g.deps;
  }

  /** A plan holds every crate, in dependency-first order. */
  lemma PlanIsComplete(g: Dag, entries: seq<Entry>)
    requires g.Closed() && IsPlan(g, entries)
    ensures OrdersDependencies(g, entries) && HoldsAll(g, entries)
  {
    hide IsLayer, Greedy;
    var sorted :| IsPlanFor(g, sorted, entries);
    forall i, d | 0 <= i < |entries| && d in g.Deps(entries[i].crate) ensures EarlierEntry(entries, i, d) {
      PlanOrdersDependencies(g, sorted, entries, i, d);
    }
    forall n | n in g.deps ensures EarlierEntry(entries, |entries|, n) {
      var k :| 0 <= k < |sorted| && sorted[k] == n;
      assert IsEntry(g, sorted, k, entries[k]);
    }
  }
}
