/** Which source files a crate's entry files reach through `mod` declarations, and the orphan gate. */
module ModuleReach {
  import opened Names
  import opened DepGraph
  import Sorting

  /** The files that exist and the module names that each of them declares, in order. */
  datatype Tree = Tree(files: set<string>, decls: map<string, seq<string>>) {
    function Declared(f: string): seq<string> {
      if f in files && f in decls then decls[f] else []
    }
  }

  /** The directory part of a path, without the final slash. */
  function DirName(f: string): string {
    if f == "" then ""
    else if f[|f| - 1] == '/' then f[..|f| - 1]
    else DirName(f[..|f| - 1])
  }

  /** The file of module `name` declared in `f`: `name.rs`, or else `name/mod.rs`, beside `f`. */
  function Resolve(t: Tree, f: string, name: string): (r: Option<string>)
    ensures r.Some? ==> r.value in t.files
  {
    var plain := DirName(f) + "/" + name + ".rs";
    var nested := DirName(f) + "/" + name + "/mod.rs";
    if plain in t.files then Some(plain)
    else if nested in t.files then Some(nested)
    else None
  }

  /** `f` declares a module that resolves to `d`. */
  predicate ModEdge(t: Tree, f: string, d: string) {
    exists i :: 0 <= i < |t.Declared(f)| && Resolve(t, f, t.Declared(f)[i]) == Some(d)
  }

  lemma {:induction false} DirNameIs(dir: string, base: string)
    requires '/' !in base
    ensures DirName(dir + "/" + base) == dir
  {
    var f := dir + "/" + base;
    if base == "" {
      assert f[..|f| - 1] == dir;
    } else {
      assert f[..|f| - 1] == dir + "/" + base[..|base| - 1];
      DirNameIs(dir, base[..|base| - 1]);
    }
  }

  lemma CandidateOf(t: Tree, dir: string, base: string, name: string, d: string)
    requires '/' !in base
    ensures Resolve(t, dir + "/" + base, name) == Some(d) <==>
            && d in t.files
            && (d == dir + "/" + name + ".rs" || (d == dir + "/" + name + "/mod.rs" && dir + "/" + name + ".rs" !in t.files))
  {
    DirNameIs(dir, base);
  }

  /** A file declares a module in a file beside it, or else in the `mod.rs` of a directory beside it. */
  lemma EdgeIff(t: Tree, dir: string, base: string, d: string)
    requires '/' !in base
    ensures ModEdge(t, dir + "/" + base, d) <==>
            var f := dir + "/" + base;
            && f in t.files && f in t.decls && d in t.files
            && exists name :: name in t.decls[f] &&
                 (d == dir + "/" + name + ".rs" || (d == dir + "/" + name + "/mod.rs" && dir + "/" + name + ".rs" !in t.files))
  {
    var f := dir + "/" + base;
    forall name ensures Resolve(t, f, name) == Some(d) <==>
                        && d in t.files
                        && (d == dir + "/" + name + ".rs" || (d == dir + "/" + name + "/mod.rs" && dir + "/" + name + ".rs" !in t.files))
    {
      CandidateOf(t, dir, base, name, d);
    }
    hide Resolve;
    if ModEdge(t, f, d) {
      var i :| 0 <= i < |t.Declared(f)| && Resolve(t, f, t.Declared(f)[i]) == Some(d);
      assert t.decls[f][i] in t.decls[f];
    }
    if name :| f in t.files && f in t.decls && name in t.decls[f] && Resolve(t, f, name) == Some(d) {
      var i :| 0 <= i < |t.decls[f]| && t.decls[f][i] == name;
      assert t.Declared(f)[i] == name;
    }
  }

  function Targets(t: Tree, f: string, names: seq<string>): seq<string> {
    if names == [] then [] else
      var r := Resolve(t, f, names[0]);
      (if r.Some? then [r.value] else []) + Targets(t, f, names[1..])
  }

  /** The files as a graph, with an edge for every resolved declaration. */
  ghost function ModGraph(t: Tree): Dag {
    Dag([], map f | f in t.files :: Targets(t, f, t.Declared(f)))
  }

  lemma {:induction false} TargetsAre(t: Tree, f: string, names: seq<string>, d: string)
    ensures d in Targets(t, f, names) <==> exists i :: 0 <= i < |names| && Resolve(t, f, names[i]) == Some(d)
  {
    hide Resolve;
    if names != [] {
      TargetsAre(t, f, names[1..], d);
      assert forall i :: 0 <= i < |names| - 1 ==> names[1..][i] == names[i + 1];
      if exists i :: 0 <= i < |names| && Resolve(t, f, names[i]) == Some(d) {
        var i :| 0 <= i < |names| && Resolve(t, f, names[i]) == Some(d);
        assert i > 0 ==> names[1..][i - 1] == names[i];
      }
    }
  }

  lemma EdgesAreDeclarations(t: Tree, f: string, d: string)
    ensures d in ModGraph(t).Deps(f) <==> ModEdge(t, f, d)
  {
    TargetsAre(t, f, t.Declared(f), d);
  }

  ghost predicate Leads(t: Tree, p: seq<string>, f: string, d: string) {
    IsPath(ModGraph(t), p) && p[0] == f && p[|p| - 1] == d
  }

  /** A chain of resolved `mod` declarations leads from `f` to `d`. */
  ghost predicate Reachable(t: Tree, f: string, d: string) {
    exists p :: Leads(t, p, f, d)
  }

  lemma ReachableSelf(t: Tree, f: string)
    ensures Reachable(t, f, f)
  {
    assert Leads(t, [f], f, f);
  }

  lemma ReachableStep(t: Tree, f: string, d: string, e: string)
    requires Reachable(t, f, d) && ModEdge(t, d, e)
    ensures Reachable(t, f, e)
  {
    hide IsPath, ModGraph, ModEdge;
    var p :| Leads(t, p, f, d);
    EdgesAreDeclarations(t, d, e);
    NotEmpty(ModGraph(t), p);
    ExtendPath(ModGraph(t), p, e);
    assert Leads(t, p + [e], f, e);
  }

  lemma NotEmpty(g: Dag, p: seq<string>)
    requires IsPath(g, p)
    ensures p != []
  {
  }

  /** A set that holds the start and is closed under declarations holds every reachable file. */
  lemma {:induction false} ClosedHoldsPath(t: Tree, s: set<string>, p: seq<string>, k: nat)
    requires IsPath(ModGraph(t), p) && p[0] in s && k < |p|
    requires forall f, d :: f in s && ModEdge(t, f, d) ==> d in s
    ensures p[k] in s
    decreases k
  {
    if k > 0 {
      ClosedHoldsPath(t, s, p, k - 1);
      assert Linked(ModGraph(t), p, k - 1);
      EdgesAreDeclarations(t, p[k - 1], p[k]);
    }
  }

  // ----- the worklist search -----

  /** Everything found so far is reachable, and what a visited file declares is visited or waiting. */
  ghost predicate Searching(t: Tree, entry: string, queue: seq<string>, visited: set<string>) {
    && (entry in visited || entry in queue)
    && (forall f :: f in visited || f in queue ==> Reachable(t, entry, f) && f in t.files + {entry})
    && (forall f, d :: f in visited && ModEdge(t, f, d) ==> d in visited || d in queue)
  }

  lemma DropVisited(t: Tree, entry: string, queue: seq<string>, visited: set<string>)
    requires Searching(t, entry, queue, visited) && queue != [] && queue[0] in visited
    ensures Searching(t, entry, queue[1..], visited)
  {
    assert forall f :: f in queue <==> f == queue[0] || f in queue[1..];
  }

  /** The first `n` declarations of the file at the head of the queue have been followed. */
  ghost predicate Following(t: Tree, entry: string, head: string, n: nat, queue: seq<string>, visited: set<string>)
    requires n <= |t.Declared(head)|
  {
    && (entry in visited || entry in queue) && head in visited
    && (forall f :: f in visited || f in queue ==> Reachable(t, entry, f) && f in t.files + {entry})
    && (forall f, d :: f in visited && f != head && ModEdge(t, f, d) ==> d in visited || d in queue)
    && (forall i :: 0 <= i < n ==> var d := Resolve(t, head, t.Declared(head)[i]); d.Some? ==> d.value in visited || d.value in queue)
  }

  lemma TakeHead(t: Tree, entry: string, queue: seq<string>, visited: set<string>)
    requires Searching(t, entry, queue, visited) && queue != []
    ensures Following(t, entry, queue[0], 0, queue[1..], visited + {queue[0]})
  {
    assert forall f :: f in queue <==> f == queue[0] || f in queue[1..];
  }

  lemma ResolvedIsEdge(t: Tree, f: string, n: nat)
    requires n < |t.Declared(f)| && Resolve(t, f, t.Declared(f)[n]).Some?
    ensures ModEdge(t, f, Resolve(t, f, t.Declared(f)[n]).value)
  {
  }

  lemma FollowNext(t: Tree, entry: string, head: string, n: nat, queue: seq<string>, visited: set<string>)
    requires n < |t.Declared(head)| && Following(t, entry, head, n, queue, visited)
    ensures
      var d := Resolve(t, head, t.Declared(head)[n]);
      Following(t, entry, head, n + 1, if d.Some? then queue + [d.value] else queue, visited)
  {
    hide Reachable, Resolve, ModEdge;
    var d := Resolve(t, head, t.Declared(head)[n]);
    if d.Some? {
      ResolvedIsEdge(t, head, n);
      ReachableStep(t, entry, head, d.value);
      assert forall f :: f in queue + [d.value] <==> f in queue || f == d.value;
    }
  }

  lemma FollowedAll(t: Tree, entry: string, head: string, queue: seq<string>, visited: set<string>)
    requires Following(t, entry, head, |t.Declared(head)|, queue, visited)
    ensures Searching(t, entry, queue, visited)
  {
    forall f, d | f in visited && ModEdge(t, f, d) ensures d in visited || d in queue {
      if f == head {
        var i :| 0 <= i < |t.Declared(f)| && Resolve(t, f, t.Declared(f)[i]) == Some(d);
      }
    }
  }

  lemma StartSearch(t: Tree, entry: string)
    ensures Searching(t, entry, [entry], {})
  {
    ReachableSelf(t, entry);
  }

  lemma SearchDone(t: Tree, entry: string, visited: set<string>)
    requires Searching(t, entry, [], visited)
    ensures forall f :: f in visited <==> Reachable(t, entry, f)
  {
    forall f | Reachable(t, entry, f) ensures f in visited {
      var p :| Leads(t, p, entry, f);
      ClosedHoldsPath(t, visited, p, |p| - 1);
    }
  }

  /** Breadth-first search from an entry file. Every turn visits a new file or shortens the queue. */
  method CollectReachable(t: Tree, entry: string) returns (reached: set<string>)
    ensures forall f :: f in reached <==> Reachable(t, entry, f)
  {
    hide Searching, Following, Reachable, ModEdge;
    var queue := [entry];
    var visited: set<string> := {};
    reached := {};
    StartSearch(t, entry);
    while |queue| > 0
      invariant Searching(t, entry, queue, visited) && reached == visited
      decreases (t.files + {entry}) - visited, |queue|
    {
      var file := queue[0];
      if file in visited {
        DropVisited(t, entry, queue, visited);
        queue := queue[1..];
        continue;
      }
      TakeHead(t, entry, queue, visited);
      queue := queue[1..];
      visited := visited + {file};
      reached := reached + {file};
      var names := t.Declared(file);
      var i := 0;
      while i < |names|
        invariant 0 <= i <= |names|
        invariant Following(t, entry, file, i, queue, visited)
      {
        FollowNext(t, entry, file, i, queue, visited);
        var child := Resolve(t, file, names[i]);
        if child.Some? { queue := queue + [child.value]; }
        i := i + 1;
      }
      FollowedAll(t, entry, file, queue, visited);
    }
    assert queue == [];
    SearchDone(t, entry, visited);
  }

  // ----- orphans -----

  /** A crate: its directory name under the package directory `root`, and the source files below its
      `src` directory, relative to it. */
  datatype CrateDir = CrateDir(name: string, sources: seq<string>)

  function SourcePath(root: string, c: CrateDir, rel: string): string {
    root + "/" + c.name + "/src/" + rel
  }

  function Label(c: CrateDir, rel: string): string {
    c.name + "/src/" + rel
  }

  predicate IsEntry(rel: string) {
    rel == "lib.rs" || rel == "main.rs" || "bin/" <= rel
  }

  function EntriesOf(rels: seq<string>): (r: seq<string>)
    ensures forall x :: x in r <==> x in rels && IsEntry(x)
  {
    if rels == [] then []
    else (if IsEntry(rels[0]) then [rels[0]] else []) + EntriesOf(rels[1..])
  }

  ghost predicate ReachedFrom(t: Tree, root: string, c: CrateDir, entries: seq<string>, f: string) {
    exists e :: e in entries && Reachable(t, SourcePath(root, c, e), f)
  }

  /** `rel` is an orphan of crate `c`: the crate has an entry file, `rel` is not one, and no entry
      file reaches it. */
  ghost predicate IsOrphan(t: Tree, root: string, c: CrateDir, rel: string) {
    && rel in c.sources && !IsEntry(rel) && EntriesOf(c.sources) != []
    && !ReachedFrom(t, root, c, EntriesOf(c.sources), SourcePath(root, c, rel))
  }

  /** The files from which the compiler starts. */
  ghost predicate StartsCrate(rel: string) {
    rel == "lib.rs" || rel == "main.rs" || exists bin :: rel == "bin/" + bin
  }

  lemma IsEntryIff(rel: string)
    ensures IsEntry(rel) <==> StartsCrate(rel)
  {
    if "bin/" <= rel { assert rel == "bin/" + rel[4..]; }
  }

  /** What is listed as an orphan, and under which label. */
  lemma OrphanLabelIff(t: Tree, root: string, crates: seq<CrateDir>, l: string)
    ensures OrphanLabel(t, root, crates, l) <==>
            exists c, rel :: c in crates && rel in c.sources && l == c.name + "/src/" + rel && !StartsCrate(rel) &&
              NotReached(t, root + "/" + c.name + "/src/", c.sources, rel)
  {
    hide Reachable, StartsCrate, IsEntry;
    forall rel ensures IsEntry(rel) <==> StartsCrate(rel) { IsEntryIff(rel); }
    forall c: CrateDir, rel | rel in c.sources && !IsEntry(rel)
      ensures IsOrphan(t, root, c, rel) <==> NotReached(t, root + "/" + c.name + "/src/", c.sources, rel)
    {
      NotReachedIff(t, root, c, rel);
    }
    hide NotReached, IsOrphan;
  }

  /** There are files from which to start, and none of them leads to `rel`; `src` is their directory. */
  ghost predicate NotReached(t: Tree, src: string, sources: seq<string>, rel: string) {
    && (exists e :: e in sources && StartsCrate(e))
    && (forall e :: e in sources && StartsCrate(e) ==> !Reachable(t, src + e, src + rel))
  }

  lemma NotReachedIff(t: Tree, root: string, c: CrateDir, rel: string)
    requires rel in c.sources && !IsEntry(rel)
    ensures IsOrphan(t, root, c, rel) <==> NotReached(t, root + "/" + c.name + "/src/", c.sources, rel)
  {
    hide Reachable, StartsCrate, IsEntry;
    forall e ensures IsEntry(e) <==> StartsCrate(e) { IsEntryIff(e); }
    var entries := EntriesOf(c.sources);
    forall e ensures SourcePath(root, c, e) == root + "/" + c.name + "/src/" + e { }
    if entries != [] { assert entries[0] in entries; }
  }

  method ReachedOfCrate(t: Tree, root: string, c: CrateDir, entries: seq<string>) returns (reached: set<string>)
    ensures forall f :: f in reached <==> ReachedFrom(t, root, c, entries, f)
  {
    hide Reachable;
    reached := {};
    var i := 0;
    while i < |entries|
      invariant 0 <= i <= |entries|
      invariant forall f :: f in reached <==> ReachedFrom(t, root, c, entries[..i], f)
    {
      var r := CollectReachable(t, SourcePath(root, c, entries[i]));
      reached := reached + r;
      i := i + 1;
    }
    assert entries[..i] == entries;
  }

  ghost predicate OrphanLabel(t: Tree, root: string, crates: seq<CrateDir>, l: string) {
    exists c, rel :: c in crates && IsOrphan(t, root, c, rel) && l == Label(c, rel)
  }

  lemma SameLabel(c: CrateDir, rel: string, d: CrateDir, rel': string)
    requires Label(c, rel) == Label(d, rel')
    requires c.name == d.name || ('/' !in c.name && '/' !in d.name)
    ensures c.name == d.name && rel == rel'
  {
    var l, n, m := Label(c, rel), |c.name|, |d.name|;
    assert l[n] == '/' && l[m] == '/';
    assert n == m;
    assert c.name == l[..n] == d.name;
    assert rel == l[n + |"/src/"|..] == rel';
  }

  /** The orphans of one crate, in the order in which its files were listed. */
  method OrphansOfCrate(t: Tree, root: string, c: CrateDir) returns (orphans: seq<string>)
    ensures forall l :: l in orphans <==> exists rel :: IsOrphan(t, root, c, rel) && l == Label(c, rel)
    ensures Distinct(c.sources) ==> Distinct(orphans)
  {
    hide ReachedFrom;
    orphans := [];
    var entries := EntriesOf(c.sources);
    if |entries| == 0 { return; }
    var reached := ReachedOfCrate(t, root, c, entries);
    hide IsOrphan, Label;
    var i := 0;
    while i < |c.sources|
      invariant 0 <= i <= |c.sources|
      invariant forall l :: l in orphans <==> exists rel :: rel in c.sources[..i] && IsOrphan(t, root, c, rel) && l == Label(c, rel)
      invariant Distinct(c.sources) ==> Distinct(orphans)
    {
      var rel := c.sources[i];
      assert forall x :: x in c.sources[..i + 1] <==> x in c.sources[..i] || x == rel;
      OrphanIff(t, root, c, rel);
      if !IsEntry(rel) && SourcePath(root, c, rel) !in reached {
        if Distinct(c.sources) { NewLabel(c, i, orphans); }
        orphans := orphans + [Label(c, rel)];
      }
      i := i + 1;
    }
    assert c.sources[..i] == c.sources;
    forall rel | IsOrphan(t, root, c, rel) ensures rel in c.sources { OrphanIff(t, root, c, rel); }
  }

  lemma OrphanIff(t: Tree, root: string, c: CrateDir, rel: string)
    ensures IsOrphan(t, root, c, rel) <==>
            && rel in c.sources && !IsEntry(rel) && EntriesOf(c.sources) != []
            && !ReachedFrom(t, root, c, EntriesOf(c.sources), SourcePath(root, c, rel))
  {
  }

  /** The label of the next of a list of distinct files is new. */
  lemma NewLabel(c: CrateDir, i: nat, labels: seq<string>)
    requires Distinct(c.sources) && i < |c.sources| && Distinct(labels)
    requires forall l :: l in labels ==> exists rel :: rel in c.sources[..i] && l == Label(c, rel)
    ensures Distinct(labels + [Label(c, c.sources[i])])
  {
    hide Label;
    forall l | l in labels ensures l != Label(c, c.sources[i]) {
      var rel :| rel in c.sources[..i] && l == Label(c, rel);
      if l == Label(c, c.sources[i]) { SameLabel(c, rel, c, c.sources[i]); }
    }
    DistinctAppend(labels, [Label(c, c.sources[i])]);
  }

  /** What a directory listing gives: no crate twice, no slash in a name, no file twice. */
  ghost predicate ProperListing(crates: seq<CrateDir>) {
    && (forall i, j :: 0 <= i < j < |crates| ==> crates[i].name != crates[j].name)
    && (forall i :: 0 <= i < |crates| ==> '/' !in crates[i].name && Distinct(crates[i].sources))
  }

  lemma NewCrateLabels(t: Tree, root: string, crates: seq<CrateDir>, i: nat, labels: seq<string>, more: seq<string>)
    requires ProperListing(crates) && i < |crates| && Distinct(labels) && Distinct(more)
    requires forall l :: l in labels ==> OrphanLabel(t, root, crates[..i], l)
    requires forall l :: l in more ==> exists rel :: l == Label(crates[i], rel)
    ensures Distinct(labels + more)
  {
    hide Label, IsOrphan;
    forall l | l in labels ensures l !in more {
      if l in more {
        var c, rel :| c in crates[..i] && IsOrphan(t, root, c, rel) && l == Label(c, rel);
        var rel' :| l == Label(crates[i], rel');
        SameLabel(c, rel, crates[i], rel');
      }
    }
    DistinctAppend(labels, more);
  }

  /** All orphans of the workspace, sorted, each of them once. */
  method ListOrphans(t: Tree, root: string, crates: seq<CrateDir>) returns (orphans: seq<string>)
    ensures Sorted(orphans)
    ensures forall l :: l in orphans <==> OrphanLabel(t, root, crates, l)
    ensures ProperListing(crates) ==> Distinct(orphans)
  {
    hide IsOrphan, Label;
    orphans := [];
    var i := 0;
    while i < |crates|
      invariant 0 <= i <= |crates|
      invariant forall l :: l in orphans <==> OrphanLabel(t, root, crates[..i], l)
      invariant ProperListing(crates) ==> Distinct(orphans)
    {
      var c := crates[i];
      assert forall x :: x in crates[..i + 1] <==> x in crates[..i] || x == c;
      var more := OrphansOfCrate(t, root, c);
      if ProperListing(crates) { NewCrateLabels(t, root, crates, i, orphans, more); }
      orphans := orphans + more;
      i := i + 1;
    }
    assert crates[..i] == crates;
    ghost var unsorted := orphans;
    SortIsSorted(orphans);
    orphans := Sort(orphans);
    Sorting.MemberOfPermutation(unsorted, orphans);
    if ProperListing(crates) { DistinctPermutation(unsorted, orphans); }
  }

  // ----- the gate -----

  function NewOrphans(orphans: seq<string>, baseline: seq<string>): (r: seq<string>)
    ensures forall x :: x in r <==> x in orphans && x !in baseline
  {
    if orphans == [] then []
    else (if orphans[0] in baseline then [] else [orphans[0]]) + NewOrphans(orphans[1..], baseline)
  }

  datatype Verdict = Verdict(baseline: seq<string>, exitCode: nat)

  /** The gate: with `--update` the orphans become the baseline; otherwise an orphan that is not in
      the baseline fails it. */
  method Gate(t: Tree, root: string, crates: seq<CrateDir>, baseline: seq<string>, update: bool) returns (v: Verdict)
    ensures v.exitCode == 0 || v.exitCode == 1
    ensures !update ==> v.baseline == baseline
    ensures !update ==> (v.exitCode == 0 <==> forall l :: OrphanLabel(t, root, crates, l) ==> l in baseline)
    ensures update ==> v.exitCode == 0 && forall l :: l in v.baseline <==> OrphanLabel(t, root, crates, l)
    ensures update ==> Sorted(v.baseline) && (ProperListing(crates) ==> Distinct(v.baseline))
  {
    hide OrphanLabel;
    var orphans := ListOrphans(t, root, crates);
    var added := NewOrphans(orphans, baseline);
    if update { return Verdict(orphans, 0); }
    if |added| > 0 {
      assert added[0] in added;
      return Verdict(baseline, 1);
    }
    return Verdict(baseline, 0);
  }

  /** After an update the same tree passes, and it keeps passing as long as no orphan is added. */
  method UpdateThenCheck(t: Tree, t': Tree, root: string, crates: seq<CrateDir>, crates': seq<CrateDir>,
      baseline: seq<string>)
    returns (v: Verdict)
    ensures v.exitCode == 0 <==>
      forall l :: OrphanLabel(t', root, crates', l) ==> OrphanLabel(t, root, crates, l)
  {
    hide OrphanLabel;
    var updated := Gate(t, root, crates, baseline, true);
    v := Gate(t', root, crates', updated.baseline, false);
  }
}
