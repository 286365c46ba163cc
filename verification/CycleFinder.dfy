/** The three-colour depth-first search that looks for a dependency cycle. */
module CycleFinder {
  import opened Names
  import opened DepGraph

  datatype Color = White | Gray | Black

  /** The first position of `x` in `s`. */
  function IndexOf(s: seq<string>, x: string): (i: nat)
    requires x in s
    ensures i < |s| && s[i] == x && x !in s[..i]
  {
    if s[0] == x then 0
    else
      assert forall k :: 0 <= k < |s| && s[k] == x ==> k > 0 && s[1..][k - 1] == x;
      IndexOf(s[1..], x) + 1
  }

  // ----- the search state as values -----

  ghost function WhitesOf(color: map<string, Color>): set<string> {
    set n | n in color && color[n] == White
  }

  /** The invariant of the search: gray means on the current path, black means finished, and the
      finished crates, in the order in which they finished, are in dependency-first order. */
  ghost predicate Consistent(g: Dag, color: map<string, Color>, path: seq<string>, finished: seq<string>) {
    && color.Keys == g.deps.Keys
    && (path == [] || IsPath(g, path))
    && Distinct(path)
    && ColorsMatch(color, path, finished)
    && Linear(g, finished)
  }

  ghost predicate ColorsMatch(color: map<string, Color>, path: seq<string>, finished: seq<string>) {
    && (forall n :: n in path <==> n in color && color[n] == Gray)
    && (forall n :: n in finished <==> n in color && color[n] == Black)
  }

  /** The first `i` dependencies of `node` that are crates of the graph are finished. */
  ghost predicate FirstDepsFinished(g: Dag, node: string, i: nat, finished: seq<string>)
    requires i <= |g.Deps(node)|
  {
    forall k :: 0 <= k < i && g.Deps(node)[k] in g.deps ==> g.Deps(node)[k] in finished
  }

  lemma EnterNode(g: Dag, color: map<string, Color>, path: seq<string>, finished: seq<string>, node: string)
    requires Consistent(g, color, path, finished) && node in color && color[node] == White
    requires path != [] ==> node in g.Deps(path[|path| - 1])
    ensures Consistent(g, color[node := Gray], path + [node], finished)
    ensures WhitesOf(color[node := Gray]) == WhitesOf(color) - {node}
  {
    ExtendPath(g, path, node);
  }

  lemma PopPath(g: Dag, path: seq<string>, node: string)
    requires IsPath(g, path + [node]) && Distinct(path + [node])
    ensures path == [] || IsPath(g, path)
    ensures Distinct(path) && node !in path
  {
    var q := path + [node];
    if path != [] {
      SubPath(g, q, 0, |path|);
      assert q[0..|path|] == path;
    }
    forall i, j | 0 <= i < j < |path| ensures path[i] != path[j] {
      assert q[i] != q[j];
    }
    forall i | 0 <= i < |path| ensures path[i] != node {
      assert q[i] != q[|path|];
    }
  }

  lemma Blacken(color: map<string, Color>, path: seq<string>, finished: seq<string>, node: string)
    requires ColorsMatch(color, path + [node], finished) && node !in path
    ensures node in color && color[node] == Gray && node !in finished
    ensures ColorsMatch(color[node := Black], path, finished + [node])
    ensures WhitesOf(color[node := Black]) == WhitesOf(color)
  {
    var q := path + [node];
    assert node in q;
    forall n ensures n in q <==> n in path || n == node {
    }
  }

  lemma FinishNode(g: Dag, finished: seq<string>, node: string)
    requires Linear(g, finished) && node in g.deps && node !in finished
    requires FirstDepsFinished(g, node, |g.Deps(node)|, finished)
    ensures Linear(g, finished + [node])
  {
    assert DepsDone(g, node, finished);
    LinearExtend(g, finished, node);
  }

  lemma LeaveNode(g: Dag, color: map<string, Color>, path: seq<string>, finished: seq<string>, node: string)
    requires Consistent(g, color, path + [node], finished)
    requires FirstDepsFinished(g, node, |g.Deps(node)|, finished)
    ensures Consistent(g, color[node := Black], path, finished + [node])
    ensures WhitesOf(color[node := Black]) == WhitesOf(color)
  {
    PopPath(g, path, node);
    Blacken(color, path, finished, node);
    FinishNode(g, finished, node);
  }

  lemma NextDep(g: Dag, node: string, i: nat, earlier: seq<string>, finished: seq<string>)
    requires i < |g.Deps(node)| && earlier <= finished && FirstDepsFinished(g, node, i, earlier)
    requires g.Deps(node)[i] in g.deps ==> g.Deps(node)[i] in finished
    ensures FirstDepsFinished(g, node, i + 1, finished)
  {
  }

  /** What the colour of a single crate says. */
  lemma ColorOf(g: Dag, color: map<string, Color>, path: seq<string>, finished: seq<string>, n: string)
    requires Consistent(g, color, path, finished)
    ensures n in color <==> n in g.deps
    ensures n in color && color[n] == Gray ==> n in path && IsPath(g, path)
    ensures n in color && color[n] == Black ==> n in finished
  {
  }

  lemma CloseCycle(g: Dag, path: seq<string>, dep: string, start: nat)
    requires IsPath(g, path) && dep in g.Deps(path[|path| - 1])
    requires start < |path| && path[start] == dep
    ensures IsCycle(g, path[start..] + [dep])
  {
    ExtendPath(g, path, dep);
    SubPath(g, path + [dep], start, |path| + 1);
    assert (path + [dep])[start..|path| + 1] == path[start..] + [dep];
  }

  /** What the search shares between its recursive calls: the colours, the current path, the cycle
      found, and (for the proof) the crates in the order in which they turned black. */
  class Search {
    const g: Dag
    var color: map<string, Color>
    var path: seq<string>
    var cyclePath: seq<string>
    ghost var finished: seq<string>

    ghost predicate Valid()
      reads this
    {
      Consistent(g, color, path, finished)
    }

    constructor (g: Dag)
      requires g.WellFormed()
      ensures this.g == g && Valid() && path == [] && finished == []
      ensures WhitesOf(color) == g.deps.Keys
    {
      this.g := g;
      color := map n | n in g.deps :: White;
      path, cyclePath, finished := [], [], [];
    }

    /** Visits `node`. Either a cycle is found, or `node` ends up finished, what was finished stays
        finished, and the path is as before. */
    method Dfs(node: string) returns (found: bool)
      requires Valid() && node in color && color[node] == White
      requires path != [] ==> node in g.Deps(path[|path| - 1])
      modifies this
      ensures found ==> IsCycle(g, cyclePath)
      ensures !found ==> Valid() && path == old(path)
      ensures !found ==> old(finished) <= finished && node in finished
      ensures !found ==> WhitesOf(color) < old(WhitesOf(color))
      decreases WhitesOf(color)
    {
      hide Consistent;
      EnterNode(g, color, path, finished, node);
      color := color[node := Gray];
      path := path + [node];

      var deps := g.Deps(node);
      var i := 0;
      while i < |deps|
        invariant 0 <= i <= |deps|
        invariant Valid() && path == old(path) + [node]
        invariant old(finished) <= finished
        invariant WhitesOf(color) <= old(WhitesOf(color)) - {node}
        invariant FirstDepsFinished(g, node, i, finished)
      {
        var dep := deps[i];
        ColorOf(g, color, path, finished, dep);
        if dep in color && color[dep] == Gray {
          var cycleStart := IndexOf(path, dep);
          cyclePath := path[cycleStart..] + [dep];
          CloseCycle(g, path, dep, cycleStart);
          return true;
        }
        ghost var earlier := finished;
        if dep in color && color[dep] == White {
          found := Dfs(dep);
          if found { return true; }
        }
        NextDep(g, node, i, earlier, finished);
        i := i + 1;
      }

      LeaveNode(g, color, old(path), finished, node);
      color := color[node := Black];
      path := path[..|path| - 1];
      finished := finished + [node];
      return false;
    }
  }

  /** Returns a dependency cycle if there is one: `None` means that there is none. */
  method DetectCycle(g: Dag) returns (cycle: Option<seq<string>>)
    requires g.WellFormed()
    ensures cycle.Some? ==> IsCycle(g, cycle.value)
    ensures cycle.None? <==> !HasCycle(g)
  {
    hide Consistent, HasCycle, IsCycle;
    var search := new Search(g);
    var i := 0;
    while i < |g.keys|
      invariant 0 <= i <= |g.keys|
      invariant search.Valid() && search.path == [] && search.g == g && fresh(search)
      invariant forall k :: 0 <= k < i ==> g.keys[k] in search.finished
    {
      var node := g.keys[i];
      ColorOf(g, search.color, search.path, search.finished, node);
      if search.color[node] == White {
        var found := search.Dfs(node);
        if found {
          CycleIsProof(g, search.cyclePath);
          return Some(search.cyclePath);
        }
      }
      i := i + 1;
    }
    AllFinishedIsAcyclic(g, search.color, search.path, search.finished);
    return None;
  }

  lemma CycleIsProof(g: Dag, c: seq<string>)
    requires IsCycle(g, c)
    ensures HasCycle(g)
  {
  }

  lemma AllFinishedIsAcyclic(g: Dag, color: map<string, Color>, path: seq<string>, finished: seq<string>)
    requires g.WellFormed() && Consistent(g, color, path, finished)
    requires forall k :: 0 <= k < |g.keys| ==> g.keys[k] in finished
    ensures !HasCycle(g)
  {
    forall n | n in g.deps ensures n in finished {
      assert n in g.keys;
    }
    OrderOfAllIsAcyclic(g, finished);
  }
}
