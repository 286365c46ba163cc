/** Publishing a plan crate by crate, stopping at the first failure. */
module Publisher {
  import opened Names
  import opened DepGraph
  import opened Layers
  import opened Planner
  import opened TopoSort

  datatype Status = Success | AlreadyExists | Failed | Verified

  /** How one call of the package manager ended: normally or with an error, and whether its output
      says that the version is already there. */
  datatype CargoResult = Completed(mentionsExisting: bool) | Errored(mentionsExisting: bool)

  /** What is kept in memory for a crate; the audit log holds a copy made when it was recorded. */
  datatype Record = Record(crateName: string, status: Status)

  datatype Summary = Summary(total: nat, success: nat, alreadyExists: nat, failed: nat, records: seq<Record>)

  datatype Run = Run(records: seq<Record>, auditLog: seq<Record>, summary: Summary, exitCode: nat)

  predicate NameChar(c: char) {
    'a' <= c <= 'z' || '0' <= c <= '9'
  }

  /** Lower-case letters, digits and hyphens, not starting with a hyphen. */
  predicate NameAllowed(name: string) {
    && name != []
    && NameChar(name[0])
    && forall i :: 1 <= i < |name| ==> NameChar(name[i]) || name[i] == '-'
  }

  /** The names that may be published, letter by letter. */
  lemma NameAllowedIff(name: string)
    ensures NameAllowed(name) <==>
            && name != "" && name[0] != '-'
            && forall i :: 0 <= i < |name| ==> 'a' <= name[i] <= 'z' || '0' <= name[i] <= '9' || name[i] == '-'
  {
  }

  function PublishCrate(name: string, cargo: CargoResult): (s: Status)
    ensures s != Verified
    ensures s == Failed <==> !NameAllowed(name) || cargo == Errored(false)
    ensures s == Success <==> NameAllowed(name) && cargo == Completed(false)
  {
    if !NameAllowed(name) then Failed
    else if cargo.mentionsExisting then AlreadyExists
    else if cargo.Completed? then Success
    else Failed
  }

  /** The entries that are not skipped, in plan order. */
  function ToPublish(order: seq<Entry>, skip: seq<string>): seq<Entry> {
    if order == [] then [] else
      var e := order[|order| - 1];
      ToPublish(order[..|order| - 1], skip) + if e.crate in skip then [] else [e]
  }

  // ----- the summary -----

  function CountStatus(records: seq<Record>, s: Status): nat {
    if records == [] then 0 else
      CountStatus(records[..|records| - 1], s) + if records[|records| - 1].status == s then 1 else 0
  }

  /** The positions of the records with one of these statuses. */
  ghost function With(records: seq<Record>, statuses: set<Status>): (r: set<int>)
    ensures forall i :: i in r <==> 0 <= i < |records| && records[i].status in statuses
  {
    set i | 0 <= i < |records| && records[i].status in statuses
  }

  lemma {:induction false} CountIs(records: seq<Record>, s: Status)
    ensures CountStatus(records, s) == |With(records, {s})|
  {
    if records == [] {
      assert With(records, {s}) == {};
    } else {
      var n := |records| - 1;
      CountIs(records[..n], s);
      assert With(records, {s}) == With(records[..n], {s}) + if records[n].status == s then {n} else {};
    }
  }

  lemma WithTwo(records: seq<Record>, s: Status, t: Status)
    requires s != t
    ensures |With(records, {s, t})| == |With(records, {s})| + |With(records, {t})|
  {
    assert With(records, {s, t}) == With(records, {s}) + With(records, {t});
    assert With(records, {s}) !! With(records, {t});
  }

  lemma {:induction false} StatusesPartition(records: seq<Record>)
    ensures CountStatus(records, Success) + CountStatus(records, Verified)
            + CountStatus(records, AlreadyExists) + CountStatus(records, Failed) == |records|
  {
    if records != [] { StatusesPartition(records[..|records| - 1]); }
  }

  lemma {:induction false} NoneCounted(records: seq<Record>, s: Status)
    ensures CountStatus(records, s) == 0 <==> forall i :: 0 <= i < |records| ==> records[i].status != s
  {
    if records != [] {
      var init := records[..|records| - 1];
      NoneCounted(init, s);
      assert forall i :: 0 <= i < |init| ==> init[i] == records[i];
    }
  }

  /** Each counter is the number of the records with its statuses, and the counters add up. */
  function GenerateSummary(records: seq<Record>): (s: Summary)
    ensures s.success == |With(records, {Success, Verified})|
    ensures s.alreadyExists == |With(records, {AlreadyExists})|
    ensures s.failed == |With(records, {Failed})|
    ensures s.success + s.alreadyExists + s.failed == s.total == |records|
    ensures s.records == records
  {
    StatusesPartition(records);
    CountIs(records, Success);
    CountIs(records, Verified);
    CountIs(records, AlreadyExists);
    CountIs(records, Failed);
    WithTwo(records, Success, Verified);
    Summary(|records|, CountStatus(records, Success) + CountStatus(records, Verified),
            CountStatus(records, AlreadyExists), CountStatus(records, Failed), records)
  }

  // ----- one run -----

  /** The log of a run over `plan`: a prefix of the plan in which nothing but the last attempt can
      have failed, and which stops early only at a failure. */
  ghost predicate IsLog(plan: seq<Entry>, cargo: nat -> CargoResult, log: seq<Record>) {
    && |log| <= |plan|
    && (forall i :: 0 <= i < |log| ==> log[i] == Record(plan[i].crate, PublishCrate(plan[i].crate, cargo(i))))
    && (forall i :: 0 <= i < |log| - 1 ==> log[i].status != Failed)
    && (|log| < |plan| ==> log != [] && log[|log| - 1].status == Failed)
  }

  ghost predicate SomeFailed(log: seq<Record>) {
    exists i :: 0 <= i < |log| && log[i].status == Failed
  }

  /** The records after publishing: as logged, but a success becomes verified if and only if
      verification takes place and finds the crate. */
  ghost predicate AreVerified(log: seq<Record>, takesPlace: bool, found: nat -> bool, records: seq<Record>) {
    && |records| == |log|
    && forall i :: 0 <= i < |log| ==>
         && records[i].crateName == log[i].crateName
         && (if takesPlace && found(i) && log[i].status == Success then records[i].status == Verified
             else records[i].status == log[i].status)
  }

  /** Publishes `plan` in order. `cargo` is how the i-th attempt ends and `found` whether the i-th
      crate is found in the index afterwards. */
  method PublishAll(plan: seq<Entry>, dryRun: bool, cargo: nat -> CargoResult, found: nat -> bool) returns (run: Run)
    ensures IsLog(plan, cargo, run.auditLog)
    ensures AreVerified(run.auditLog, !dryRun && !SomeFailed(run.auditLog), found, run.records)
    ensures run.summary == GenerateSummary(run.records)
    ensures run.exitCode == if SomeFailed(run.auditLog) then 21 else 0
    ensures run.summary.failed == if SomeFailed(run.auditLog) then 1 else 0
  {
    hide CountStatus;
    var records: seq<Record> := [];
    var auditLog: seq<Record> := [];
    var i := 0;
    while i < |plan|
      invariant 0 <= i <= |plan|
      invariant records == auditLog && LogSoFar(plan, cargo, i, auditLog)
    {
      var status := PublishCrate(plan[i].crate, cargo(i));
      var record := Record(plan[i].crate, status);
      ghost var before := auditLog;
      auditLog := auditLog + [record];
      records := records + [record];
      if status == Failed {
        OneFailed(before, record);
        return Run(records, auditLog, GenerateSummary(records), 21);
      }
      i := i + 1;
    }

    if !dryRun {
      records := Verify(auditLog, found);
    }
    NoneCounted(records, Failed);
    var summary := GenerateSummary(records);
    return Run(records, auditLog, summary, if summary.failed > 0 then 21 else 0);
  }

  /** The first `i` crates were attempted, and none failed. */
  ghost predicate LogSoFar(plan: seq<Entry>, cargo: nat -> CargoResult, i: nat, log: seq<Record>)
    requires i <= |plan|
  {
    && |log| == i
    && (forall k :: 0 <= k < i ==> log[k] == Record(plan[k].crate, PublishCrate(plan[k].crate, cargo(k))))
    && (forall k :: 0 <= k < i ==> log[k].status != Failed)
  }

  /** The pass over the records after publishing. */
  method Verify(auditLog: seq<Record>, found: nat -> bool) returns (records: seq<Record>)
    requires forall k :: 0 <= k < |auditLog| && auditLog[k].status == Success ==> NameAllowed(auditLog[k].crateName)
    ensures AreVerified(auditLog, true, found, records)
  {
    records := auditLog;
    var i := 0;
    while i < |records|
      invariant 0 <= i <= |records| == |auditLog|
      invariant AreVerified(auditLog[..i], true, found, records[..i])
      invariant forall k :: i <= k < |records| ==> records[k] == auditLog[k]
    {
      if records[i].status == Success {
        if NameAllowed(records[i].crateName) && found(i) {
          records := records[i := records[i].(status := Verified)];
        }
      }
      i := i + 1;
    }
  }

  lemma OneFailed(before: seq<Record>, last: Record)
    requires last.status == Failed && forall k :: 0 <= k < |before| ==> before[k].status != Failed
    ensures CountStatus(before + [last], Failed) == 1
  {
    NoneCounted(before, Failed);
    assert (before + [last])[..|before|] == before;
  }

  // ----- safety of a run -----

  /** The positions in the plan of the entries that are not skipped. */
  ghost predicate KeptAt(order: seq<Entry>, skip: seq<string>, at: seq<nat>) {
    && (forall i :: 0 <= i < |at| ==> at[i] < |order|)
    && (forall i, j :: 0 <= i < j < |at| ==> at[i] < at[j])
    && (forall k :: 0 <= k < |order| ==> (order[k].crate !in skip <==> k in at))
  }

  lemma KeptAtNext(order: seq<Entry>, skip: seq<string>, n: nat, at: seq<nat>)
    requires n < |order| && KeptAt(order[..n], skip, at)
    ensures KeptAt(order[..n + 1], skip, at + if order[n].crate in skip then [] else [n])
  {
    var init := order[..n];
    forall k | 0 <= k < n ensures order[k].crate !in skip <==> k in at { assert init[k] == order[k]; }
  }

  /** The filter takes the entries that are not skipped, all of them, each once and in plan order. */
  lemma {:induction false} KeptPositions(order: seq<Entry>, skip: seq<string>) returns (at: seq<nat>)
    ensures KeptAt(order, skip, at) && |at| == |ToPublish(order, skip)|
    ensures forall i :: 0 <= i < |at| ==> ToPublish(order, skip)[i] == order[at[i]]
  {
    at := [];
    if order != [] {
      var n := |order| - 1;
      var init := KeptPositions(order[..n], skip);
      KeptAtNext(order, skip, n, init);
      assert order[..n + 1] == order;
      at := init + if order[n].crate in skip then [] else [n];
    }
  }

  /** Filtering keeps the order: what stood earlier in the plan and is not skipped comes earlier. */
  lemma {:induction false} KeptEarlier(order: seq<Entry>, skip: seq<string>, i: nat) returns (a: nat)
    requires i < |ToPublish(order, skip)|
    ensures a < |order| && order[a] == ToPublish(order, skip)[i]
    ensures forall k :: 0 <= k < a && order[k].crate !in skip ==> order[k] in ToPublish(order, skip)[..i]
  {
    var n := |order| - 1;
    var init := order[..n];
    var kept := ToPublish(init, skip);
    if i < |kept| {
      a := KeptEarlier(init, skip, i);
      assert kept[..i] == ToPublish(order, skip)[..i];
      assert forall k :: 0 <= k < a ==> init[k] == order[k];
    } else {
      a := n;
      assert kept == ToPublish(order, skip)[..i];
      forall k | 0 <= k < a && order[k].crate !in skip ensures order[k] in kept {
        KeptIn(init, skip, k);
        assert init[k] == order[k];
      }
    }
  }

  lemma {:induction false} KeptIn(order: seq<Entry>, skip: seq<string>, k: nat)
    requires k < |order| && order[k].crate !in skip
    ensures order[k] in ToPublish(order, skip)
  {
    if k < |order| - 1 {
      KeptIn(order[..|order| - 1], skip, k);
    }
  }

  /** What is published is exactly what is planned and not skipped. */
  lemma {:induction false} PublishedAre(order: seq<Entry>, skip: seq<string>, e: Entry)
    ensures e in ToPublish(order, skip) <==> e in order && e.crate !in skip
  {
    if order != [] {
      var n := |order| - 1;
      PublishedAre(order[..n], skip, e);
      assert e in order <==> e in order[..n] || e == order[n];
    }
  }

  /** Record `j` is for crate `d` and did not fail. */
  ghost predicate Handled(log: seq<Record>, j: nat, d: string) {
    j < |log| && log[j].crateName == d && log[j].status != Failed
  }

  /** `need(n, d)`: crate `n` needs crate `d`. */
  type Relation = (string, string) -> bool

  /** The direct dependencies. */
  ghost function DependsOn(g: Dag): Relation {
    (n, d) => d in g.Deps(n)
  }

  /** Some dependency path leads from `n` down to `d`. */
  ghost predicate IsBelow(g: Dag, n: string, d: string) {
    exists p, k :: PathDown(g, p, k, n, d)
  }

  /** Path `p` starts at `n` and is at `d` after `k` steps. */
  ghost predicate PathDown(g: Dag, p: seq<string>, k: nat, n: string, d: string) {
    IsPath(g, p) && 0 < k < |p| && p[0] == n && p[k] == d
  }

  /** All dependencies, direct and indirect. */
  ghost function Needs(g: Dag): Relation {
    (n, d) => IsBelow(g, n, d)
  }

  lemma DirectIsBelow(g: Dag, n: string, d: string)
    requires d in g.Deps(n)
    ensures IsBelow(g, n, d)
  {
    assert Linked(g, [n, d], 0);
    assert PathDown(g, [n, d], 1, n, d);
  }

  /** When a crate was attempted, everything it needs that is not skipped had been attempted before
      and had not failed. */
  ghost predicate SafeLog(need: Relation, skip: seq<string>, log: seq<Record>) {
    forall i, d :: 0 <= i < |log| && need(log[i].crateName, d) && d !in skip ==>
      exists j :: 0 <= j < i && Handled(log, j, d)
  }

  /** Every crate of the graph that is not skipped has been handled. */
  ghost predicate CompleteLog(g: Dag, skip: seq<string>, log: seq<Record>) {
    forall n :: n in g.deps && n !in skip ==> exists j :: Handled(log, j, n)
  }

  /** In an order with dependencies first, all that lies on a path below an entry's crate has an earlier
      entry. */
  lemma {:induction false} PathIsEarlier(g: Dag, order: seq<Entry>, a: nat, p: seq<string>, k: nat)
    requires OrdersDependencies(g, order) && a < |order|
    requires IsPath(g, p) && p[0] == order[a].crate && 0 < k < |p|
    ensures EarlierEntry(order, a, p[k])
  {
    assert Linked(g, p, k - 1);
    if k > 1 {
      PathIsEarlier(g, order, a, p, k - 1);
      var b :| 0 <= b < a && order[b].crate == p[k - 1];
      assert EarlierEntry(order, b, p[k]);
    }
  }

  /** What stands before an attempted entry and is not skipped has been handled. */
  lemma EarlierIsHandled(order: seq<Entry>, skip: seq<string>, cargo: nat -> CargoResult, log: seq<Record>, i: nat)
    returns (a: nat)
    requires IsLog(ToPublish(order, skip), cargo, log) && i < |log|
    ensures a < |order| && order[a].crate == log[i].crateName
    ensures forall d :: EarlierEntry(order, a, d) && d !in skip ==> exists j :: 0 <= j < i && Handled(log, j, d)
  {
    var plan := ToPublish(order, skip);
    a := KeptEarlier(order, skip, i);
    forall d | EarlierEntry(order, a, d) && d !in skip ensures exists j :: 0 <= j < i && Handled(log, j, d) {
      var k :| 0 <= k < a && order[k].crate == d;
      assert order[k] in plan[..i];
      var j :| 0 <= j < i && plan[j] == order[k];
      assert Handled(log, j, d);
    }
  }

  /** A run over an order with dependencies first is safe, wherever it stops: every crate on any
      dependency path below an attempted crate has been handled before it, also when the path leads
      through skipped crates. In particular no crate is attempted after anything it needs has failed. */
  lemma TransitivelyHandled(g: Dag, order: seq<Entry>, skip: seq<string>, cargo: nat -> CargoResult, log: seq<Record>)
    requires OrdersDependencies(g, order) && IsLog(ToPublish(order, skip), cargo, log)
    ensures SafeLog(Needs(g), skip, log)
  {
    hide IsLog, OrdersDependencies;
    forall i, d | 0 <= i < |log| && Needs(g)(log[i].crateName, d) && d !in skip
      ensures exists j :: 0 <= j < i && Handled(log, j, d)
    {
      var a := EarlierIsHandled(order, skip, cargo, log, i);
      var p, k :| PathDown(g, p, k, log[i].crateName, d);
      PathIsEarlier(g, order, a, p, k);
    }
  }

  /** In particular the direct dependencies. */
  lemma DependenciesHandled(g: Dag, order: seq<Entry>, skip: seq<string>, cargo: nat -> CargoResult, log: seq<Record>)
    requires OrdersDependencies(g, order) && IsLog(ToPublish(order, skip), cargo, log)
    ensures SafeLog(DependsOn(g), skip, log)
  {
    hide IsLog, OrdersDependencies, IsBelow;
    TransitivelyHandled(g, order, skip, cargo, log);
    forall i, d | 0 <= i < |log| && DependsOn(g)(log[i].crateName, d) ensures Needs(g)(log[i].crateName, d) {
      DirectIsBelow(g, log[i].crateName, d);
    }
  }

  /** A run without failure has handled every crate of the graph that is not skipped. */
  lemma CompleteRunHandlesAll(g: Dag, order: seq<Entry>, skip: seq<string>, cargo: nat -> CargoResult, log: seq<Record>)
    requires HoldsAll(g, order) && IsLog(ToPublish(order, skip), cargo, log) && !SomeFailed(log)
    ensures CompleteLog(g, skip, log)
  {
    forall n | n in g.deps && n !in skip ensures exists j :: Handled(log, j, n) {
      assert EarlierEntry(order, |order|, n);
      var a :| 0 <= a < |order| && order[a].crate == n;
      KeptIn(order, skip, a);
      var j :| 0 <= j < |ToPublish(order, skip)| && ToPublish(order, skip)[j] == order[a];
      assert |log| == |ToPublish(order, skip)|;
      assert Handled(log, j, n);
    }
  }

  // ----- the order file between the two scripts -----

  /** What lies in the file that the planner writes and the publisher reads. */
  datatype OrderFile = Missing | Unreadable | Holds(entries: seq<Entry>)

  /** The directory of the two scripts. The planner leaves its plan in a file, and the publisher
      works through whatever that file holds; it never looks at the workspace itself. */
  class ReleaseDirectory {
    var orderFile: OrderFile

    constructor (file: OrderFile)
      ensures orderFile == file
    {
      orderFile := file;
    }

    /** A run of the planner. Unless an earlier step ends it with an exit code, it replaces the file
        by a plan of the workspace; a cyclic workspace leaves the file as it was. */
    method RunPrepare(crates: seq<Crate>, earlier: Option<nat>) returns (exitCode: nat)
      modifies this
      ensures earlier.Some? ==> exitCode == earlier.value && orderFile == old(orderFile)
      ensures earlier.None? && HasCycle(DagOf(crates)) ==> exitCode == 13 && orderFile == old(orderFile)
      ensures earlier.None? && !HasCycle(DagOf(crates)) ==>
        exitCode == 0 && orderFile.Holds? && IsPlan(DagOf(crates), orderFile.entries)
    {
      hide IsPlan, HasCycle, DagOf;
      if earlier.Some? { return earlier.value; }
      var prepared := Prepare(crates);
      if prepared.CycleFound? { return 13; }
      orderFile := Holds(prepared.entries);
      exitCode := 0;
    }

    /** A run of the publisher. If the file holds a plan of a workspace, the run is safe for that
        workspace, and complete when it ends with exit code 0. */
    method RunExecute(skip: seq<string>, dryRun: bool, hasToken: bool, loggedIn: bool,
                      cargo: nat -> CargoResult, found: nat -> bool)
      returns (exitCode: nat, log: seq<Record>)
      ensures exitCode == if !hasToken then 20 else if !orderFile.Holds? then 1
                          else if !dryRun && !loggedIn then 20 else if SomeFailed(log) then 21 else 0
      ensures exitCode in {1, 20} ==> log == []
      ensures exitCode in {0, 21} ==> IsLog(ToPublish(orderFile.entries, skip), cargo, log)
      ensures orderFile.Holds? ==> forall crates :: IsPlan(DagOf(crates), orderFile.entries) ==>
        && SafeLog(Needs(DagOf(crates)), skip, log)
        && (exitCode == 0 ==> CompleteLog(DagOf(crates), skip, log))
    {
      hide IsPlan, DagOf, IsLog, CompleteLog, SomeFailed, OrdersDependencies, HoldsAll;
      log := [];
      if !hasToken { return 20, log; }
      if !orderFile.Holds? { return 1, log; }
      var plan := ToPublish(orderFile.entries, skip);
      if !dryRun && !loggedIn { return 20, log; }
      var run := PublishAll(plan, dryRun, cargo, found);
      exitCode, log := run.exitCode, run.auditLog;
      forall crates | IsPlan(DagOf(crates), orderFile.entries)
        ensures SafeLog(Needs(DagOf(crates)), skip, log)
        ensures exitCode == 0 ==> CompleteLog(DagOf(crates), skip, log)
      {
        DagIsClosed(crates);
        PlanIsComplete(DagOf(crates), orderFile.entries);
        TransitivelyHandled(DagOf(crates), orderFile.entries, skip, cargo, log);
        if exitCode == 0 { CompleteRunHandlesAll(DagOf(crates), orderFile.entries, skip, cargo, log); }
      }
    }
  }

  // ----- a file that was written for another workspace -----

  /** The names before position `i` may be published. */
  ghost predicate AllowedBefore(plan: seq<Entry>, i: nat) {
    forall m :: 0 <= m < i && m < |plan| ==> NameAllowed(plan[m].crate)
  }

  /** Whatever can be attempted comes after all that it needs and that is not skipped. */
  ghost predicate OrdersAttempts(need: Relation, plan: seq<Entry>, skip: seq<string>) {
    forall i, d :: 0 <= i < |plan| && AllowedBefore(plan, i) && need(plan[i].crate, d) && d !in skip ==>
      EarlierEntry(plan, i, d)
  }

  /** Every run over `plan` is safe, however its attempts end. */
  ghost predicate AllRunsSafe(need: Relation, plan: seq<Entry>, skip: seq<string>) {
    forall cargo, log :: IsLog(plan, cargo, log) ==> SafeLog(need, skip, log)
  }

  /** The first forbidden name from `i` on, or the end of the plan. */
  function FirstForbidden(plan: seq<Entry>, i: nat): (r: nat)
    requires i <= |plan|
    ensures i <= r <= |plan| && (r < |plan| ==> !NameAllowed(plan[r].crate))
    ensures forall m :: i <= m < r ==> NameAllowed(plan[m].crate)
    decreases |plan| - i
  {
    if i < |plan| && NameAllowed(plan[i].crate) then FirstForbidden(plan, i + 1) else i
  }

  /** When all calls succeed, every position behind allowed names is attempted. */
  lemma PositionIsAttempted(plan: seq<Entry>, i: nat) returns (log: seq<Record>)
    requires i < |plan| && AllowedBefore(plan, i)
    ensures IsLog(plan, k => Completed(false), log) && i < |log|
  {
    var stop := FirstForbidden(plan, i);
    var n := if stop < |plan| then stop + 1 else stop;
    log := seq(n, k requires 0 <= k < n => Record(plan[k].crate, PublishCrate(plan[k].crate, Completed(false))));
  }

  /** Exactly when the runs over an order file are safe for a workspace, whether or not the file was
      written for it. `need` may be its direct dependencies or all of them. */
  lemma SafeForIff(need: Relation, plan: seq<Entry>, skip: seq<string>)
    ensures AllRunsSafe(need, plan, skip) <==> OrdersAttempts(need, plan, skip)
  {
    if AllRunsSafe(need, plan, skip) {
      forall i, d | 0 <= i < |plan| && AllowedBefore(plan, i) && need(plan[i].crate, d) && d !in skip
        ensures EarlierEntry(plan, i, d)
      {
        var log := PositionIsAttempted(plan, i);
        assert SafeLog(need, skip, log);
        var j :| 0 <= j < i && Handled(log, j, d);
        assert plan[j].crate == d;
      }
    }
    if OrdersAttempts(need, plan, skip) {
      forall cargo, log | IsLog(plan, cargo, log) ensures SafeLog(need, skip, log) {
        OrderedAttemptsSafe(need, plan, skip, cargo, log);
      }
    }
  }

  lemma OrderedAttemptsSafe(need: Relation, plan: seq<Entry>, skip: seq<string>, cargo: nat -> CargoResult,
      log: seq<Record>)
    requires OrdersAttempts(need, plan, skip) && IsLog(plan, cargo, log)
    ensures SafeLog(need, skip, log)
  {
    forall i, d | 0 <= i < |log| && need(log[i].crateName, d) && d !in skip
      ensures exists j :: 0 <= j < i && Handled(log, j, d)
    {
      assert EarlierEntry(plan, i, d);
      var j :| 0 <= j < i && plan[j].crate == d;
      assert Handled(log, j, d);
    }
  }

  /** A file stays good for a workspace that has lost dependencies or crates: only what the planned
      crates did not need, directly or indirectly, can be out of order. */
  lemma LostDependenciesStaySafe(g: Dag, need: Relation, order: seq<Entry>, skip: seq<string>)
    requires OrdersDependencies(g, order)
    requires forall e, d :: e in order && need(e.crate, d) && d !in skip ==> IsBelow(g, e.crate, d)
    ensures AllRunsSafe(need, ToPublish(order, skip), skip)
  {
    hide OrdersDependencies, IsBelow;
    var plan := ToPublish(order, skip);
    forall cargo: nat -> CargoResult, log: seq<Record> | IsLog(plan, cargo, log) ensures SafeLog(need, skip, log) {
      TransitivelyHandled(g, order, skip, cargo, log);
      forall i, d | 0 <= i < |log| && need(log[i].crateName, d) && d !in skip
        ensures exists j :: 0 <= j < i && Handled(log, j, d)
      {
        PublishedAre(order, skip, plan[i]);
        assert Needs(g)(log[i].crateName, d);
      }
    }
  }

  /** A workspace of two crates, of which the first has the given dependencies. */
  function TwoCrates(x: string, y: string, deps: seq<string>): seq<Crate> {
    [Crate(true, true, x, x, deps), Crate(true, true, y, y, [])]
  }

  lemma TwoCratesDag(x: string, y: string, deps: seq<string>, n: string, d: string)
    ensures n in DagOf(TwoCrates(x, y, deps)).deps <==> n == x || n == y
    ensures x != y ==>
      (d in DagOf(TwoCrates(x, y, deps)).Deps(n) <==> n == x && d in deps && (d == x || d == y))
  {
    hide DagOf;
    var crates := TwoCrates(x, y, deps);
    assert crates[0].Published() && crates[0].Name() == x && crates[1].Published() && crates[1].Name() == y;
    DagMeaning(crates, n, d);
    DagMeaning(crates, d, d);
    assert crates[0] in crates && crates[1] in crates;
    assert Declared(crates, n, d) <==> Declares(crates[0], n, d) || Declares(crates[1], n, d);
  }

  lemma HasElement<T>(s: seq<T>)
    requires s != []
    ensures exists x :: x in s
  {
    assert s[0] in s;
  }

  /** The plan of two independent crates. */
  lemma TwoCratesPlan(x: string, y: string, order: seq<Entry>)
    requires Less(x, y) && order == [Entry(x, 0, [], 1), Entry(y, 0, [], 2)]
    ensures IsPlan(DagOf(TwoCrates(x, y, [])), order)
  {
    var g, sorted := DagOf(TwoCrates(x, y, [])), [x, y];
    hide DagOf, Leq, IsLayer;
    forall n ensures n in g.deps <==> n == x || n == y { TwoCratesDag(x, y, [], n, n); }
    forall n, d ensures d !in g.Deps(n) { TwoCratesDag(x, y, [], n, d); }
    if g.Deps(x) != [] { HasElement(g.Deps(x)); }
    if g.Deps(y) != [] { HasElement(g.Deps(y)); }
    LeafLayer(g, x);
    LeafLayer(g, y);
    assert IsEntry(g, sorted, 0, order[0]) && IsEntry(g, sorted, 1, order[1]);
    LeqReflexive(x);
    LeqReflexive(y);
    assert sorted[..0] == [] && sorted[..1] == [x];
    assert LeastReady(g, sorted, 0) && LeastReady(g, sorted, 1);
    assert IsPlanFor(g, sorted, order);
  }

  /** A gained dependency can be out of order: the plan of two independent crates publishes `x` before
      `y`, also after `x` has come to depend on `y`. The workspace is acyclic before and after. */
  lemma GainedDependencyIsMissed(x: string, y: string, order: seq<Entry>)
    requires Less(x, y) && order == [Entry(x, 0, [], 1), Entry(y, 0, [], 2)]
    ensures IsPlan(DagOf(TwoCrates(x, y, [])), order)
    ensures !HasCycle(DagOf(TwoCrates(x, y, [y])))
    ensures !AllRunsSafe(DependsOn(DagOf(TwoCrates(x, y, [y]))), ToPublish(order, []), [])
  {
    TwoCratesPlan(x, y, order);
    var g := DagOf(TwoCrates(x, y, [y]));
    hide DagOf, IsPlan, HasCycle;
    forall n ensures n in g.deps <==> n == x || n == y { TwoCratesDag(x, y, [y], n, n); }
    forall n, d ensures d in g.Deps(n) <==> n == x && d == y { TwoCratesDag(x, y, [y], n, d); }
    TwoCratesAcyclic(g, x, y);
    var plan := ToPublish(order, []);
    NothingSkipped(order);
    SafeForIff(DependsOn(g), plan, []);
    assert AllowedBefore(plan, 0) && DependsOn(g)(plan[0].crate, y) && !EarlierEntry(plan, 0, y);
  }

  lemma TwoCratesAcyclic(g: Dag, x: string, y: string)
    requires x != y && forall n :: n in g.deps <==> n == x || n == y
    requires forall n, d :: d in g.Deps(n) <==> n == x && d == y
    ensures !HasCycle(g)
  {
    var s := [y, x];
    assert s[..0] == [] && s[..1] == [y];
    assert Ready(g, s[0], s[..0]) && Ready(g, s[1], s[..1]);
    OrderOfAllIsAcyclic(g, s);
  }

  lemma {:induction false} NothingSkipped(order: seq<Entry>)
    ensures ToPublish(order, []) == order
  {
    if order != [] { NothingSkipped(order[..|order| - 1]); }
  }
}
