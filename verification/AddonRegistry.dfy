/** The plugin registry: a map from names to manifests, its sorted views, and directory loading. */
module AddonRegistry {
  import opened Names
  import Sorting
  import PhpManifest

  type Manifest = PhpManifest.Manifest

  datatype Error = AlreadyRegistered(name: string) | NotFound(name: string) | ParseFailed(reason: string)

  datatype Outcome<+T> = Ok(value: T) | Err(error: Error)

  // ----- sorted views -----

  /** `s` lists the names in `keys`, each once, in ascending order. */
  ghost predicate IsListing(s: seq<string>, keys: set<string>) {
    && (forall i, j :: 0 <= i < j < |s| ==> Less(s[i], s[j]))
    && (forall k :: k in s <==> k in keys)
  }

  lemma {:induction false} ListingMultiset(s: seq<string>, keys: set<string>)
    requires IsListing(s, keys)
    ensures multiset(s) == multiset(keys) && Sorted(s)
  {
    if s == [] {
      assert keys == {};
    } else {
      var n := |s| - 1;
      assert s == s[..n] + [s[n]];
      assert s[n] in s;
      ListingMultiset(s[..n], keys - {s[n]});
      assert multiset(keys) == multiset(keys - {s[n]}) + multiset{s[n]};
      assert multiset(s) == multiset(s[..n]) + multiset{s[n]};
    }
  }

  /** A sorted view is determined by the contents, whatever the iteration order of the hash map. */
  lemma ListingUnique(s: seq<string>, t: seq<string>, keys: set<string>)
    requires IsListing(s, keys) && IsListing(t, keys)
    ensures s == t
  {
    ListingMultiset(s, keys);
    ListingMultiset(t, keys);
    SortedUnique(s, t);
  }

  ghost predicate KeysAreNames(manifests: map<string, Manifest>) {
    forall k :: k in manifests ==> manifests[k].name == k
  }

  ghost function NamesOf(list: seq<Manifest>): seq<string> {
    seq(|list|, i requires 0 <= i < |list| => list[i].name)
  }

  datatype Filter = AnyStatus | EnabledOnly | DisabledOnly

  predicate Wants(f: Filter, m: Manifest) {
    match f
    case AnyStatus => true
    case EnabledOnly => m.IsEnabled()
    case DisabledOnly => !m.IsEnabled()
  }

  /** `list` holds the manifests whose status is as asked for, each once, ordered by name. */
  ghost predicate IsView(list: seq<Manifest>, manifests: map<string, Manifest>, want: Filter) {
    && (forall i :: 0 <= i < |list| ==>
          list[i].name in manifests && manifests[list[i].name] == list[i] && Wants(want, list[i]))
    && IsListing(NamesOf(list), set k | k in manifests && Wants(want, manifests[k]))
  }

  lemma ViewUnique(s: seq<Manifest>, t: seq<Manifest>, manifests: map<string, Manifest>, want: Filter)
    requires IsView(s, manifests, want) && IsView(t, manifests, want)
    ensures s == t
  {
    ListingUnique(NamesOf(s), NamesOf(t), set k | k in manifests && Wants(want, manifests[k]));
    assert |s| == |NamesOf(s)| == |NamesOf(t)| == |t|;
    forall i | 0 <= i < |s| ensures s[i] == t[i] {
      assert NamesOf(s)[i] == NamesOf(t)[i];
    }
  }

  /** A plugin is in the enabled view if its status is not zero, and otherwise in the disabled one. */
  lemma EnabledDisabledPartition(manifests: map<string, Manifest>, enabled: seq<Manifest>,
      disabled: seq<Manifest>, k: string)
    requires IsView(enabled, manifests, EnabledOnly) && IsView(disabled, manifests, DisabledOnly)
    ensures k in NamesOf(enabled) <==> k in manifests && manifests[k].status != 0
    ensures k in NamesOf(disabled) <==> k in manifests && manifests[k].status == 0
  {
    assert k in NamesOf(enabled) <==> k in manifests && Wants(EnabledOnly, manifests[k]);
    assert k in NamesOf(disabled) <==> k in manifests && Wants(DisabledOnly, manifests[k]);
  }

  // ----- loading a directory -----

  /** What the scan meets, in the order in which the file system yields it. A directory comes with the
      result of parsing its manifest; the listing itself may break off. */
  datatype Item =
    | PlainFile
    | Unnamed
    | Directory(name: string, parsed: Outcome<Manifest>)
    | ScanFailure

  predicate Visible(item: Item) {
    item.Directory? && (item.name == "" || item.name[0] != '.')
  }

  /** The number of items read before the listing breaks off. */
  function ReadBefore(items: seq<Item>): (n: nat)
    ensures n <= |items|
    ensures n < |items| ==> items[n].ScanFailure?
    ensures forall i :: 0 <= i < n ==> !items[i].ScanFailure?
  {
    if items == [] || items[0].ScanFailure? then 0 else 1 + ReadBefore(items[1..])
  }

  function LoadInto(m: map<string, Manifest>, items: seq<Item>): map<string, Manifest> {
    if items == [] then m else
      var item := items[|items| - 1];
      var before := LoadInto(m, items[..|items| - 1]);
      if Visible(item) && item.parsed.Ok? then before[item.parsed.value.name := item.parsed.value] else before
  }

  function LoadErrors(items: seq<Item>): seq<Error> {
    if items == [] then [] else
      var item := items[|items| - 1];
      LoadErrors(items[..|items| - 1]) + if Visible(item) && item.parsed.Err? then [item.parsed.error] else []
  }

  /** A directory whose name does not start with a dot. */
  ghost predicate IsLoaded(item: Item) {
    item.Directory? && !exists rest :: item.name == "." + rest
  }

  lemma VisibleIff(item: Item)
    ensures Visible(item) <==> IsLoaded(item)
  {
    if item.Directory? && item.name != "" && item.name[0] == '.' {
      assert item.name == "." + item.name[1..];
    }
  }

  /** Item `i` supplies the manifest named `k`. */
  ghost predicate Supplies(items: seq<Item>, i: nat, k: string) {
    i < |items| && IsLoaded(items[i]) && items[i].parsed.Ok? && items[i].parsed.value.name == k
  }

  lemma SuppliesInit(items: seq<Item>, i: nat, k: string)
    requires items != []
    ensures Supplies(items[..|items| - 1], i, k) <==> i < |items| - 1 && Supplies(items, i, k)
  {
  }

  /** A name that no directory supplies keeps what was registered under it. */
  lemma {:induction false} NoSupplierKeeps(m: map<string, Manifest>, items: seq<Item>, k: string)
    requires forall i: nat :: !Supplies(items, i, k)
    ensures k in LoadInto(m, items) <==> k in m
    ensures k in m ==> LoadInto(m, items)[k] == m[k]
    decreases |items|
  {
    if items != [] {
      var init := items[..|items| - 1];
      forall i: nat ensures !Supplies(init, i, k) {
        SuppliesInit(items, i, k);
      }
      NoSupplierKeeps(m, init, k);
      VisibleIff(items[|items| - 1]);
      assert !Supplies(items, |items| - 1, k);
    }
  }

  /** The last directory that supplies a name decides what is registered under it. */
  lemma {:induction false} LastSupplierWins(m: map<string, Manifest>, items: seq<Item>, i: nat, k: string)
    requires Supplies(items, i, k) && forall j: nat :: i < j ==> !Supplies(items, j, k)
    ensures k in LoadInto(m, items) && LoadInto(m, items)[k] == items[i].parsed.value
    decreases |items|
  {
    var n := |items| - 1;
    VisibleIff(items[n]);
    if i < n {
      forall j: nat | i < j ensures !Supplies(items[..n], j, k) {
        SuppliesInit(items, j, k);
      }
      LastSupplierWins(m, items[..n], i, k);
      assert !Supplies(items, n, k);
    }
  }

  function CountVisible(items: seq<Item>): nat {
    if items == [] then 0 else CountVisible(items[..|items| - 1]) + if Visible(items[|items| - 1]) then 1 else 0
  }

  function CountLoaded(items: seq<Item>): nat {
    if items == [] then 0 else
      CountLoaded(items[..|items| - 1]) + if Visible(items[|items| - 1]) && items[|items| - 1].parsed.Ok? then 1 else 0
  }

  /** Each visible directory yields exactly one update or one error. */
  lemma {:induction false} OneOutcomeEach(items: seq<Item>)
    ensures CountLoaded(items) + |LoadErrors(items)| == CountVisible(items)
  {
    if items != [] { OneOutcomeEach(items[..|items| - 1]); }
  }

  ghost predicate CannotLoad(item: Item) {
    IsLoaded(item) && item.parsed.Err?
  }

  /** The positions of the directories whose manifest could not be read. */
  ghost predicate FailedAt(items: seq<Item>, at: seq<nat>) {
    && (forall i :: 0 <= i < |at| ==> at[i] < |items|)
    && (forall i, j :: 0 <= i < j < |at| ==> at[i] < at[j])
    && (forall k :: 0 <= k < |items| ==> (CannotLoad(items[k]) <==> k in at))
  }

  lemma FailedAtNext(items: seq<Item>, n: nat, at: seq<nat>)
    requires n < |items| && FailedAt(items[..n], at)
    ensures FailedAt(items[..n + 1], at + if CannotLoad(items[n]) then [n] else [])
  {
    hide CannotLoad;
    forall k | 0 <= k < n ensures CannotLoad(items[k]) <==> k in at {
      assert items[..n][k] == items[k];
    }
  }

  /** `errors` are those of the directories at these positions. */
  ghost predicate ErrorsOf(items: seq<Item>, at: seq<nat>, errors: seq<Error>) {
    && |at| == |errors|
    && forall i :: 0 <= i < |at| ==>
         at[i] < |items| && items[at[i]].Directory? && items[at[i]].parsed == Err(errors[i])
  }

  lemma ErrorsNext(items: seq<Item>, n: nat, at: seq<nat>, errors: seq<Error>)
    requires n < |items| && ErrorsOf(items[..n], at, errors)
    ensures ErrorsOf(items[..n + 1], at, errors)
    ensures CannotLoad(items[n]) ==> ErrorsOf(items[..n + 1], at + [n], errors + [items[n].parsed.error])
  {
    var init, more := items[..n], items[..n + 1];
    assert more[n] == items[n];
    forall i | 0 <= i < |at| ensures at[i] < n && more[at[i]] == init[at[i]] {
    }
  }

  /** One error for each of these directories, in the order of the listing. */
  lemma {:induction false} ErrorPositions(items: seq<Item>) returns (at: seq<nat>)
    ensures FailedAt(items, at) && ErrorsOf(items, at, LoadErrors(items))
  {
    if items == [] {
      at := [];
    } else {
      var n := |items| - 1;
      at := ErrorPositions(items[..n]);
      hide IsLoaded, FailedAt, ErrorsOf;
      assert items[..n + 1] == items;
      FailedAtNext(items, n, at);
      ErrorsNext(items, n, at, LoadErrors(items[..n]));
      VisibleIff(items[n]);
      if CannotLoad(items[n]) {
        at := at + [n];
      } else {
        assert at + [] == at;
      }
    }
  }

  datatype LoadResult = Loaded(errors: seq<Error>) | ScanDirFailed

  // ----- the registry -----

  class Registry {
    var manifests: map<string, Manifest>

    /** In every reachable state each plugin is filed under its own name. */
    ghost predicate Valid()
      reads this
    {
      KeysAreNames(manifests)
    }

    constructor ()
      ensures Valid() && manifests == map[]
    {
      manifests := map[];
    }

    /** Registers a plugin, but never replaces one. */
    method Register(m: Manifest) returns (r: Outcome<()>)
      requires Valid()
      modifies this
      ensures Valid()
      ensures r.Ok? <==> m.name !in old(manifests)
      ensures manifests == if r.Ok? then old(manifests)[m.name := m] else old(manifests)
      ensures r.Err? ==> r.error == AlreadyRegistered(m.name)
    {
      if m.name in manifests {
        return Err(AlreadyRegistered(m.name));
      }
      manifests := manifests[m.name := m];
      return Ok(());
    }

    method Upsert(m: Manifest)
      requires Valid()
      modifies this
      ensures Valid() && manifests == old(manifests)[m.name := m]
    {
      manifests := manifests[m.name := m];
    }

    method Unregister(name: string) returns (removed: Option<Manifest>)
      requires Valid()
      modifies this
      ensures Valid() && manifests == old(manifests) - {name}
      ensures removed == if name in old(manifests) then Some(old(manifests)[name]) else None
    {
      removed := if name in manifests then Some(manifests[name]) else None;
      manifests := manifests - {name};
    }

    method Get(name: string) returns (r: Outcome<Manifest>)
      requires Valid()
      ensures r == if name in manifests then Ok(manifests[name]) else Err(NotFound(name))
      ensures r.Ok? ==> r.value.name == name
    {
      if name in manifests { return Ok(manifests[name]); }
      return Err(NotFound(name));
    }

    /** Changes the status of one plugin and nothing else. */
    method SetEnabled(name: string, enabled: bool) returns (r: Outcome<()>)
      requires Valid()
      modifies this
      ensures Valid() && manifests.Keys == old(manifests).Keys
      ensures r == if name in old(manifests) then Ok(()) else Err(NotFound(name))
      ensures forall k :: k in manifests ==>
        manifests[k] == if k == name then old(manifests)[k].(status := if enabled then 1 else 0) else old(manifests)[k]
      ensures r.Ok? ==> manifests[name].IsEnabled() == enabled
    {
      if name !in manifests {
        return Err(NotFound(name));
      }
      manifests := manifests[name := manifests[name].(status := if enabled then 1 else 0)];
      return Ok(());
    }

    method Clear()
      modifies this
      ensures Valid() && manifests == map[]
    {
      manifests := map[];
    }

    /** All names in ascending order. The loop takes the keys in any order. */
    method ListNames() returns (names: seq<string>)
      ensures IsListing(names, manifests.Keys)
    {
      names := [];
      var left := manifests.Keys;
      while left != {}
        invariant left <= manifests.Keys
        invariant Distinct(names) && forall k :: k in names <==> k in manifests.Keys - left
        decreases left
      {
        var k :| k in left;
        assert k !in names;
        left := left - {k};
        names := names + [k];
      }
      SortedListing(names, manifests.Keys);
      names := Sort(names);
    }

    /** The manifests with the wanted status, ordered by name. */
    method ListWhere(want: Filter) returns (list: seq<Manifest>)
      requires Valid()
      ensures IsView(list, manifests, want)
    {
      var names := ListNames();
      list := [];
      var i := 0;
      while i < |names|
        invariant 0 <= i <= |names|
        invariant list == Select(manifests, want, names[..i])
      {
        assert names[..i + 1][..i] == names[..i];
        assert names[i] in names;
        if Wants(want, manifests[names[i]]) {
          list := list + [manifests[names[i]]];
        }
        i := i + 1;
      }
      assert names[..i] == names;
      SelectIsView(manifests, want, names);
    }

    method All() returns (list: seq<Manifest>)
      requires Valid()
      ensures IsView(list, manifests, AnyStatus)
    {
      list := ListWhere(AnyStatus);
    }

    method EnabledAddons() returns (list: seq<Manifest>)
      requires Valid()
      ensures IsView(list, manifests, EnabledOnly)
    {
      list := ListWhere(EnabledOnly);
    }

    method DisabledAddons() returns (list: seq<Manifest>)
      requires Valid()
      ensures IsView(list, manifests, DisabledOnly)
    {
      list := ListWhere(DisabledOnly);
    }

    /** Loads every visible plugin directory. When the listing breaks off, the plugins read before
        stay registered although the load fails. */
    method LoadFromDirectory(items: seq<Item>) returns (r: LoadResult)
      requires Valid()
      modifies this
      ensures Valid()
      ensures manifests == LoadInto(old(manifests), items[..ReadBefore(items)])
      ensures r == if ReadBefore(items) < |items| then ScanDirFailed else Loaded(LoadErrors(items))
    {
      var errors: seq<Error> := [];
      var i := 0;
      ghost var n := ReadBefore(items);
      while i < |items|
        invariant 0 <= i <= n && Valid()
        invariant manifests == LoadInto(old(manifests), items[..i])
        invariant errors == LoadErrors(items[..i])
      {
        var item := items[i];
        assert items[..i + 1][..i] == items[..i];
        if item.ScanFailure? {
          assert i == n;
          return ScanDirFailed;
        }
        assert i < n;
        if item.Directory? && (item.name == "" || item.name[0] != '.') {
          match item.parsed {
            case Ok(m) => Upsert(m);
            case Err(e) => errors := errors + [e];
          }
        }
        i := i + 1;
      }
      assert items[..i] == items;
      return Loaded(errors);
    }
  }

  lemma SortedListing(names: seq<string>, keys: set<string>)
    requires Distinct(names) && forall k :: k in names <==> k in keys
    ensures IsListing(Sort(names), keys)
  {
    var s := Sort(names);
    SortIsSorted(names);
    Sorting.MemberOfPermutation(names, s);
    DistinctPermutation(names, s);
  }

  /** The wanted manifests among the listed names, in their order. */
  function Select(manifests: map<string, Manifest>, want: Filter, names: seq<string>): seq<Manifest> {
    if names == [] then [] else
      var name := names[|names| - 1];
      Select(manifests, want, names[..|names| - 1])
      + if name in manifests && Wants(want, manifests[name]) then [manifests[name]] else []
  }

  lemma {:induction false} Selected(manifests: map<string, Manifest>, want: Filter, names: seq<string>, m: Manifest)
    requires KeysAreNames(manifests)
    ensures m in Select(manifests, want, names) <==>
            m.name in names && m.name in manifests && manifests[m.name] == m && Wants(want, m)
  {
    if names != [] {
      var n := |names| - 1;
      Selected(manifests, want, names[..n], m);
      assert m.name in names <==> m.name in names[..n] || m.name == names[n];
    }
  }

  lemma {:induction false} SelectedAscending(manifests: map<string, Manifest>, want: Filter, names: seq<string>)
    requires KeysAreNames(manifests) && forall i, j :: 0 <= i < j < |names| ==> Less(names[i], names[j])
    ensures
      var s := Select(manifests, want, names);
      forall i, j :: 0 <= i < j < |s| ==> Less(s[i].name, s[j].name)
  {
    hide Less;
    if names != [] {
      var n := |names| - 1;
      var before := Select(manifests, want, names[..n]);
      SelectedAscending(manifests, want, names[..n]);
      forall i | 0 <= i < |before| ensures Less(before[i].name, names[n]) {
        Selected(manifests, want, names[..n], before[i]);
        var j :| 0 <= j < n && names[..n][j] == before[i].name;
      }
    }
  }

  lemma SelectIsView(manifests: map<string, Manifest>, want: Filter, names: seq<string>)
    requires KeysAreNames(manifests) && IsListing(names, manifests.Keys)
    ensures IsView(Select(manifests, want, names), manifests, want)
  {
    hide Less;
    var list := Select(manifests, want, names);
    SelectedAscending(manifests, want, names);
    forall i | 0 <= i < |list|
      ensures list[i].name in manifests && manifests[list[i].name] == list[i] && Wants(want, list[i])
    {
      Selected(manifests, want, names, list[i]);
    }
    var listed := NamesOf(list);
    var keys := set k | k in manifests && Wants(want, manifests[k]);
    forall k ensures k in listed <==> k in keys {
      if k in keys {
        Selected(manifests, want, names, manifests[k]);
        var i :| 0 <= i < |list| && list[i] == manifests[k];
        assert listed[i] == k;
      }
    }
  }
}
