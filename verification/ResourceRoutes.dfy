/** RESTful resource routes of a plugin, and a decoder that shows that no two of them collide. */
module ResourceRoutes {
  import opened Names
  import opened Text

  datatype Action = Index | Create | Edit | Read | Save | Update | Delete

  datatype HttpMethod = Get | Post | Put | DeleteMethod

  const ALL_ACTIONS: seq<Action> := [Index, Create, Edit, Read, Save, Update, Delete]

  function MethodOf(a: Action): HttpMethod {
    match a
    case Index | Create | Edit | Read => Get
    case Save => Post
    case Update => Put
    case Delete => DeleteMethod
  }

  function UrlSuffix(a: Action): string {
    match a
    case Index | Save => ""
    case Create => "/create"
    case Edit => "/<id>/edit"
    case Read | Update | Delete => "/<id>"
  }

  // ----- the URLs -----

  /** The placeholder for the id of a parent resource. */
  function ParentId(part: string): string {
    "<" + part + "_id>"
  }

  /** The path segments of a controller: each parent with its id placeholder, then the last part. */
  function Nest(parts: seq<string>): (r: seq<string>)
    requires parts != []
    ensures r != []
  {
    if |parts| == 1 then parts else [parts[0], ParentId(parts[0])] + Nest(parts[1..])
  }

  /** The path of a controller, below the addon. */
  function PathOf(controller: string): string {
    Join(Nest(Split(controller, '.')), '/')
  }

  function BaseUrl(addon: string, controller: string): string {
    "/addons/" + addon + "/" + PathOf(controller)
  }

  function Url(addon: string, controller: string, a: Action): string {
    BaseUrl(addon, controller) + UrlSuffix(a)
  }

  method BuildBaseUrl(addon: string, controller: string) returns (url: string)
    ensures url == BaseUrl(addon, controller)
  {
    if '.' !in controller {
      SplitWithout(controller, '.');
      return "/addons/" + addon + "/" + controller;
    }
    var parts := Split(controller, '.');
    var last := parts[|parts| - 1];
    ghost var all := parts;
    parts := parts[..|parts| - 1];
    var joined := "";
    var i := 0;
    while i < |parts|
      invariant 0 <= i <= |parts|
      invariant Join(Nest(all), '/') == joined + Join(Nest(all[i..]), '/')
    {
      NestStep(all, i);
      joined := joined + (parts[i] + "/" + ParentId(parts[i]) + "/");
      i := i + 1;
    }
    assert all[i..] == [last];
    joined := joined + last;
    return "/addons/" + addon + "/" + joined;
  }

  lemma NestStep(all: seq<string>, i: nat)
    requires i + 1 < |all|
    ensures Join(Nest(all[i..]), '/') == (all[i] + "/" + ParentId(all[i]) + "/") + Join(Nest(all[i + 1..]), '/')
  {
    var parts := all[i..];
    assert parts[1..] == all[i + 1..];
    var rest := Nest(all[i + 1..]);
    assert Nest(parts) == [all[i], ParentId(all[i])] + rest;
    assert Nest(parts)[1..] == [ParentId(all[i])] + rest;
    assert Nest(parts)[1..][1..] == rest;
  }

  // ----- the routes of one resource -----

  datatype Entry = Entry(action: Action, httpMethod: HttpMethod, url: string)

  datatype Options = Options(only: seq<Action>, except: seq<Action>) {
    predicate ShouldInclude(a: Action) {
      if only != [] && a !in only then false
      else if a in except then false
      else true
    }
  }

  datatype Route = Route(addon: string, controller: string, baseUrl: string, entries: seq<Entry>) {
    /** The entry of an action, if it was generated. */
    function Get(a: Action): Option<Entry> {
      FindEntry(entries, a)
    }
  }

  function FindEntry(entries: seq<Entry>, a: Action): (r: Option<Entry>)
    ensures r.Some? ==> r.value in entries && r.value.action == a
    ensures r.None? ==> forall e :: e in entries ==> e.action != a
  {
    if entries == [] then None
    else if entries[0].action == a then Some(entries[0])
    else FindEntry(entries[1..], a)
  }

  datatype RouteResult = Built(route: Route) | EmptyAddon | EmptyController

  function EntryOf(addon: string, controller: string, a: Action): Entry {
    Entry(a, MethodOf(a), Url(addon, controller, a))
  }

  /** The entries of the included actions among `actions`. */
  function EntriesOf(addon: string, controller: string, options: Options, actions: seq<Action>): seq<Entry> {
    if actions == [] then [] else
      var a := actions[|actions| - 1];
      EntriesOf(addon, controller, options, actions[..|actions| - 1])
      + if options.ShouldInclude(a) then [EntryOf(addon, controller, a)] else []
  }

  lemma {:induction false} EntriesAre(addon: string, controller: string, options: Options,
      actions: seq<Action>, e: Entry)
    ensures e in EntriesOf(addon, controller, options, actions) <==>
            e.action in actions && options.ShouldInclude(e.action) && e == EntryOf(addon, controller, e.action)
  {
    hide Url;
    if actions != [] {
      var n := |actions| - 1;
      EntriesAre(addon, controller, options, actions[..n], e);
      assert e.action in actions <==> e.action in actions[..n] || e.action == actions[n];
    }
  }

  /** The place of an action in the list of all routes. */
  function Rank(a: Action): nat {
    match a
    case Index => 0 case Create => 1 case Edit => 2 case Read => 3 case Save => 4 case Update => 5 case Delete => 6
  }

  lemma {:induction false} EntriesInOrder(addon: string, controller: string, options: Options, actions: seq<Action>)
    requires forall i, j :: 0 <= i < j < |actions| ==> Rank(actions[i]) < Rank(actions[j])
    ensures
      var entries := EntriesOf(addon, controller, options, actions);
      forall i, j :: 0 <= i < j < |entries| ==> Rank(entries[i].action) < Rank(entries[j].action)
  {
    hide Url, Rank;
    if actions != [] {
      var n := |actions| - 1;
      EntriesInOrder(addon, controller, options, actions[..n]);
      var init := EntriesOf(addon, controller, options, actions[..n]);
      forall i | 0 <= i < |init| ensures Rank(init[i].action) < Rank(actions[n]) {
        EntriesAre(addon, controller, options, actions[..n], init[i]);
      }
    }
  }

  lemma GetEntry(addon: string, controller: string, options: Options, a: Action)
    ensures FindEntry(EntriesOf(addon, controller, options, ALL_ACTIONS), a)
            == if options.ShouldInclude(a) then Some(EntryOf(addon, controller, a)) else None
  {
    hide Url, EntriesOf;
    var entries := EntriesOf(addon, controller, options, ALL_ACTIONS);
    var found := FindEntry(entries, a);
    EntriesAre(addon, controller, options, ALL_ACTIONS, EntryOf(addon, controller, a));
    if found.Some? { EntriesAre(addon, controller, options, ALL_ACTIONS, found.value); }
  }

  /** Builds the routes of a resource: an entry for exactly the included actions, in the order of all
      actions. */
  method BuildRoutes(addon: string, controller: string, options: Options) returns (r: RouteResult)
    ensures r.EmptyAddon? <==> addon == ""
    ensures r.EmptyController? <==> addon != "" && controller == ""
    ensures r.Built? ==>
      && r.route.addon == addon && r.route.controller == controller
      && r.route.baseUrl == BaseUrl(addon, controller)
      && r.route.entries == EntriesOf(addon, controller, options, ALL_ACTIONS)
      && forall a :: r.route.Get(a) == if (options.only == [] || a in options.only) && a !in options.except
                                       then Some(EntryOf(addon, controller, a)) else None
    ensures r.Built? ==>
      var entries := r.route.entries;
      forall i, j :: 0 <= i < j < |entries| ==> Rank(entries[i].action) < Rank(entries[j].action)
  {
    if addon == "" { return EmptyAddon; }
    if controller == "" { return EmptyController; }
    hide BaseUrl;
    var baseUrl := BuildBaseUrl(addon, controller);
    var entries: seq<Entry> := [];
    var i := 0;
    while i < |ALL_ACTIONS|
      invariant 0 <= i <= |ALL_ACTIONS|
      invariant entries == EntriesOf(addon, controller, options, ALL_ACTIONS[..i])
    {
      assert ALL_ACTIONS[..i + 1][..i] == ALL_ACTIONS[..i];
      var action := ALL_ACTIONS[i];
      if options.ShouldInclude(action) {
        entries := entries + [Entry(action, MethodOf(action), baseUrl + UrlSuffix(action))];
      }
      i := i + 1;
    }
    assert ALL_ACTIONS[..i] == ALL_ACTIONS;
    EntriesInOrder(addon, controller, options, ALL_ACTIONS);
    var route := Route(addon, controller, baseUrl, entries);
    forall a ensures route.Get(a) == if options.ShouldInclude(a) then Some(EntryOf(addon, controller, a)) else None {
      GetEntry(addon, controller, options, a);
    }
    return Built(route);
  }

  /** The seven routes of a controller, `path` being its nested path. */
  lemma RouteTable(addon: string, controller: string, path: string)
    requires path == PathOf(controller)
    ensures EntryOf(addon, controller, Index) == Entry(Index, Get, "/addons/" + addon + "/" + path)
    ensures EntryOf(addon, controller, Create) == Entry(Create, Get, "/addons/" + addon + "/" + path + "/create")
    ensures EntryOf(addon, controller, Edit) == Entry(Edit, Get, "/addons/" + addon + "/" + path + "/<id>/edit")
    ensures EntryOf(addon, controller, Read) == Entry(Read, Get, "/addons/" + addon + "/" + path + "/<id>")
    ensures EntryOf(addon, controller, Save) == Entry(Save, Post, "/addons/" + addon + "/" + path)
    ensures EntryOf(addon, controller, Update) == Entry(Update, Put, "/addons/" + addon + "/" + path + "/<id>")
    ensures EntryOf(addon, controller, Delete) == Entry(Delete, DeleteMethod, "/addons/" + addon + "/" + path + "/<id>")
  {
    hide PathOf;
    NothingAdded("/addons/" + addon + "/" + path);
  }

  lemma NothingAdded(x: string)
    ensures x + "" == x
  {
  }

  /** Below a parent resource comes its id, and then the path of the child. */
  lemma NestedPath(parent: string, child: string)
    requires '.' !in parent
    ensures PathOf(parent + "." + child) == parent + "/<" + parent + "_id>/" + PathOf(child)
    ensures '.' !in child ==> PathOf(child) == child
  {
    hide Split, Join, Nest;
    if '.' !in child { PathOfUndotted(child); }
    SplitWithout(parent, '.');
    SplitAround(parent, '.', child);
    assert parent + "." + child == parent + (['.'] + child);
    var parts := Split(child, '.');
    var all := [parent] + parts;
    assert Split(parent + "." + child, '.') == all;
    NestStep(all, 0);
    assert all[0..] == all && all[1..] == parts;
    ParentAlone(parent, Join(Nest(parts), '/'));
  }

  lemma ParentAlone(parent: string, path: string)
    ensures parent + "/" + ParentId(parent) + "/" + path == parent + "/<" + parent + "_id>/" + path
  {
    assert parent + "/" + ("<" + parent + "_id>") + "/" == parent + "/<" + parent + "_id>/";
  }

  // ----- the decoder -----

  /** Every second segment, joined by dots: undoes `Nest`. */
  function Unnest(segments: seq<string>): seq<string>
    requires segments != []
    ensures Unnest(segments) != []
  {
    if |segments| <= 2 then [segments[0]] else [segments[0]] + Unnest(segments[2..])
  }

  lemma {:induction false} UnnestNest(parts: seq<string>)
    requires parts != []
    ensures |Nest(parts)| == 2 * |parts| - 1
    ensures Unnest(Nest(parts)) == parts
  {
    if |parts| > 1 {
      UnnestNest(parts[1..]);
      assert Nest(parts)[2..] == Nest(parts[1..]);
      assert parts == [parts[0]] + parts[1..];
    }
  }

  /** The segment before the last one of a nested controller is a parent's placeholder, never `<id>`. */
  lemma {:induction false} NestHasNoPlainId(parts: seq<string>)
    requires |parts| > 1
    ensures |Nest(parts)| >= 3 && Nest(parts)[|Nest(parts)| - 2] != "<id>"
  {
    UnnestNest(parts);
    if |parts| == 2 {
      assert |ParentId(parts[0])| > |"<id>"|;
    } else {
      NestHasNoPlainId(parts[1..]);
      assert Nest(parts)[2..] == Nest(parts[1..]);
    }
  }

  lemma {:induction false} NestWithout(parts: seq<string>, c: char)
    requires parts != [] && (c == '/' || c == '.') && forall i :: 0 <= i < |parts| ==> c !in parts[i]
    ensures forall i :: 0 <= i < |Nest(parts)| ==> c !in Nest(parts)[i]
  {
    if |parts| > 1 {
      NestWithout(parts[1..], c);
    }
  }

  function SuffixSegments(a: Action): seq<string> {
    match a
    case Index | Save => []
    case Create => ["create"]
    case Edit => ["<id>", "edit"]
    case Read | Update | Delete => ["<id>"]
  }

  datatype Decoded = Decoded(addon: string, controller: string, action: Action)

  function ControllerOf(segments: seq<string>): string
    requires segments != []
  {
    Join(Unnest(segments), '.')
  }

  /** Reads controller and action off a method and the segments after the addon. */
  function DecodeRest(httpMethod: HttpMethod, addon: string, rest: seq<string>): Decoded
    requires rest != []
  {
    var n := |rest|;
    if n % 2 == 1 then
      if n >= 3 && rest[n - 2] == "<id>" then Decoded(addon, ControllerOf(rest[..n - 2]), Edit)
      else Decoded(addon, ControllerOf(rest), if httpMethod == Post then Save else Index)
    else if rest[n - 1] == "create" then Decoded(addon, ControllerOf(rest[..n - 1]), Create)
    else
      var action := match httpMethod
        case Put => Update
        case DeleteMethod => Delete
        case _ => Read;
      Decoded(addon, ControllerOf(rest[..n - 1]), action)
  }

  /** Reads addon, controller and action off a method and a URL. */
  function Decode(httpMethod: HttpMethod, url: string): Option<Decoded> {
    var segments := Split(url, '/');
    if |segments| < 4 then None else Some(DecodeRest(httpMethod, segments[2], segments[3..]))
  }

  /** The parity of the number of segments and the last two of them tell the action. */
  lemma DecodeSegments(addon: string, nest: seq<string>, a: Action)
    requires |nest| % 2 == 1 && (|nest| >= 3 ==> nest[|nest| - 2] != "<id>")
    ensures DecodeRest(MethodOf(a), addon, nest + SuffixSegments(a)) == Decoded(addon, ControllerOf(nest), a)
  {
    match a
    case Index | Save => DecodeCollection(addon, nest, a);
    case Edit => DecodeEdit(addon, nest);
    case Create => DecodeCreate(addon, nest);
    case Read | Update | Delete => DecodeItem(addon, nest, a);
  }

  lemma DecodeCollection(addon: string, nest: seq<string>, a: Action)
    requires |nest| % 2 == 1 && (|nest| >= 3 ==> nest[|nest| - 2] != "<id>") && (a == Index || a == Save)
    ensures DecodeRest(MethodOf(a), addon, nest + SuffixSegments(a)) == Decoded(addon, ControllerOf(nest), a)
  {
    hide ControllerOf;
    assert nest + [] == nest;
  }

  lemma DecodeEdit(addon: string, nest: seq<string>)
    requires |nest| % 2 == 1
    ensures DecodeRest(Get, addon, nest + ["<id>", "edit"]) == Decoded(addon, ControllerOf(nest), Edit)
  {
    hide ControllerOf;
  }

  lemma DecodeCreate(addon: string, nest: seq<string>)
    requires |nest| % 2 == 1
    ensures DecodeRest(Get, addon, nest + ["create"]) == Decoded(addon, ControllerOf(nest), Create)
  {
    hide ControllerOf;
  }

  lemma DecodeItem(addon: string, nest: seq<string>, a: Action)
    requires |nest| % 2 == 1 && (a == Read || a == Update || a == Delete)
    ensures DecodeRest(MethodOf(a), addon, nest + ["<id>"]) == Decoded(addon, ControllerOf(nest), a)
  {
    hide ControllerOf;
    assert |"create"| != |"<id>"|;
  }

  lemma SplitSuffix(x: string, a: Action)
    ensures Split(x + UrlSuffix(a), '/') == Split(x, '/') + SuffixSegments(a)
  {
    hide Split;
    match a
    case Index | Save =>
      assert x + "" == x;
    case Create =>
      assert "/create" == ['/'] + "create";
      SplitAround(x, '/', "create");
      SplitWithout("create", '/');
    case Edit =>
      assert "/<id>/edit" == ['/'] + ("<id>" + (['/'] + "edit"));
      SplitAround(x, '/', "<id>" + (['/'] + "edit"));
      SplitAround("<id>", '/', "edit");
      SplitWithout("<id>", '/');
      SplitWithout("edit", '/');
    case Read | Update | Delete =>
      assert "/<id>" == ['/'] + "<id>";
      SplitAround(x, '/', "<id>");
      SplitWithout("<id>", '/');
  }

  lemma SplitBase(addon: string, controller: string)
    requires '/' !in addon && '/' !in controller
    ensures Split(BaseUrl(addon, controller), '/') == ["", "addons", addon] + Nest(Split(controller, '.'))
  {
    hide Split, Join, Nest;
    var nest := Nest(Split(controller, '.'));
    var tail := Join(nest, '/');
    assert BaseUrl(addon, controller) == "" + (['/'] + ("addons" + (['/'] + (addon + (['/'] + tail)))));
    SplitAround("", '/', "addons" + (['/'] + (addon + (['/'] + tail))));
    SplitAround("addons", '/', addon + (['/'] + tail));
    SplitAround(addon, '/', tail);
    SplitWithout("", '/');
    SplitWithout("addons", '/');
    SplitWithout(addon, '/');
    PartsWithout(controller, '.', '/');
    NestWithout(Split(controller, '.'), '/');
    SplitJoin(nest, '/');
  }

  /** The segments of a route's URL. */
  lemma SplitUrl(addon: string, controller: string, a: Action)
    requires '/' !in addon && '/' !in controller
    ensures Split(Url(addon, controller, a), '/')
            == ["", "addons", addon] + (Nest(Split(controller, '.')) + SuffixSegments(a))
  {
    SplitSuffix(BaseUrl(addon, controller), a);
    SplitBase(addon, controller);
  }

  /** For names without a slash, addon, controller and action can be read off method and URL. */
  lemma DecodeRoute(addon: string, controller: string, a: Action)
    requires '/' !in addon && '/' !in controller
    ensures Decode(MethodOf(a), Url(addon, controller, a)) == Some(Decoded(addon, controller, a))
  {
    hide Split, Join, Nest, Url, DecodeRest;
    var parts := Split(controller, '.');
    var nest := Nest(parts);
    SplitUrl(addon, controller, a);
    UnnestNest(parts);
    JoinSplit(controller, '.');
    if |parts| > 1 { NestHasNoPlainId(parts); }
    DecodeSegments(addon, nest, a);
    assert Split(Url(addon, controller, a), '/')[3..] == nest + SuffixSegments(a);
  }

  /** No collisions: over names without a slash, two routes with the same method and URL are the same. */
  lemma NoCollision(addon: string, controller: string, a: Action, addon': string, controller': string, a': Action)
    requires '/' !in addon && '/' !in controller && '/' !in addon' && '/' !in controller'
    requires MethodOf(a) == MethodOf(a') && Url(addon, controller, a) == Url(addon', controller', a')
    ensures addon == addon' && controller == controller' && a == a'
  {
    DecodeRoute(addon, controller, a);
    DecodeRoute(addon', controller', a');
  }

  // ----- names with a slash -----

  /** Appends `s` to the last part. */
  function OnLast(parts: seq<string>, s: string): (r: seq<string>)
    requires parts != []
    ensures |r| == |parts|
  {
    if |parts| == 1 then [parts[0] + s] else [parts[0]] + OnLast(parts[1..], s)
  }

  lemma OnLastStep(h: string, parts: seq<string>, s: string)
    requires parts != []
    ensures OnLast([h] + parts, s) == [h] + OnLast(parts, s)
  {
    assert ([h] + parts)[1..] == parts;
  }

  lemma OnLastHead(h: char, parts: seq<string>, s: string)
    requires parts != []
    ensures OnLast([[h] + parts[0]] + parts[1..], s) == [[h] + OnLast(parts, s)[0]] + OnLast(parts, s)[1..]
  {
    if |parts| == 1 {
      ConsConcat(h, parts[0], s);
    } else {
      OnLastStep([h] + parts[0], parts[1..], s);
    }
  }

  lemma {:induction false} SplitOnLast(x: string, c: char, s: string)
    requires c !in s
    ensures Split(x + s, c) == OnLast(Split(x, c), s)
  {
    if x == [] {
      assert x + s == s;
      SplitWithout(s, c);
    } else {
      var h, rest := x[0], x[1..];
      SplitOnLast(rest, c, s);
      hide Split, OnLast;
      assert x == [h] + rest;
      ConsConcat(h, rest, s);
      SplitFirst(h, rest, c);
      SplitFirst(h, rest + s, c);
      if h == c {
        OnLastStep("", Split(rest, c), s);
      } else {
        OnLastHead(h, Split(rest, c), s);
      }
    }
  }

  lemma {:induction false} NestOnLast(parts: seq<string>, s: string)
    requires parts != []
    ensures Nest(OnLast(parts, s)) == OnLast(Nest(parts), s)
  {
    if |parts| > 1 {
      var h, rest := parts[0], parts[1..];
      NestOnLast(rest, s);
      hide Nest, OnLast, ParentId;
      assert parts == [h] + rest;
      OnLastStep(h, rest, s);
      OnLastStep(ParentId(h), Nest(rest), s);
      OnLastStep(h, [ParentId(h)] + Nest(rest), s);
    }
  }

  lemma {:induction false} JoinOnLast(parts: seq<string>, c: char, s: string)
    requires parts != []
    ensures Join(OnLast(parts, s), c) == Join(parts, c) + s
  {
    if |parts| > 1 {
      JoinOnLast(parts[1..], c, s);
      assert OnLast(parts, s)[1..] == OnLast(parts[1..], s);
    }
  }

  lemma OnePart(part: string)
    ensures Join(Nest([part]), '/') == part
  {
  }

  lemma UrlPath(addon: string, controller: string, a: Action)
    ensures Url(addon, controller, a) == "/addons/" + addon + "/" + PathOf(controller) + UrlSuffix(a)
  {
  }

  lemma PathOfUndotted(controller: string)
    requires '.' !in controller
    ensures PathOf(controller) == controller
  {
    SplitWithout(controller, '.');
    OnePart(controller);
  }

  /** A suffix can be read as part of the controller's name. */
  lemma SuffixMoves(addon: string, controller: string, a: Action)
    ensures Url(addon, controller, a) == Url(addon, controller + UrlSuffix(a), Index)
  {
    hide Split, Nest, Join, Url, UrlSuffix;
    var parts, suffix := Split(controller, '.'), UrlSuffix(a);
    UndottedSuffix(a);
    SplitOnLast(controller, '.', suffix);
    NestOnLast(parts, suffix);
    JoinOnLast(Nest(parts), '/', suffix);
    UrlPath(addon, controller, a);
    UrlPath(addon, controller + suffix, Index);
    UndottedSuffix(Index);
  }

  lemma UndottedSuffix(a: Action)
    ensures '.' !in UrlSuffix(a) && UrlSuffix(Index) == ""
  {
  }

  /** A dotted controller has a path of several segments. */
  lemma DottedPath(controller: string) returns (first: string, rest: string)
    requires '.' in controller
    ensures PathOf(controller) == first + "/" + rest && rest != "" && '.' !in rest
  {
    var parts := Split(controller, '.');
    var nest := Nest(parts);
    SplitRemoves(controller, '.');
    JoinSplit(controller, '.');
    assert |parts| > 1;
    NestWithout(parts, '.');
    JoinWithout(nest[1..], '/', '.');
    first, rest := nest[0], Join(nest[1..], '/');
    assert nest[1] == ParentId(parts[0]) && nest[1] != "";
  }

  /** The parent of a nested controller can be read as part of the addon's name. */
  lemma ParentMoves(addon: string, controller: string, a: Action) returns (addon': string, controller': string)
    requires '.' in controller
    ensures addon' != addon && addon' != "" && controller' != ""
    ensures Url(addon, controller, a) == Url(addon', controller', a)
  {
    hide PathOf, Url, UrlSuffix;
    var first, rest := DottedPath(controller);
    addon', controller' := addon + "/" + first, rest;
    PathOfUndotted(rest);
    UrlPath(addon, controller, a);
    UrlPath(addon', controller', a);
    Regroup("/addons/", addon, first, rest);
    assert |addon'| > |addon|;
  }

  lemma Regroup(front: string, addon: string, first: string, rest: string)
    ensures front + addon + "/" + (first + "/" + rest) == front + (addon + "/" + first) + "/" + rest
  {
  }

  /** Nothing forbids a slash in a name, and then routes do collide: whatever the names, the create
      route of a controller is the index route of the controller with "/create" added, and the index
      route of the controller "create" of the addon with the whole controller path added. */
  lemma SlashCollides(addon: string, controller: string)
    ensures MethodOf(Create) == MethodOf(Index)
    ensures Url(addon, controller, Create) == Url(addon, controller + "/create", Index)
    ensures Url(addon, controller, Create) == Url(addon + "/" + PathOf(controller), "create", Index)
  {
    SuffixMoves(addon, controller, Create);
    hide Split, Nest, Join, Url, PathOf;
    UrlPath(addon, controller, Create);
    PathOfUndotted("create");
    UrlPath(addon + "/" + PathOf(controller), "create", Index);
    Regroup("/addons/", addon, PathOf(controller), "create");
  }

  // ----- which routes can be shadowed -----

  /** Another route over nonempty names answers the same requests. */
  ghost predicate Shadowed(addon: string, controller: string, a: Action) {
    exists addon', controller', a' :: Shadows(addon', controller', a', addon, controller, a)
  }

  ghost predicate Shadows(addon': string, controller': string, a': Action, addon: string, controller: string, a: Action) {
    && addon' != "" && controller' != "" && !(addon' == addon && controller' == controller && a' == a)
    && MethodOf(a') == MethodOf(a) && Url(addon', controller', a') == Url(addon, controller, a)
  }

  lemma SlashesOfUrl(addon: string, controller: string, a: Action)
    ensures CountChar(Url(addon, controller, a), '/')
            == 3 + CountChar(addon, '/') + CountChar(PathOf(controller), '/') + |SuffixSegments(a)|
  {
    hide Url, PathOf;
    UrlPath(addon, controller, a);
    SlashesOfParts(addon, PathOf(controller), UrlSuffix(a));
    SlashesOfSuffix(a);
  }

  lemma SlashesOfParts(addon: string, path: string, suffix: string)
    ensures CountChar("/addons/" + addon + "/" + path + suffix, '/')
            == 3 + CountChar(addon, '/') + CountChar(path, '/') + CountChar(suffix, '/')
  {
    hide CountChar;
    CountConcat("/addons/" + addon + "/" + path, suffix, '/');
    CountConcat("/addons/" + addon + "/", path, '/');
    CountConcat("/addons/" + addon, "/", '/');
    CountConcat("/addons/", addon, '/');
    SlashesOfLiterals();
  }

  lemma SlashesOfLiterals()
    ensures CountChar("/addons/", '/') == 2 && CountChar("/", '/') == 1
  {
    assert "/addons/" == "/" + ("addons" + "/") && "/"[1..] == "";
    assert CountChar("/", '/') == 1;
    hide CountChar;
    CountConcat("/", "addons" + "/", '/');
    CountConcat("addons", "/", '/');
    NoneCounted("addons", '/');
  }

  lemma SlashesOfSuffix(a: Action)
    ensures CountChar(UrlSuffix(a), '/') == |SuffixSegments(a)|
  {
    hide CountChar;
    SlashesOfLiterals();
    NoneCounted("", '/');
    NoneCounted("create", '/');
    NoneCounted("<id>", '/');
    NoneCounted("edit", '/');
    match a
    case Index | Save =>
    case Create =>
      assert "/create" == "/" + "create";
      CountConcat("/", "create", '/');
    case Edit =>
      assert "/<id>/edit" == "/" + ("<id>" + ("/" + "edit"));
      CountConcat("/", "<id>" + ("/" + "edit"), '/');
      CountConcat("<id>", "/" + "edit", '/');
      CountConcat("/", "edit", '/');
    case Read | Update | Delete =>
      assert "/<id>" == "/" + "<id>";
      CountConcat("/", "<id>", '/');
  }

  /** A path without a slash is that of a controller without dots and slashes. */
  lemma SlashlessPath(controller: string)
    requires '/' !in PathOf(controller)
    ensures '/' !in controller
  {
    var parts := Split(controller, '.');
    var nest := Nest(parts);
    JoinSplit(controller, '.');
    if |parts| > 1 {
      SeveralSegments(nest);
    }
  }

  lemma SeveralSegments(segments: seq<string>)
    requires |segments| > 1
    ensures '/' in Join(segments, '/')
  {
    assert Join(segments, '/')[|segments[0]|] == '/';
  }

  /** The routes that nothing shadows: on an undotted controller, with the shortest URL of its method. */
  lemma Unshadowed(addon: string, controller: string, a: Action, addon': string, controller': string, a': Action)
    requires '/' !in addon && '/' !in controller && '.' !in controller && (a == Index || MethodOf(a) != Get)
    requires MethodOf(a) == MethodOf(a') && Url(addon, controller, a) == Url(addon', controller', a')
    ensures addon == addon' && controller == controller' && a == a'
  {
    hide Url, PathOf;
    SlashesOfUrl(addon, controller, a);
    SlashesOfUrl(addon', controller', a');
    PathOfUndotted(controller);
    NoneCounted(addon, '/');
    NoneCounted(controller, '/');
    NoneCounted(addon', '/');
    NoneCounted(PathOf(controller'), '/');
    assert |SuffixSegments(a)| <= |SuffixSegments(a')|;
    SlashlessPath(controller');
    NoCollision(addon, controller, a, addon', controller', a');
  }

  /** Exactly which routes over slash-free names a route over names with slashes can shadow: those of
      dotted controllers, and the read-only ones other than the index. */
  lemma ShadowedIff(addon: string, controller: string, a: Action)
    requires addon != "" && controller != "" && '/' !in addon && '/' !in controller
    ensures Shadowed(addon, controller, a) <==> '.' in controller || (MethodOf(a) == Get && a != Index)
  {
    hide Url;
    if '.' in controller {
      var addon', controller' := ParentMoves(addon, controller, a);
      assert Shadows(addon', controller', a, addon, controller, a);
    } else if MethodOf(a) == Get && a != Index {
      SuffixMoves(addon, controller, a);
      assert Shadows(addon, controller + UrlSuffix(a), Index, addon, controller, a);
    } else {
      forall addon', controller', a' ensures !Shadows(addon', controller', a', addon, controller, a) {
        if Shadows(addon', controller', a', addon, controller, a) {
          Unshadowed(addon, controller, a, addon', controller', a');
        }
      }
    }
  }
}
