/**
  The router: the route tree built from nested declarations, the hash matcher
  with its not-found check, and the URL builder's entry points.

  `treeRoutes` is the field `tree` of a `Router` object, and the browser
  location the router reads and writes is its field `location` (the raw value
  of `window.location.hash`, with its '#').
*/
module Routing {
  import opened Wrappers
  import opened Paths
  import opened Patterns
  import opened Urls

  /** A route's options object; the router only carries it along. */
  type Options = map<string, string>

  /**
    A route declaration as the application writes it: `options` is `None`
    when absent (or falsy), a missing `subRoute` is `[]`.
  */
  datatype Decl = Decl(path: string, name: string, options: Option<Options>, subRoute: seq<Decl>)

  /** A record of the route tree: normalised full path, name, options. */
  datatype Route = Route(path: string, name: string, options: Options)

  /** An element of a match chain; the not-found sentinel has no options. */
  datatype MatchedRoute = MatchedRoute(name: string, options: Option<Options>, values: Values)

  /** `NOT_FOUND_ROUTE`. */
  const NotFound := MatchedRoute("notFound", None, map[])

  /** Matching fails when the chain is empty: `_.last([])` is `undefined` and reading its `name` throws. */
  datatype Error = EmptyChain

  // ---------------------------------------------------------------------------
  // The route tree

  /** The number of declarations, nested ones included. */
  function Count(decls: seq<Decl>): nat {
    if decls == [] then 0 else 1 + Count(decls[0].subRoute) + Count(decls[1..])
  }

  /**
    The records `initRoutes(decls, parentPath)` appends: one per declaration,
    in pre-order, each path the parent's joined with the declaration's and
    normalised.
  */
  function Flatten(decls: seq<Decl>, parentPath: string): (routes: seq<Route>)
    ensures |routes| == Count(decls)
    ensures forall i :: 0 <= i < |routes| ==> IsCanonical(routes[i].path)
  {
    if decls == [] then []
    else
      var d := decls[0];
      var path := EnsureHash(parentPath + "/" + d.path);
      [Route(path, d.name, d.options.GetOr(map[]))] + Flatten(d.subRoute, path) + Flatten(decls[1..], parentPath)
  }

  /** Every record path of the tree is canonical. */
  predicate CanonicalTree(tree: seq<Route>) {
    forall i :: 0 <= i < |tree| ==> IsCanonical(tree[i].path)
  }

  /** No record path holds a regular-expression metacharacter outside its parameter tokens. */
  predicate PlainTree(tree: seq<Route>) {
    tree == [] || (Plain(Compile(tree[0].path)) && PlainTree(tree[1..]))
  }

  // ---------------------------------------------------------------------------
  // Lookup by name and the URL builder

  /** `getRouteByName(name)` (`_.find`): the position of the first record called `name`. */
  function NameIndex(tree: seq<Route>, name: string): (r: Option<nat>)
    ensures r.Some? ==> r.value < |tree| && tree[r.value].name == name
  {
    if tree == [] then None
    else if tree[0].name == name then Some(0)
    else match NameIndex(tree[1..], name)
      case None => None
      case Some(i) => Some(i + 1)
  }

  predicate HasName(tree: seq<Route>, name: string) {
    NameIndex(tree, name).Some?
  }

  /** The path of the first record called `name`. */
  function PathOf(tree: seq<Route>, name: string): string
    requires HasName(tree, name)
  {
    tree[NameIndex(tree, name).value].path
  }

  /** `getRouteKeys(name)`: the `:[a-z]+` keys of the first record called `name`. */
  function RouteKeys(tree: seq<Route>, name: string): seq<string>
    requires HasName(tree, name)
  {
    Keys(PathOf(tree, name))
  }

  /** What `getRouteUrl(name, values)` returns. */
  function Url(tree: seq<Route>, name: string, values: Values): string
    requires HasName(tree, name)
  {
    Substitute(PathOf(tree, name), RouteKeys(tree, name), values)
  }

  /** `_.difference(keys, _.keys(values))`: the keys `values` lacks, in order. */
  function Missing(keys: seq<string>, values: Values): (r: seq<string>)
    ensures forall k :: k in r <==> k in keys && k !in values
  {
    if keys == [] then []
    else (if keys[0] in values then [] else [keys[0]]) + Missing(keys[1..], values)
  }

  /**
    `isValidRoute(name, values)`: `None` (undefined) for an unknown name,
    otherwise whether `values` has every key of the route; extra keys do not
    matter.
  */
  function IsValidRoute(tree: seq<Route>, name: string, values: Values): (r: Option<bool>)
    ensures r.None? <==> forall i :: 0 <= i < |tree| ==> tree[i].name != name
    ensures r.Some? <==> HasName(tree, name)
    ensures r.Some? ==> (r.value <==> forall k :: k in RouteKeys(tree, name) ==> k in values)
  {
    NameIndexIsFind(tree, name);
    if HasName(tree, name) then
      var missing := Missing(RouteKeys(tree, name), values);
      assert missing != [] ==> missing[0] in missing;
      Some(|missing| == 0)
    else None
  }

  /** `_.find`: the position found is that of the first record called `name`, and there is none only when no record is. */
  lemma {:induction false} NameIndexIsFind(tree: seq<Route>, name: string)
    ensures NameIndex(tree, name).None? <==> forall i :: 0 <= i < |tree| ==> tree[i].name != name
    ensures NameIndex(tree, name).Some? ==> forall i :: 0 <= i < NameIndex(tree, name).value ==> tree[i].name != name
  {
    if tree != [] && tree[0].name != name {
      NameIndexIsFind(tree[1..], name);
      assert forall i :: 1 <= i < |tree| ==> tree[i] == tree[1..][i - 1];
    }
  }

  // ---------------------------------------------------------------------------
  // The hash matcher

  /** `getMatchedRoutesRegex(path, hash)`: the leftmost match of the compiled path in the hash. */
  function RouteMatch(path: string, hash: string): (r: Option<Found>)
    ensures r.Some? ==>
      && r.value.start + r.value.len <= |hash|
      && Accepts(Compile(path), hash[r.value.start..r.value.start + r.value.len], r.value.caps)
  {
    Search(Compile(path), hash)
  }

  /** `getMatchedRouteData(route, match)`: the keys of the record found by name, zipped with the groups. */
  function MatchedData(tree: seq<Route>, route: Route, groups: seq<string>): MatchedRoute
    requires HasName(tree, route.name)
  {
    MatchedRoute(route.name, Some(route.options), ZipObject(RouteKeys(tree, route.name), groups))
  }

  /** The result of `getMatchedRoutesRegex` for every record of the tree, in order. */
  function MatchAll(tree: seq<Route>, hash: string): (ms: seq<Option<Found>>)
    ensures |ms| == |tree|
    decreases |tree|
  {
    if tree == [] then []
    else MatchAll(tree[..|tree| - 1], hash) + [RouteMatch(tree[|tree| - 1].path, hash)]
  }

  /** The chain element for record `k`, given the match results `ms` of every record. */
  function Data(tree: seq<Route>, ms: seq<Option<Found>>, k: nat): (r: MatchedRoute)
    requires |ms| == |tree| && k < |tree| && ms[k].Some?
    ensures r.name == tree[k].name && HasName(tree, r.name)
  {
    NameIndexIsFind(tree, tree[k].name);
    MatchedData(tree, tree[k], ms[k].value.caps)
  }

  /** `lastMatchedPath`: the path of the last accepted record, or "" before any. */
  function LastPath(tree: seq<Route>, hits: seq<nat>): string
    requires hits == [] || hits[|hits| - 1] < |tree|
  {
    if hits == [] then "" else tree[hits[|hits| - 1]].path
  }

  /** Strictly increasing positions. */
  predicate Increasing(hits: seq<nat>) {
    forall j, j' :: 0 <= j < j' < |hits| ==> hits[j] < hits[j']
  }

  /** Each accepted path contains the path accepted before it. */
  predicate Nested(tree: seq<Route>, hits: seq<nat>)
    requires forall j :: 0 <= j < |hits| ==> hits[j] < |tree|
  {
    forall j :: 0 < j < |hits| ==> IndexOf(tree[hits[j]].path, tree[hits[j - 1]].path) >= 0
  }

  /**
    The positions the scan in `getMatchedRoutes` accepts among the first `n`
    records: a record is accepted when its pattern matches the hash and its
    path contains the last accepted path.
  */
  function Accepted(tree: seq<Route>, ms: seq<Option<Found>>, n: nat): (hits: seq<nat>)
    requires |ms| == |tree| && n <= |tree|
    ensures forall j :: 0 <= j < |hits| ==> hits[j] < n && ms[hits[j]].Some?
    ensures Increasing(hits) && Nested(tree, hits)
  {
    if n == 0 then []
    else
      var hits := Accepted(tree, ms, n - 1);
      var k: nat := n - 1;
      if ms[k].Some? && IndexOf(tree[k].path, LastPath(tree, hits)) >= 0 then
        IncreasingSnoc(hits, k);
        NestedSnoc(tree, hits, k);
        hits + [k]
      else hits
  }

  /** Positions of records whose pattern matched. */
  predicate ValidHits(tree: seq<Route>, ms: seq<Option<Found>>, hits: seq<nat>) {
    |ms| == |tree| && forall j :: 0 <= j < |hits| ==> hits[j] < |tree| && ms[hits[j]].Some?
  }

  /** The chain the scan builds from the accepted positions: the data of each, in order. */
  function ChainOf(tree: seq<Route>, ms: seq<Option<Found>>, hits: seq<nat>): (chain: seq<MatchedRoute>)
    requires ValidHits(tree, ms, hits)
    ensures |chain| == |hits|
    ensures chain == [] || HasName(tree, chain[|chain| - 1].name)
  {
    if hits == [] then []
    else ChainOf(tree, ms, hits[..|hits| - 1]) + [Data(tree, ms, hits[|hits| - 1])]
  }

  /**
    `checkNotFoundRoute(chain)` as a value: an error for an empty chain;
    otherwise the chain, with the sentinel appended exactly when the URL
    rebuilt from its last element differs from the current hash.
  */
  function WithNotFound(tree: seq<Route>, chain: seq<MatchedRoute>, current: string): (r: Result<seq<MatchedRoute>, Error>)
    requires chain == [] || HasName(tree, chain[|chain| - 1].name)
    ensures r.Failure? <==> chain == []
    ensures r.Success? ==> r.value == chain || r.value == chain + [NotFound]
  {
    if chain == [] then Failure(EmptyChain)
    else
      var last := chain[|chain| - 1];
      if Url(tree, last.name, last.values) != current then Success(chain + [NotFound]) else Success(chain)
  }

  /** What `getMatchedRoutes(hash)` returns with the browser at `location`. */
  function MatchedRoutes(tree: seq<Route>, hash: string, location: string): Result<seq<MatchedRoute>, Error> {
    var ms := MatchAll(tree, EnsureHash(hash));
    WithNotFound(tree, ChainOf(tree, ms, Accepted(tree, ms, |tree|)), LocationHash(location))
  }

  /**
    The loop of `getMatchedRoutes` over the records, on the normalised hash
    `h`: it builds the chain of the records `Accepted` picks, in order.
  */
  method ScanRoutes(routes: seq<Route>, h: string) returns (matchedRoutes: seq<MatchedRoute>)
    ensures var ms := MatchAll(routes, h);
      matchedRoutes == ChainOf(routes, ms, Accepted(routes, ms, |routes|))
  {
    matchedRoutes := [];
    var lastMatchedPath := "";
    var i := 0;
    while i < |routes|
      invariant i <= |routes|
      invariant ScanState(routes, MatchAll(routes, h), i, matchedRoutes, lastMatchedPath)
    {
      matchedRoutes, lastMatchedPath := ScanRoute(routes, h, i, matchedRoutes, lastMatchedPath);
      i := i + 1;
    }
  }

  /**
    One pass of the loop body of `getMatchedRoutes` on record `i`: it is
    accepted when its pattern matches and its path contains the last
    accepted path; then its data is appended and its path becomes the last.
  */
  method ScanRoute(routes: seq<Route>, h: string, i: nat, matchedRoutes: seq<MatchedRoute>, lastMatchedPath: string)
      returns (matchedRoutes': seq<MatchedRoute>, lastMatchedPath': string)
    requires i < |routes| && ScanState(routes, MatchAll(routes, h), i, matchedRoutes, lastMatchedPath)
    ensures ScanState(routes, MatchAll(routes, h), i + 1, matchedRoutes', lastMatchedPath')
  {
    var route := routes[i];
    var m := RouteMatch(route.path, h);
    RecordHasName(routes, i);
    if m.Some? && IndexOf(route.path, lastMatchedPath) >= 0 {
      ScanAccept(routes, h, i, matchedRoutes, lastMatchedPath, m.value);
      lastMatchedPath' := route.path;
      matchedRoutes' := matchedRoutes + [MatchedData(routes, route, m.value.caps)];
    } else {
      ScanSkip(routes, h, i, matchedRoutes, lastMatchedPath);
      matchedRoutes', lastMatchedPath' := matchedRoutes, lastMatchedPath;
    }
  }

  // ---------------------------------------------------------------------------
  // The router object

  class Router {
    /** `treeRoutes`. */
    var tree: seq<Route>
    /** The raw location hash (`window.location.hash`), read when matching and written by `Go`. */
    var location: string

    ghost predicate Valid()
      reads this
    {
      CanonicalTree(tree)
    }

    constructor (location: string)
      ensures Valid() && tree == [] && this.location == location
    {
      tree := [];
      this.location := location;
    }

    /** `initRoutes(routes, parentPath)`: append the records of `routes`, in pre-order; nothing is reset. */
    method InitRoutes(routes: seq<Decl>, parentPath: string)
      requires Valid()
      modifies this
      ensures Valid()
      ensures tree == old(tree) + Flatten(routes, parentPath)
      ensures location == old(location)
      decreases routes
    {
      var i := 0;
      while i < |routes|
        invariant 0 <= i <= |routes|
        invariant Valid()
        invariant tree == old(tree) + Flatten(routes[..i], parentPath)
        invariant location == old(location)
      {
        var route := routes[i];
        var path := EnsureHash(parentPath + "/" + route.path);
        var record := Route(path, route.name, route.options.GetOr(map[]));
        ghost var before := tree;
        tree := tree + [record];
        InitRoutes(route.subRoute, path);
        FlattenOne(route, parentPath);
        AppendAssoc(before, [record], Flatten(route.subRoute, path));
        FlattenAppend(routes[..i], [route], parentPath);
        TakeSnoc(routes, i);
        AppendAssoc(old(tree), Flatten(routes[..i], parentPath), Flatten([route], parentPath));
        i := i + 1;
      }
      assert routes[..|routes|] == routes;
    }

    /** `getRouteUrl(name, values)`: replace the first `':' + key` for each key in turn. */
    method GetRouteUrl(name: string, values: Values) returns (url: string)
      requires HasName(tree, name)
      ensures url == Url(tree, name, values)
    {
      var path := PathOf(tree, name);
      var keys := RouteKeys(tree, name);
      ghost var stored := path;
      var i := 0;
      while i < |keys|
        invariant 0 <= i <= |keys|
        invariant Substitute(path, keys[i..], values) == Substitute(stored, keys, values)
      {
        path := ReplaceFirst(path, ":" + keys[i], Text(Lookup(values, keys[i])));
        assert keys[i..][1..] == keys[i + 1..];
        i := i + 1;
      }
      url := path;
    }

    /** `checkNotFoundRoute(matched)`, comparing with the hash of the current location. */
    method CheckNotFoundRoute(matched: seq<MatchedRoute>) returns (r: Result<seq<MatchedRoute>, Error>)
      requires matched == [] || HasName(tree, matched[|matched| - 1].name)
      ensures r == WithNotFound(tree, matched, LocationHash(location))
    {
      if matched == [] {
        return Failure(EmptyChain);
      }
      var last := matched[|matched| - 1];
      var urlExpected := GetRouteUrl(last.name, last.values);
      if urlExpected != LocationHash(location) {
        r := Success(matched + [NotFound]);
      } else {
        r := Success(matched);
      }
    }

    /**
      The `_.forEach` pass of `getMatchedRoutes` over the records, for the
      normalised hash `h`: the chain of the accepted records' data.
    */
    method MatchChain(h: string) returns (matchedRoutes: seq<MatchedRoute>)
      ensures var ms := MatchAll(tree, h);
        matchedRoutes == ChainOf(tree, ms, Accepted(tree, ms, |tree|))
    {
      matchedRoutes := ScanRoutes(tree, h);
    }

    /** `getMatchedRoutes(hash)`: the chain of the records matching the normalised hash, then the not-found check. */
    method GetMatchedRoutes(hash: string) returns (r: Result<seq<MatchedRoute>, Error>)
      requires PlainTree(tree)
      ensures r == MatchedRoutes(tree, hash, location)
    {
      var matchedRoutes := MatchChain(EnsureHash(hash));
      r := CheckNotFoundRoute(matchedRoutes);
    }

    /**
      `addRoutes(routes)`: register the declarations, then run one match pass
      on the current location; the result is what the observers receive.
    */
    method AddRoutes(routes: seq<Decl>) returns (chain: Result<seq<MatchedRoute>, Error>)
      requires Valid()
      requires PlainTree(tree + Flatten(routes, ""))
      modifies this
      ensures Valid()
      ensures tree == old(tree) + Flatten(routes, "") && location == old(location)
      ensures chain == MatchedRoutes(tree, LocationHash(location), location)
    {
      InitRoutes(routes, "");
      chain := OnHashChange();
    }

    /**
      `onHashChange()`: one match pass on the hash of the current location;
      its result is what every observer receives. It fails exactly when no
      record's pattern occurs in that hash.
    */
    method OnHashChange() returns (routes: Result<seq<MatchedRoute>, Error>)
      requires PlainTree(tree)
      ensures routes == MatchedRoutes(tree, LocationHash(location), location)
      ensures routes.Failure? <==>
        forall i :: 0 <= i < |tree| ==> RouteMatch(tree[i].path, LocationHash(location)).None?
    {
      var h := LocationHash(location);
      routes := GetMatchedRoutes(h);
      EnsureHashFixpoint(h);
      ErrorIffNoMatch(tree, h, location);
    }

    /** `getUrl(name, values)`: '#' and the built URL when the route is valid, absent otherwise. */
    method GetUrl(name: string, values: Values) returns (url: Option<string>)
      ensures url.Some? <==> IsValidRoute(tree, name, values) == Some(true)
      ensures url.Some? ==> url.value == "#" + Url(tree, name, values)
    {
      if IsValidRoute(tree, name, values) == Some(true) {
        var u := GetRouteUrl(name, values);
        url := Some("#" + u);
      } else {
        url := None;
      }
    }

    /** `go(name, values)`: navigate to the built URL when the route is valid, do nothing otherwise. */
    method Go(name: string, values: Values)
      modifies this`location
      ensures IsValidRoute(tree, name, values) == Some(true) ==> location == "#" + Url(tree, name, values)
      ensures IsValidRoute(tree, name, values) != Some(true) ==> location == old(location)
    {
      if IsValidRoute(tree, name, values) == Some(true) {
        var u := GetRouteUrl(name, values);
        location := "#" + u;
      }
    }
  }

  // ---------------------------------------------------------------------------
  // Lemmas about the route tree

  /** The records of two declaration lists are the records of each, in order. */
  lemma {:induction false} FlattenAppend(a: seq<Decl>, b: seq<Decl>, parentPath: string)
    ensures Flatten(a + b, parentPath) == Flatten(a, parentPath) + Flatten(b, parentPath)
  {
    if a == [] {
      assert a + b == b;
    } else {
      assert (a + b)[0] == a[0];
      assert (a + b)[1..] == a[1..] + b;
      FlattenAppend(a[1..], b, parentPath);
    }
  }

  lemma TakeSnoc<T>(s: seq<T>, i: nat)
    requires i < |s|
    ensures s[..i + 1] == s[..i] + [s[i]]
  {
  }

  lemma AppendAssoc<T>(a: seq<T>, b: seq<T>, c: seq<T>)
    ensures a + b + c == a + (b + c)
  {
  }

  /** The records of one declaration: its own, then those of its subtree. */
  lemma FlattenOne(d: Decl, parentPath: string)
    ensures var path := EnsureHash(parentPath + "/" + d.path);
      Flatten([d], parentPath) == [Route(path, d.name, d.options.GetOr(map[]))] + Flatten(d.subRoute, path)
  {
    assert [d][1..] == [];
  }

  /** Below a canonical parent, every record path extends the parent's path. */
  lemma {:induction false} FlattenUnder(decls: seq<Decl>, parentPath: string)
    requires IsCanonical(parentPath)
    ensures forall r :: r in Flatten(decls, parentPath) ==> parentPath <= r.path
  {
    if decls != [] {
      var d := decls[0];
      var path := EnsureHash(parentPath + "/" + d.path);
      EnsureHashExtends(parentPath, d.path);
      FlattenUnder(d.subRoute, path);
      FlattenUnder(decls[1..], parentPath);
    }
  }

  /**
    Pre-order: the first record is the first declaration's, and the records of
    its whole subtree follow it, each with its path as a prefix.
  */
  lemma ParentBeforeDescendants(decls: seq<Decl>, parentPath: string)
    requires decls != []
    ensures var routes := Flatten(decls, parentPath);
      var d := decls[0];
      && routes[0] == Route(EnsureHash(parentPath + "/" + d.path), d.name, d.options.GetOr(map[]))
      && forall j :: 1 <= j <= Count(d.subRoute) ==> routes[0].path <= routes[j].path
  {
    var d := decls[0];
    var path := EnsureHash(parentPath + "/" + d.path);
    var routes := Flatten(decls, parentPath);
    var sub := Flatten(d.subRoute, path);
    FlattenUnder(d.subRoute, path);
    forall j | 1 <= j <= Count(d.subRoute) ensures routes[0].path <= routes[j].path {
      assert routes[j] == sub[j - 1];
      assert sub[j - 1] in sub;
    }
  }

  // ---------------------------------------------------------------------------
  // Lemmas about matching

  /** The `j`-th element of the chain is the data of the `j`-th accepted record. */
  lemma {:induction false} ChainAt(tree: seq<Route>, ms: seq<Option<Found>>, hits: seq<nat>, j: nat)
    requires ValidHits(tree, ms, hits) && j < |hits|
    ensures ChainOf(tree, ms, hits)[j] == Data(tree, ms, hits[j])
  {
    var init := hits[..|hits| - 1];
    assert ValidHits(tree, ms, init);
    if j < |init| {
      ChainAt(tree, ms, init, j);
    }
  }

  /** The `i`-th match result is record `i`'s. */
  lemma {:induction false} MatchAllAt(tree: seq<Route>, hash: string, i: nat)
    requires i < |tree|
    ensures MatchAll(tree, hash)[i] == RouteMatch(tree[i].path, hash)
    decreases |tree|
  {
    var n := |tree| - 1;
    if i < n {
      assert tree[..n][i] == tree[i];
      MatchAllAt(tree[..n], hash, i);
    }
  }

  /** The scan's variables after the first `n` records: the chain and `lastMatchedPath` of the accepted positions. */
  predicate ScanState(tree: seq<Route>, ms: seq<Option<Found>>, n: nat, chain: seq<MatchedRoute>, last: string) {
    && |ms| == |tree| && n <= |tree|
    && chain == ChainOf(tree, ms, Accepted(tree, ms, n))
    && last == LastPath(tree, Accepted(tree, ms, n))
  }

  /** Every record's name finds a record. */
  lemma RecordHasName(tree: seq<Route>, k: nat)
    requires k < |tree|
    ensures HasName(tree, tree[k].name)
  {
    NameIndexIsFind(tree, tree[k].name);
  }

  /**
    One step of the scan over the match results of a hash, when record `n`
    matches and its path contains `last`: the chain grows by its data and its
    path becomes `last`.
  */
  lemma ScanAccept(tree: seq<Route>, hash: string, n: nat, chain: seq<MatchedRoute>, last: string, f: Found)
    requires n < |tree| && RouteMatch(tree[n].path, hash) == Some(f) && HasName(tree, tree[n].name)
    requires ScanState(tree, MatchAll(tree, hash), n, chain, last)
    requires IndexOf(tree[n].path, last) >= 0
    ensures ScanState(tree, MatchAll(tree, hash), n + 1, chain + [MatchedData(tree, tree[n], f.caps)], tree[n].path)
  {
    var ms := MatchAll(tree, hash);
    var hits := Accepted(tree, ms, n);
    MatchAllAt(tree, hash, n);
    assert Accepted(tree, ms, n + 1) == hits + [n];
    assert (hits + [n])[..|hits|] == hits;
    assert ChainOf(tree, ms, hits + [n]) == chain + [Data(tree, ms, n)];
  }

  /** One step of the scan when record `n` is not accepted: nothing changes. */
  lemma ScanSkip(tree: seq<Route>, hash: string, n: nat, chain: seq<MatchedRoute>, last: string)
    requires n < |tree|
    requires ScanState(tree, MatchAll(tree, hash), n, chain, last)
    requires !(RouteMatch(tree[n].path, hash).Some? && IndexOf(tree[n].path, last) >= 0)
    ensures ScanState(tree, MatchAll(tree, hash), n + 1, chain, last)
  {
    var ms := MatchAll(tree, hash);
    MatchAllAt(tree, hash, n);
    assert Accepted(tree, ms, n + 1) == Accepted(tree, ms, n);
  }

  lemma IncreasingSnoc(hits: seq<nat>, k: nat)
    requires Increasing(hits) && forall j :: 0 <= j < |hits| ==> hits[j] < k
    ensures Increasing(hits + [k])
  {
    var h := hits + [k];
    forall j, j' | 0 <= j < j' < |h| ensures h[j] < h[j'] {
      assert h[j] == hits[j];
      if j' < |hits| {
        assert h[j'] == hits[j'];
      }
    }
  }

  lemma NestedSnoc(tree: seq<Route>, hits: seq<nat>, k: nat)
    requires k < |tree| && forall j :: 0 <= j < |hits| ==> hits[j] < |tree|
    requires Nested(tree, hits)
    requires hits != [] ==> IndexOf(tree[k].path, tree[hits[|hits| - 1]].path) >= 0
    ensures Nested(tree, hits + [k])
  {
    var h := hits + [k];
    forall j | 0 < j < |h| ensures IndexOf(tree[h[j]].path, tree[h[j - 1]].path) >= 0 {
      assert h[j - 1] == hits[j - 1];
      if j < |hits| {
        assert h[j] == hits[j];
      }
    }
  }

  /** Before the first record that matches, nothing is accepted. */
  lemma {:induction false} NoHitsBefore(tree: seq<Route>, ms: seq<Option<Found>>, k: nat)
    requires |ms| == |tree| && k <= |tree|
    requires forall i :: 0 <= i < k ==> ms[i].None?
    ensures Accepted(tree, ms, k) == []
  {
    if k > 0 {
      NoHitsBefore(tree, ms, k - 1);
    }
  }

  /** The first record whose pattern matches is always accepted: `lastMatchedPath` starts empty. */
  lemma {:induction false} FirstHitAccepted(tree: seq<Route>, ms: seq<Option<Found>>, n: nat, k: nat)
    requires |ms| == |tree| && k < n <= |tree|
    requires ms[k].Some? && forall i :: 0 <= i < k ==> ms[i].None?
    ensures Accepted(tree, ms, n) != [] && Accepted(tree, ms, n)[0] == k
  {
    if n == k + 1 {
      NoHitsBefore(tree, ms, k);
      assert IndexOf(tree[k].path, "") >= 0 by {
        assert OccursAt(tree[k].path, "", 0);
      }
    } else {
      FirstHitAccepted(tree, ms, n - 1, k);
    }
  }

  /** A record that matches has a first matching record at or before it. */
  lemma {:induction false} LeastHit(ms: seq<Option<Found>>, k: nat) returns (first: nat)
    requires k < |ms| && ms[k].Some?
    ensures first <= k && ms[first].Some? && forall i :: 0 <= i < first ==> ms[i].None?
    decreases k
  {
    if i :| 0 <= i < k && ms[i].Some? {
      first := LeastHit(ms, i);
    } else {
      first := k;
    }
  }

  /**
    Matching fails with an error exactly when no record's pattern matches the
    normalised hash; otherwise the chain starts with the first record that
    matches.
  */
  lemma ErrorIffNoMatch(tree: seq<Route>, hash: string, location: string)
    ensures var h := EnsureHash(hash);
      (MatchedRoutes(tree, hash, location).Failure? <==>
       forall i :: 0 <= i < |tree| ==> RouteMatch(tree[i].path, h).None?)
  {
    var h := EnsureHash(hash);
    var ms := MatchAll(tree, h);
    if k :| 0 <= k < |tree| && RouteMatch(tree[k].path, h).Some? {
      MatchAllAt(tree, h, k);
      var first := LeastHit(ms, k);
      FirstHitAccepted(tree, ms, |tree|, first);
      MatchAllAt(tree, h, first);
    } else {
      forall i | 0 <= i < |tree| ensures ms[i].None? {
        MatchAllAt(tree, h, i);
      }
      NoHitsBefore(tree, ms, |tree|);
    }
  }

  /**
    For a canonical path the pattern search is the regular expression's: any
    substring of the hash the compiled path matches is found, or one that
    starts earlier.
  */
  lemma RouteMatchIsLeftmost(path: string, hash: string, i: nat, n: nat, caps: seq<string>)
    requires IsCanonical(path)
    requires i + n <= |hash| && Accepts(Compile(path), hash[i..i + n], caps)
    ensures RouteMatch(path, hash).Some?
    ensures var f := RouteMatch(path, hash).value;
      f.start < i || (f.start == i && f.len == n && f.caps == caps)
  {
    CompileDelimited(path);
    SearchLeftmost(Compile(path), hash, i, n, caps);
  }

  /** The keys a zipped object gives a value to come from the groups. */
  lemma {:induction false} ZipObjectValues(keys: seq<string>, groups: seq<string>)
    ensures forall k :: k in ZipObject(keys, groups) && ZipObject(keys, groups)[k].Defined? ==>
      ZipObject(keys, groups)[k].s in groups
    decreases |keys|
  {
    if keys != [] {
      ZipObjectValues(keys[..|keys| - 1], groups);
    }
  }

  /** A route's data built from captured groups holds only captured values. */
  lemma DataValuesAreCaptures(tree: seq<Route>, route: Route, caps: seq<string>)
    requires HasName(tree, route.name)
    requires forall i :: 0 <= i < |caps| ==> IsCapture(caps[i])
    ensures var values := MatchedData(tree, route, caps).values;
      forall k :: k in values && values[k].Defined? ==> IsCapture(values[k].s)
  {
    ZipObjectValues(RouteKeys(tree, route.name), caps);
  }

  /** Each match result is a match of its record's compiled path somewhere in the hash. */
  predicate SoundMatches(tree: seq<Route>, hash: string, ms: seq<Option<Found>>) {
    && |ms| == |tree|
    && forall k :: 0 <= k < |ms| && ms[k].Some? ==>
      && ms[k].value.start + ms[k].value.len <= |hash|
      && Accepts(Compile(tree[k].path), hash[ms[k].value.start..ms[k].value.start + ms[k].value.len], ms[k].value.caps)
  }

  /** The search reports only genuine matches. */
  lemma MatchAllSound(tree: seq<Route>, hash: string)
    ensures SoundMatches(tree, hash, MatchAll(tree, hash))
  {
    var ms := MatchAll(tree, hash);
    forall k | 0 <= k < |ms| && ms[k].Some?
      ensures ms[k].value.start + ms[k].value.len <= |hash|
      ensures Accepts(Compile(tree[k].path), hash[ms[k].value.start..ms[k].value.start + ms[k].value.len], ms[k].value.caps)
    {
      MatchAllAt(tree, hash, k);
    }
  }

  /** Every value given in every element of a chain is a group a pattern captured. */
  predicate ValuesAreCaptures(chain: seq<MatchedRoute>) {
    forall j, k :: 0 <= j < |chain| && k in chain[j].values && chain[j].values[k].Defined? ==>
      IsCapture(chain[j].values[k].s)
  }

  /** A chain built from genuine matches holds only captured values. */
  lemma ChainValuesAreCaptures(tree: seq<Route>, hash: string, ms: seq<Option<Found>>, hits: seq<nat>)
    requires SoundMatches(tree, hash, ms) && ValidHits(tree, ms, hits)
    ensures ValuesAreCaptures(ChainOf(tree, ms, hits))
  {
    var chain := ChainOf(tree, ms, hits);
    forall j | 0 <= j < |chain|
      ensures forall k :: k in chain[j].values && chain[j].values[k].Defined? ==> IsCapture(chain[j].values[k].s)
    {
      ChainAt(tree, ms, hits, j);
      DataValuesAreCaptures(tree, tree[hits[j]], ms[hits[j]].value.caps);
    }
  }

  /**
    Every value in the result of `getMatchedRoutes` is a group a pattern
    captured from the hash: a non-empty string over `[A-Za-z0-9_-]`. (A key
    the scan reads past the last group is `undefined`; the sentinel has no
    values.)
  */
  lemma MatchedValuesAreCaptures(tree: seq<Route>, hash: string, location: string)
    ensures var r := MatchedRoutes(tree, hash, location);
      r.Success? ==> ValuesAreCaptures(r.value)
  {
    var h := EnsureHash(hash);
    var ms := MatchAll(tree, h);
    var hits := Accepted(tree, ms, |tree|);
    var chain := ChainOf(tree, ms, hits);
    MatchAllSound(tree, h);
    ChainValuesAreCaptures(tree, h, ms, hits);
    SentinelKeepsCaptures(chain);
  }

  /** The sentinel has no values, so appending it keeps every value a capture. */
  lemma SentinelKeepsCaptures(chain: seq<MatchedRoute>)
    requires ValuesAreCaptures(chain)
    ensures ValuesAreCaptures(chain + [NotFound])
  {
    var c := chain + [NotFound];
    forall j, k | 0 <= j < |c| && k in c[j].values && c[j].values[k].Defined?
      ensures IsCapture(c[j].values[k].s)
    {
      assert j < |chain| && c[j] == chain[j];
    }
  }

  /**
    When the accepted record is the first of its name and its parameters are
    distinct `[a-z]+` names, its element of the chain gives each key of the
    route the group captured at the key's position.
  */
  lemma MatchedValuesByPosition(tree: seq<Route>, hash: string, j: nat)
    requires var hits := Accepted(tree, MatchAll(tree, hash), |tree|);
      j < |hits| &&
      var k := hits[j];
      && NameIndex(tree, tree[k].name) == Some(k)
      && IsCanonical(tree[k].path)
      && SimpleParams(Compile(tree[k].path)) && Distinct(Keys(tree[k].path))
    ensures var ms := MatchAll(tree, hash);
      var hits := Accepted(tree, ms, |tree|);
      var path := tree[hits[j]].path;
      var caps := ms[hits[j]].value.caps;
      && |Keys(path)| == |caps|
      && forall i :: 0 <= i < |caps| ==> Lookup(ChainOf(tree, ms, hits)[j].values, Keys(path)[i]) == Defined(caps[i])
  {
    var ms := MatchAll(tree, hash);
    var hits := Accepted(tree, ms, |tree|);
    var k := hits[j];
    var path := tree[k].path;
    MatchAllSound(tree, hash);
    ChainAt(tree, ms, hits, j);
    KeysOfCompiled(path);
    ZipObjectLookup(Keys(path), ms[k].value.caps);
  }

  /**
    For the first record of its name whose parameters are distinct `[a-z]+`
    names, the URL rebuilt from the data of a match is the text matched.
  */
  lemma RebuiltUrlIsMatchedText(tree: seq<Route>, k: nat, caps: seq<string>, w: string)
    requires k < |tree| && NameIndex(tree, tree[k].name) == Some(k)
    requires IsCanonical(tree[k].path)
    requires SimpleParams(Compile(tree[k].path)) && Distinct(Keys(tree[k].path))
    requires Accepts(Compile(tree[k].path), w, caps)
    ensures Url(tree, tree[k].name, MatchedData(tree, tree[k], caps).values) == w
  {
    KeysOfCompiled(tree[k].path);
    RebuildIsFill(tree[k].path, caps);
  }

  /**
    On a chain built from genuine matches in `h`, when the last accepted record
    is the first of its name and its parameters are distinct `[a-z]+` names,
    the URL rebuilt from the last element's values is the text its pattern
    matched.
  */
  lemma LastUrlIsMatched(tree: seq<Route>, h: string, ms: seq<Option<Found>>, hits: seq<nat>)
    requires CanonicalTree(tree) && SoundMatches(tree, h, ms) && ValidHits(tree, ms, hits)
    requires hits != [] &&
      var k := hits[|hits| - 1];
      && NameIndex(tree, tree[k].name) == Some(k)
      && SimpleParams(Compile(tree[k].path)) && Distinct(Keys(tree[k].path))
    ensures var chain := ChainOf(tree, ms, hits);
      var last := chain[|chain| - 1];
      var f := ms[hits[|hits| - 1]].value;
      f.start + f.len <= |h| && Url(tree, last.name, last.values) == h[f.start..f.start + f.len]
  {
    var k := hits[|hits| - 1];
    var f := ms[k].value;
    assert f.start + f.len <= |h|;
    var matched := h[f.start..f.start + f.len];
    assert Accepts(Compile(tree[k].path), matched, f.caps);
    assert IsCanonical(tree[k].path);
    RebuiltUrlIsMatchedText(tree, k, f.caps, matched);
    ChainAt(tree, ms, hits, |hits| - 1);
  }

  /**
    The not-found check on a chain built from genuine matches in `h`: under the
    conditions of `LastUrlIsMatched`, the sentinel is appended exactly when the
    last accepted record's match is not the whole of `h`.
  */
  lemma NotFoundIffPartial(tree: seq<Route>, h: string, ms: seq<Option<Found>>, hits: seq<nat>)
    requires CanonicalTree(tree) && SoundMatches(tree, h, ms) && ValidHits(tree, ms, hits)
    requires hits != [] &&
      var k := hits[|hits| - 1];
      && NameIndex(tree, tree[k].name) == Some(k)
      && SimpleParams(Compile(tree[k].path)) && Distinct(Keys(tree[k].path))
    ensures var chain := ChainOf(tree, ms, hits);
      var f := ms[hits[|hits| - 1]].value;
      WithNotFound(tree, chain, h) == Success(chain + (if f.start == 0 && f.len == |h| then [] else [NotFound]))
  {
    var chain := ChainOf(tree, ms, hits);
    var f := ms[hits[|hits| - 1]].value;
    LastUrlIsMatched(tree, h, ms, hits);
    WholeSlice(h, f.start, f.len);
    NotFoundByUrl(tree, chain, h, h[f.start..f.start + f.len]);
  }

  /** The not-found check appends the sentinel exactly when the rebuilt URL differs from the current hash. */
  lemma NotFoundByUrl(tree: seq<Route>, chain: seq<MatchedRoute>, current: string, url: string)
    requires chain != [] && HasName(tree, chain[|chain| - 1].name)
    requires Url(tree, chain[|chain| - 1].name, chain[|chain| - 1].values) == url
    ensures WithNotFound(tree, chain, current) == Success(chain + (if url == current then [] else [NotFound]))
  {
    assert chain + [] == chain;
  }

  /** A slice of a string is the whole string exactly when it starts at 0 and spans its length. */
  lemma WholeSlice(h: string, start: nat, len: nat)
    requires start + len <= |h|
    ensures h[start..start + len] == h <==> start == 0 && len == |h|
  {
    if start == 0 && len == |h| {
      assert h[0..|h|] == h;
    } else {
      assert |h[start..start + len]| != |h|;
    }
  }

  /**
    The not-found decision, for a pass on the current location's hash (as the
    hash-change handler runs it): the sentinel is appended exactly when the
    last accepted record's match does not cover the whole hash, under the
    conditions of `NotFoundIffPartial`.
  */
  lemma SentinelIffPartialMatch(tree: seq<Route>, location: string)
    requires CanonicalTree(tree)
    requires var hits := Accepted(tree, MatchAll(tree, LocationHash(location)), |tree|);
      hits != [] &&
      var k := hits[|hits| - 1];
      && NameIndex(tree, tree[k].name) == Some(k)
      && SimpleParams(Compile(tree[k].path)) && Distinct(Keys(tree[k].path))
    ensures var h := LocationHash(location);
      var ms := MatchAll(tree, h);
      var hits := Accepted(tree, ms, |tree|);
      var f := ms[hits[|hits| - 1]].value;
      MatchedRoutes(tree, h, location)
        == Success(ChainOf(tree, ms, hits) + (if f.start == 0 && f.len == |h| then [] else [NotFound]))
  {
    var h := LocationHash(location);
    EnsureHashFixpoint(h);
    MatchAllSound(tree, h);
    NotFoundIffPartial(tree, h, MatchAll(tree, h), Accepted(tree, MatchAll(tree, h), |tree|));
  }

  /** Every key of a route is a key of the values zipped from its keys, so the route is valid for them. */
  lemma ZippedValuesValid(tree: seq<Route>, name: string, caps: seq<string>)
    requires HasName(tree, name)
    ensures IsValidRoute(tree, name, ZipObject(RouteKeys(tree, name), caps)) == Some(true)
  {
    ZipObjectDomain(RouteKeys(tree, name), caps);
  }

  /**
    Building then matching: the URL built for the first record of a name from
    values that are captures is matched by that record's pattern as a whole,
    and the match gives the same values back.
  */
  lemma BuildThenMatch(tree: seq<Route>, k: nat, caps: seq<string>)
    requires k < |tree| && NameIndex(tree, tree[k].name) == Some(k)
    requires IsCanonical(tree[k].path)
    requires SimpleParams(Compile(tree[k].path)) && Distinct(Keys(tree[k].path))
    requires |caps| == |Keys(tree[k].path)| && forall i :: 0 <= i < |caps| ==> IsCapture(caps[i])
    ensures var values := ZipObject(Keys(tree[k].path), caps);
      var url := Url(tree, tree[k].name, values);
      && IsValidRoute(tree, tree[k].name, values) == Some(true)
      && RouteMatch(tree[k].path, url) == Some(Found(0, |url|, caps))
      && MatchedData(tree, tree[k], caps).values == values
  {
    var path := tree[k].path;
    var toks := Compile(path);
    KeysOfCompiled(path);
    RebuiltUrlIsMatchedText(tree, k, caps, Fill(toks, caps));
    CompileDelimited(path);
    SearchFilled(toks, caps);
    ZippedValuesValid(tree, tree[k].name, caps);
  }
}
