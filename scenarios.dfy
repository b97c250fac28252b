/**
  Route trees of the shapes applications declare, worked through the model:
  a route with one parameter, a route nested in another, and a parameter
  name the key scan reads differently from the pattern. Each is stated for
  every name and value of its shape, then for the examples `users/:id`,
  `users/:userId` and `app > settings`.
*/
module Scenarios {
  import opened Wrappers
  import opened Paths
  import opened Patterns
  import opened Urls
  import opened Routing

  // ---------------------------------------------------------------------------
  // Paths and trees

  /** A string is canonical when, position by position, it has no "//" and is wrapped in '/'. */
  lemma CanonicalByIndex(s: string)
    requires |s| > 0 && s[0] == '/' && s[|s| - 1] == '/'
    requires forall i :: 0 <= i < |s| - 1 ==> !(s[i] == '/' && s[i + 1] == '/')
    ensures IsCanonical(s)
  {
    NoDoubleSlashIff(s);
  }

  /** A word (`[\w-]+`) holds no '/', ':', '$' or '?'. */
  lemma WordChars(w: string)
    requires IsCapture(w)
    ensures '/' !in w && ':' !in w && '$' !in w && '?' !in w
  {
  }

  /** The end of a word is a word, or empty. */
  lemma WordSuffix(k: string, u: string)
    requires IsCapture(k + u)
    ensures forall i :: 0 <= i < |u| ==> IsCaptureChar(u[i])
  {
    forall i | 0 <= i < |u| ensures IsCaptureChar(u[i]) {
      assert u[i] == (k + u)[|k| + i];
    }
  }

  /** A canonical path extended by a word and a '/' is canonical, and gains no '?'. */
  lemma CanonicalExtend(f: string, x: string)
    requires IsCanonical(f) && '?' !in f && IsCapture(x)
    ensures IsCanonical(f + x + "/") && '?' !in f + x + "/"
  {
    var s := f + x + "/";
    WordChars(x);
    NoDoubleSlashIff(f);
    forall i | 0 <= i < |s| - 1 ensures !(s[i] == '/' && s[i + 1] == '/') {
      if i < |f| - 1 {
        assert s[i] == f[i] && s[i + 1] == f[i + 1];
      } else if i < |f| + |x| - 1 {
        assert s[i + 1] == x[i + 1 - |f|];
      } else {
        assert s[i] == x[|x| - 1];
      }
    }
    CanonicalByIndex(s);
  }

  // ---------------------------------------------------------------------------
  // Trees of one record

  /**
    A tree of one record whose pattern matches the first `n` characters of
    the current location's hash `h`: the chain is that record, with the
    values zipped from its keys, and the sentinel follows exactly when the
    URL rebuilt from those values is not `h`.
  */
  lemma SingleRouteUrl(route: Route, location: string, h: string, n: nat, caps: seq<string>, values: Values, url: string)
    requires IsCanonical(route.path) && h == LocationHash(location)
    requires n <= |h| && Accepts(Compile(route.path), h[..n], caps)
    requires values == ZipObject(Keys(route.path), caps)
    requires Substitute(route.path, Keys(route.path), values) == url
    ensures url == h ==> MatchedRoutes([route], h, location) == Success([MatchedRoute(route.name, Some(route.options), values)])
    ensures url != h ==> MatchedRoutes([route], h, location) == Success([MatchedRoute(route.name, Some(route.options), values), NotFound])
  {
    var tree := [route];
    var ms := SingleMatch(route, h, n, caps);
    EnsureHashFixpoint(h);
    SingleChain(route, ms, n, caps, values, url);
    var chain := ChainOf(tree, ms, [0]);
    NotFoundByUrl(tree, chain, h, url);
    OneAndSentinel(MatchedRoute(route.name, Some(route.options), values), chain);
  }

  /** A chain of one element, with and without the sentinel after it. */
  lemma OneAndSentinel(x: MatchedRoute, chain: seq<MatchedRoute>)
    requires chain == [x]
    ensures chain + [] == [x] && chain + [NotFound] == [x, NotFound]
  {
  }

  /** The chain of the one accepted record: its name, its options and the zipped values, rebuilt as `url`. */
  lemma SingleChain(route: Route, ms: seq<Option<Found>>, n: nat, caps: seq<string>, values: Values, url: string)
    requires ms == [Some(Found(0, n, caps))]
    requires values == ZipObject(Keys(route.path), caps)
    requires Substitute(route.path, Keys(route.path), values) == url
    ensures ValidHits([route], ms, [0])
    ensures ChainOf([route], ms, [0]) == [MatchedRoute(route.name, Some(route.options), values)]
    ensures HasName([route], route.name) && Url([route], route.name, values) == url
  {
    var tree := [route];
    assert NameIndex(tree, route.name) == Some(0);
    assert ChainOf(tree, ms, [0]) == [Data(tree, ms, 0)];
  }

  /** The one record's pattern is found at the start of `h`, and the scan accepts it. */
  lemma SingleMatch(route: Route, h: string, n: nat, caps: seq<string>) returns (ms: seq<Option<Found>>)
    requires IsCanonical(route.path)
    requires n <= |h| && Accepts(Compile(route.path), h[..n], caps)
    ensures ms == MatchAll([route], h) && ms == [Some(Found(0, n, caps))]
    ensures Accepted([route], ms, 1) == [0]
  {
    assert h[0..0 + n] == h[..n];
    RouteMatchIsLeftmost(route.path, h, 0, n, caps);
    ms := MatchAll([route], h);
    MatchAllAt([route], h, 0);
    assert IndexOf(route.path, "") == 0 by {
      assert OccursAt(route.path, "", 0);
    }
    assert Accepted([route], ms, 0) == [];
  }

  // ---------------------------------------------------------------------------
  // A route `users/:<name>`

  /** The tokens `/users/:<name>/` compiles to: the literals of `/users/`, the parameter, a literal '/'. */
  function UsersToks(name: string): seq<Tok> {
    Compile("/users/") + [Param(name), Lit('/')]
  }

  /** `/users/:<name>/` compiles to the literal `/users/`, a parameter `name` and a literal `/`. */
  lemma UsersCompile(name: string)
    requires IsCapture(name)
    ensures Compile("/users/:" + name + "/") == UsersToks(name)
  {
    var f := "/users/";
    UsersRegroup(name, f);
    CompileAfterNoColon(f, ":" + name + "/");
    ParamSlashTokens(name);
  }

  /** `/users/:<name>/` read as the colon-free `/users/`, then the token and its '/'. */
  lemma UsersRegroup(name: string, f: string)
    requires f == "/users/"
    ensures "/users/:" + name + "/" == f + (":" + name + "/") && ':' !in f
  {
  }

  /** `:<name>/`, for a word `name`, compiles to the parameter `name` and a literal '/'. */
  lemma ParamSlashTokens(name: string)
    requires IsCapture(name)
    ensures Compile(":" + name + "/") == [Param(name), Lit('/')]
  {
    CompileParam(name, "/");
    CompileLit('/', []);
    assert ['/'] + [] == "/";
  }

  /** The pattern of `/users/:<name>/` matches the whole of `/users/<v>/`, capturing `v`. */
  lemma UsersAccepts(name: string, v: string)
    requires IsCapture(v)
    ensures Accepts(UsersToks(name), "/users/" + v + "/", [v])
  {
    var f := "/users/";
    CompileNoColon(f);
    ParamSlashFill(name, v);
    FillConcat(Compile(f), [Param(name), Lit('/')], [], [v]);
    assert [] + [v] == [v];
  }

  /** The parameter and its '/' spell the captured value and a '/'. */
  lemma ParamSlashFill(name: string, v: string)
    ensures ParamCount([Param(name), Lit('/')]) == 1 && Fill([Param(name), Lit('/')], [v]) == v + "/"
  {
    var t := [Param(name), Lit('/')];
    var l := [Lit('/')];
    assert t[1..] == l && l[1..] == [];
    assert ParamCount(l) == 0;
    assert Fill(l, []) == "/" by {
      assert Fill(l, []) == ['/'] + Fill(l[1..], []);
    }
    assert [v][1..] == [];
    assert Fill(t, [v]) == v + Fill(l, []);
  }

  /** The key scan of `/users/:<k><u>/` reads the key `k`, the `[a-z]+` run after ':'. */
  lemma UsersKeys(k: string, u: string)
    requires IsName(k) && (u == [] || !IsLower(u[0])) && ':' !in u
    ensures Keys("/users/:" + (k + u) + "/") == [k]
  {
    var f := "/users/";
    UsersSplit(k, u, f);
    KeysAfterNoColon(f, ":" + k + (u + "/"));
    KeysToken(k, u + "/");
    CompileNoColon(u + "/");
  }

  /** `/users/:<k><u>/` read as the colon-free `/users/`, then the token and the rest. */
  lemma UsersSplit(k: string, u: string, f: string)
    requires f == "/users/"
    ensures "/users/:" + (k + u) + "/" == f + (":" + k + (u + "/")) && ':' !in f
  {
  }

  /** Rebuilding `/users/:<k><u>/` with `k` bound to `v` replaces `:<k>` and leaves `u` behind. */
  lemma UsersUrl(k: string, u: string, v: string)
    requires IsName(k) && IsCapture(v)
    ensures Substitute("/users/:" + (k + u) + "/", [k], map[k := Defined(v)]) == "/users/" + v + u + "/"
  {
    var f := "/users/";
    var values := map[k := Defined(v)];
    var path := f + ":" + k + (u + "/");
    WordChars(v);
    assert forall i :: 0 <= i < |f| ==> f[i] != ':';
    assert NoColonLower(f);
    assert "/users/:" + (k + u) + "/" == path;
    ReplaceAtToken(f, k, u + "/", v);
    assert Text(Lookup(values, k)) == v;
    assert Substitute(path, [k], values) == Substitute(ReplaceFirst(path, ":" + k, v), [], values);
    assert f + v + (u + "/") == "/users/" + v + u + "/";
  }

  /** The path `/users/` is canonical and holds no '?'. */
  lemma UsersRoot(f: string)
    requires f == "/users/"
    ensures IsCanonical(f) && '?' !in f
  {
    CanonicalByIndex(f);
  }

  /** The declared path `users/:<name>` normalises to `/users/:<name>/`. */
  lemma UsersPath(segment: string, name: string)
    requires segment == "users/:" + name && IsCapture(name)
    ensures EnsureHash("" + "/" + segment) == "/users/:" + name + "/"
  {
    var x := ":" + name;
    var s := "/users/" + x + "/";
    WordChars(name);
    UsersRoot("/users/");
    NoDoubleSlashIff("/users/");
    forall i | 0 <= i < |s| - 1 ensures !(s[i] == '/' && s[i + 1] == '/') {
      if i < 6 {
        assert s[i + 1] == "/users/"[i + 1];
      } else if i < |s| - 2 {
        assert s[i + 1] == x[i - 6];
        if i > 6 {
          assert x[i - 6] == name[i - 7];
        }
      } else {
        assert s[i] == name[|name| - 1];
      }
    }
    CanonicalByIndex(s);
    assert "/" + segment + "/" == s;
    EnsureHashRoot(segment);
  }

  /** The tree of `users/:<name>` holds one record, `/users/:<name>/`. */
  lemma UsersTree(decls: seq<Decl>, name: string)
    requires decls == [Decl("users/:" + name, "user", None, [])] && IsCapture(name)
    ensures Flatten(decls, "") == [Route("/users/:" + name + "/", "user", map[])]
  {
    FlattenOne(decls[0], "");
    UsersPath(decls[0].path, name);
    assert Flatten([], "/users/:" + name + "/") == [];
  }

  /** The record `/users/:<k><u>/`: canonical, matching `/users/<v>/`, with the one key `k`, rebuilt as `/users/<v><u>/`. */
  lemma UsersRecord(route: Route, k: string, u: string, v: string)
    requires route == Route("/users/:" + (k + u) + "/", "user", map[])
    requires IsCapture(k + u) && IsName(k) && (u == [] || !IsLower(u[0])) && IsCapture(v)
    ensures IsCanonical(route.path)
    ensures Accepts(Compile(route.path), "/users/" + v + "/", [v])
    ensures Keys(route.path) == [k]
    ensures ZipObject([k], [v]) == map[k := Defined(v)]
    ensures Substitute(route.path, [k], map[k := Defined(v)]) == "/users/" + v + u + "/"
  {
    UsersPath("users/:" + (k + u), k + u);
    UsersCompile(k + u);
    UsersAccepts(k + u, v);
    WordSuffix(k, u);
    UsersKeys(k, u);
    UsersUrl(k, u, v);
    assert ZipObject([k], [v]) == ZipObject([], [v])[k := Defined(v)];
  }

  /**
    The tree of `users/:<name>` on the hash `/users/<v>/`, with the location
    at that hash. The key scan reads from `name` only its leading `[a-z]+`
    run `k`, bound to `v`; the URL rebuilt from it is the hash exactly when
    `name` is all of `k`, and otherwise the sentinel follows.
  */
  lemma UsersMatched(decls: seq<Decl>, name: string, k: string, u: string, v: string, location: string)
    requires decls == [Decl("users/:" + name, "user", None, [])]
    requires name == k + u && IsCapture(name) && IsName(k) && (u == [] || !IsLower(u[0]))
    requires IsCapture(v) && location == "#" + ("/users/" + v + "/")
    ensures u == [] ==>
      MatchedRoutes(Flatten(decls, ""), "/users/" + v + "/", location)
      == Success([MatchedRoute("user", Some(map[]), map[k := Defined(v)])])
    ensures u != [] ==>
      MatchedRoutes(Flatten(decls, ""), "/users/" + v + "/", location)
      == Success([MatchedRoute("user", Some(map[]), map[k := Defined(v)]), NotFound])
  {
    var h := "/users/" + v + "/";
    var route := Route("/users/:" + name + "/", "user", map[]);
    var url := "/users/" + v + u + "/";
    UsersTree(decls, name);
    UsersHash(v, h, location);
    UsersRecord(route, k, u, v);
    UsersUrlIsHash(u, v, url, h);
    SingleRouteUrl(route, location, h, |h|, [v], map[k := Defined(v)], url);
  }

  /** The hash `/users/<v>/` is canonical, and is what the location `#/users/<v>/` reads back. */
  lemma UsersHash(v: string, h: string, location: string)
    requires IsCapture(v) && h == "/users/" + v + "/" && location == "#" + h
    ensures IsCanonical(h) && h == LocationHash(location) && h[..|h|] == h
  {
    UsersRoot("/users/");
    CanonicalExtend("/users/", v);
    LocationHashOfWritten(h);
  }

  /** The URL `/users/<v><u>/` is the hash `/users/<v>/` exactly when `u` is empty. */
  lemma UsersUrlIsHash(u: string, v: string, url: string, h: string)
    requires url == "/users/" + v + u + "/" && h == "/users/" + v + "/"
    ensures url == h <==> u == []
  {
    if u != [] {
      assert |url| != |h|;
    }
  }

  /**
    The tree of `users/:<name>`, `name` a `[a-z]+` key, on the deeper hash
    `/users/<v>/<e>/`: the pattern still matches `/users/<v>/` at its start,
    so the record is matched with `name` bound to `v`, and since the URL
    rebuilt from it is shorter than the hash, the sentinel follows.
  */
  lemma UsersBelow(decls: seq<Decl>, name: string, v: string, e: string, location: string)
    requires decls == [Decl("users/:" + name, "user", None, [])] && IsName(name)
    requires IsCapture(v) && IsCapture(e) && location == "#" + ("/users/" + v + "/" + e + "/")
    ensures MatchedRoutes(Flatten(decls, ""), "/users/" + v + "/" + e + "/", location)
      == Success([MatchedRoute("user", Some(map[]), map[name := Defined(v)]), NotFound])
  {
    var m := "/users/" + v + "/";
    var h := m + e + "/";
    var route := Route("/users/:" + name + "/", "user", map[]);
    NameAlone(name);
    UsersTree(decls, name);
    UsersBelowHash(v, e, m, h, location);
    UsersRecord(route, name, [], v);
    SingleRouteUrl(route, location, h, |m|, [v], map[name := Defined(v)], m);
  }

  /** A `[a-z]+` key is a word, and is the whole of itself followed by nothing. */
  lemma NameAlone(name: string)
    requires IsName(name)
    ensures IsCapture(name + []) && name + [] == name && name != []
  {
    assert name + [] == name;
  }

  /**
    The hash `/users/<v>/<e>/` is canonical, is what its location reads back,
    starts with `/users/<v>/`, and is longer than it.
  */
  lemma UsersBelowHash(v: string, e: string, m: string, h: string, location: string)
    requires IsCapture(v) && IsCapture(e) && m == "/users/" + v + "/" && h == m + e + "/" && location == "#" + h
    ensures IsCanonical(h) && h == LocationHash(location)
    ensures |m| <= |h| && h[..|m|] == m && m != h && "/users/" + v + [] + "/" == m
  {
    UsersBelowPaths(v, e, m, h);
    LocationHashOfWritten(h);
  }

  /** The paths `/users/<v>/` and `/users/<v>/<e>/`: both canonical, the first a proper prefix of the second. */
  lemma UsersBelowPaths(v: string, e: string, m: string, h: string)
    requires IsCapture(v) && IsCapture(e) && m == "/users/" + v + "/" && h == m + e + "/"
    ensures IsCanonical(h) && '?' !in h
    ensures |m| <= |h| && h[..|m|] == m && m != h && "/users/" + v + [] + "/" == m
  {
    UsersRoot("/users/");
    CanonicalExtend("/users/", v);
    CanonicalExtend(m, e);
    PrefixExtend(m, e);
    AppendEmpty("/users/" + v);
    assert |m| != |h|;
  }

  // ---------------------------------------------------------------------------
  // A route `<a>` with a child `<b>`

  /** The tree of `<a> > <b>` is `/<a>/` followed by `/<a>/<b>/`. */
  lemma NestedTree(decls: seq<Decl>, a: string, b: string, an: string, bn: string)
    requires decls == [Decl(a, an, None, [Decl(b, bn, None, [])])] && IsCapture(a) && IsCapture(b)
    ensures Flatten(decls, "") == [Route("/" + a + "/", an, map[]), Route("/" + a + "/" + b + "/", bn, map[])]
  {
    var d := decls[0];
    var p := "/" + a + "/";
    assert IsCanonical("/") && '?' !in "/";
    CanonicalExtend("/", a);
    EnsureHashRoot(a);
    FlattenOne(d, "");
    assert d.subRoute == [d.subRoute[0]];
    FlattenOne(d.subRoute[0], p);
    CanonicalExtend(p, b);
    EnsureHashJoin(p, b);
    assert Flatten([], p + b + "/") == [];
  }

  /** The match of a parameter-free record whose path starts the hash `h`. */
  lemma PlainMatch(route: Route, h: string)
    requires IsCanonical(route.path) && ':' !in route.path && route.path <= h
    ensures RouteMatch(route.path, h) == Some(Found(0, |route.path|, []))
  {
    var n := |route.path|;
    assert h[0..0 + n] == route.path;
    AcceptsNoColon(route.path, route.path, []);
    RouteMatchIsLeftmost(route.path, h, 0, n, []);
  }

  /** Both parameter-free records are found at the start of `h`, and the scan accepts both. */
  lemma NestedMatch(parent: Route, child: Route, h: string) returns (ms: seq<Option<Found>>)
    requires IsCanonical(parent.path) && IsCanonical(child.path)
    requires ':' !in parent.path && ':' !in child.path
    requires parent.path <= child.path && h == child.path
    ensures ms == MatchAll([parent, child], h)
    ensures ms == [Some(Found(0, |parent.path|, [])), Some(Found(0, |child.path|, []))]
    ensures Accepted([parent, child], ms, 2) == [0, 1]
  {
    var tree := [parent, child];
    PlainMatch(parent, h);
    PlainMatch(child, h);
    ms := MatchAll(tree, h);
    MatchAllAt(tree, h, 0);
    MatchAllAt(tree, h, 1);
    assert IndexOf(parent.path, "") == 0 by {
      assert OccursAt(parent.path, "", 0);
    }
    assert IndexOf(child.path, parent.path) == 0 by {
      assert OccursAt(child.path, parent.path, 0);
    }
    assert Accepted(tree, ms, 0) == [];
    assert Accepted(tree, ms, 1) == [0];
  }

  /**
    A parent record and a child record, neither with parameters, on a hash
    `h` that is the child's path and starts with the parent's: both are
    matched, parent first, with no values, and no sentinel follows.
  */
  lemma NestedPair(parent: Route, child: Route, location: string, h: string)
    requires IsCanonical(parent.path) && IsCanonical(child.path)
    requires ':' !in parent.path && ':' !in child.path
    requires parent.path <= child.path && parent.name != child.name
    requires h == LocationHash(location) && h == child.path
    ensures MatchedRoutes([parent, child], h, location)
      == Success([MatchedRoute(parent.name, Some(parent.options), map[]), MatchedRoute(child.name, Some(child.options), map[])])
  {
    var tree := [parent, child];
    EnsureHashFixpoint(h);
    var ms := NestedMatch(parent, child, h);
    NestedChain(parent, child, ms);
    var chain := ChainOf(tree, ms, [0, 1]);
    NestedLastUrl(parent, child);
    NotFoundByUrl(tree, chain, h, h);
    NoSentinel(chain);
  }

  /** A chain with nothing appended is itself. */
  lemma NoSentinel(chain: seq<MatchedRoute>)
    ensures chain + [] == chain
  {
  }

  /** The child record, having no parameters, rebuilds to its own path. */
  lemma NestedLastUrl(parent: Route, child: Route)
    requires ':' !in child.path && parent.name != child.name
    ensures HasName([parent, child], child.name) && Url([parent, child], child.name, map[]) == child.path
  {
    var tree := [parent, child];
    CompileNoColon(child.path);
    assert NameIndex(tree, child.name) == Some(1);
  }

  /** The chain of the two accepted parameter-free records: each with no values. */
  lemma NestedChain(parent: Route, child: Route, ms: seq<Option<Found>>)
    requires ':' !in parent.path && ':' !in child.path && parent.name != child.name
    requires ms == [Some(Found(0, |parent.path|, [])), Some(Found(0, |child.path|, []))]
    ensures ValidHits([parent, child], ms, [0, 1])
    ensures ChainOf([parent, child], ms, [0, 1])
      == [MatchedRoute(parent.name, Some(parent.options), map[]), MatchedRoute(child.name, Some(child.options), map[])]
  {
    var tree := [parent, child];
    CompileNoColon(parent.path);
    CompileNoColon(child.path);
    assert NameIndex(tree, parent.name) == Some(0);
    assert NameIndex(tree, child.name) == Some(1);
    assert [0, 1][..1] == [0];
    assert ChainOf(tree, ms, [0, 1]) == [Data(tree, ms, 0), Data(tree, ms, 1)];
  }

  /**
    The tree of `<a> > <b>` on the hash `/<a>/<b>/`, with the location at
    that hash: both records are matched, parent first, with no values, and
    nothing is missing.
  */
  lemma NestedFound(decls: seq<Decl>, a: string, b: string, an: string, bn: string, location: string)
    requires decls == [Decl(a, an, None, [Decl(b, bn, None, [])])] && IsCapture(a) && IsCapture(b) && an != bn
    requires location == "#" + ("/" + a + "/" + b + "/")
    ensures MatchedRoutes(Flatten(decls, ""), "/" + a + "/" + b + "/", location)
      == Success([MatchedRoute(an, Some(map[]), map[]), MatchedRoute(bn, Some(map[]), map[])])
  {
    var p := "/" + a + "/";
    var h := p + b + "/";
    NestedTree(decls, a, b, an, bn);
    NestedHash(a, b, p, h, location);
    NestedPair(Route(p, an, map[]), Route(h, bn, map[]), location, h);
  }

  /** The path `/<a>/<b>/` is what the location `#/<a>/<b>/` reads back. */
  lemma NestedHash(a: string, b: string, p: string, h: string, location: string)
    requires IsCapture(a) && IsCapture(b) && p == "/" + a + "/" && h == p + b + "/" && location == "#" + h
    ensures IsCanonical(p) && IsCanonical(h) && ':' !in p && ':' !in h && p <= h
    ensures h == LocationHash(location)
  {
    NestedPaths(a, b, p, h);
    LocationHashOfWritten(h);
  }

  /** The paths `/<a>/` and `/<a>/<b>/` are canonical and free of ':' and '?', and the first starts the second. */
  lemma NestedPaths(a: string, b: string, p: string, h: string)
    requires IsCapture(a) && IsCapture(b) && p == "/" + a + "/" && h == p + b + "/"
    ensures IsCanonical(p) && IsCanonical(h) && ':' !in p && ':' !in h && '?' !in h && p <= h
  {
    assert IsCanonical("/") && '?' !in "/";
    CanonicalExtend("/", a);
    CanonicalExtend(p, b);
    WordChars(a);
    WordChars(b);
    PrefixExtend(p, b);
  }

  /** Appending nothing leaves a string as it is. */
  lemma AppendEmpty(x: string)
    ensures x + [] == x
  {
  }

  /** A path is a prefix of itself extended by a segment and a '/'. */
  lemma PrefixExtend(p: string, b: string)
    ensures p <= p + b + "/"
  {
    assert (p + b + "/")[..|p|] == p;
  }

  /**
    When every record's path is free of ':' and holds a character the
    canonical hash `h` lacks, no record matches and matching fails.
  */
  lemma NoRecordMatches(tree: seq<Route>, h: string, location: string, c: char)
    requires IsCanonical(h) && c !in h
    requires forall i :: 0 <= i < |tree| ==> ':' !in tree[i].path && c in tree[i].path
    ensures MatchedRoutes(tree, h, location) == Failure(EmptyChain)
  {
    EnsureHashFixpoint(h);
    forall i | 0 <= i < |tree| ensures RouteMatch(tree[i].path, h).None? {
      SearchNoColonAbsent(tree[i].path, h, c);
    }
    ErrorIffNoMatch(tree, h, location);
  }

  /**
    The tree of `<a> > <b>` on the hash `/<b>/` alone, when `a` holds a
    character `b` lacks: neither record's path occurs in the hash, the chain
    is empty, and matching fails (the source reads `name` of `undefined`).
  */
  lemma ChildAloneFails(decls: seq<Decl>, a: string, b: string, an: string, bn: string, c: char, location: string)
    requires decls == [Decl(a, an, None, [Decl(b, bn, None, [])])] && IsCapture(a) && IsCapture(b)
    requires c in a && c !in b
    ensures MatchedRoutes(Flatten(decls, ""), "/" + b + "/", location) == Failure(EmptyChain)
  {
    var tree := Flatten(decls, "");
    var h := "/" + b + "/";
    NestedTree(decls, a, b, an, bn);
    assert IsCanonical("/") && '?' !in "/";
    CanonicalExtend("/", b);
    WordChars(a);
    WordChars(b);
    assert c != '/';
    forall i | 0 <= i < |tree| ensures ':' !in tree[i].path && c in tree[i].path {
      assert i == 0 || i == 1;
    }
    NoRecordMatches(tree, h, location, c);
  }

  // ---------------------------------------------------------------------------
  // The examples

  /** `users/:id`. */
  const UserDecls := [Decl("users/:id", "user", None, [])]

  /** `user` with `{id: "42"}`. */
  const User42 := MatchedRoute("user", Some(map[]), map["id" := Defined("42")])

  /** With the location at `#/users/42/`, the hash `/users/42/` gives `user` with `{id: "42"}` and no sentinel. */
  lemma UserFound(decls: seq<Decl>, h: string, location: string)
    requires decls == UserDecls && h == "/users/42/" && location == "#" + h
    ensures MatchedRoutes(Flatten(decls, ""), h, location) == Success([User42])
  {
    UserWords("id", "42");
    assert "users/:" + "id" == "users/:id";
    assert decls == [Decl("users/:" + "id", "user", None, [])];
    assert h == "/users/" + "42" + "/";
    UsersMatched(decls, "id", "id", [], "42", location);
  }

  /**
    With the location at `#/users/42/extra/`, the pattern matches
    `/users/42/` at the start of the hash, so `user` is matched with
    `{id: "42"}`; the URL rebuilt from it is `/users/42/`, so the sentinel
    follows.
  */
  lemma UserExtraNotFound(decls: seq<Decl>, h: string, location: string)
    requires decls == UserDecls && h == "/users/42/extra/" && location == "#" + h
    ensures MatchedRoutes(Flatten(decls, ""), h, location) == Success([User42, NotFound])
  {
    UserWords("id", "42");
    UserWords("id", "extra");
    assert "users/:" + "id" == "users/:id";
    assert decls == [Decl("users/:" + "id", "user", None, [])];
    assert h == "/users/" + "42" + "/" + "extra" + "/";
    UsersBelow(decls, "id", "42", "extra", location);
  }

  /** The key `name` is `[a-z]+` and the value `v` is `[\w-]+`. */
  lemma UserWords(name: string, v: string)
    requires name == "id" && (v == "42" || v == "extra")
    ensures IsName(name) && IsCapture(name) && name + [] == name && IsCapture(v)
  {
  }

  /** `users/:userId`. */
  const CamelDecls := [Decl("users/:userId", "user", None, [])]

  /** `user` with `{user: "42"}`: the key read from `:userId` bound to the capture. */
  const Camel42 := MatchedRoute("user", Some(map[]), map["user" := Defined("42")])

  /**
    A parameter named `userId`: the pattern captures `42` for the whole token,
    but the key scan reads the key `user`, so the URL rebuilt is
    `/users/42Id/`, never the hash, and the sentinel always follows.
  */
  lemma CamelCaseNotFound(decls: seq<Decl>, h: string, location: string)
    requires decls == CamelDecls && h == "/users/42/" && location == "#" + h
    ensures MatchedRoutes(Flatten(decls, ""), h, location) == Success([Camel42, NotFound])
  {
    CamelWords("userId", "user", "Id", "42");
    assert "users/:" + "userId" == "users/:userId";
    assert decls == [Decl("users/:" + "userId", "user", None, [])];
    assert h == "/users/" + "42" + "/";
    UsersMatched(decls, "userId", "user", "Id", "42", location);
  }

  /** `userId` is the word `user` + `Id`, whose `I` ends the key scan. */
  lemma CamelWords(name: string, k: string, u: string, v: string)
    requires name == "userId" && k == "user" && u == "Id" && v == "42"
    ensures name == k + u && IsCapture(name) && IsName(k) && u != [] && !IsLower(u[0]) && IsCapture(v)
  {
  }

  /** `app` with the child `settings`. */
  const AppDecls := [Decl("app", "app", None, [Decl("settings", "settings", None, [])])]

  /** With the location at `#/app/settings/`, both `app` and `settings` are matched, in that order, and nothing is missing. */
  lemma AppSettingsFound(decls: seq<Decl>, h: string, location: string)
    requires decls == AppDecls && h == "/app/settings/" && location == "#" + h
    ensures MatchedRoutes(Flatten(decls, ""), h, location)
      == Success([MatchedRoute("app", Some(map[]), map[]), MatchedRoute("settings", Some(map[]), map[])])
  {
    AppWords("app", "settings");
    assert h == "/" + "app" + "/" + "settings" + "/";
    NestedFound(decls, "app", "settings", "app", "settings", location);
  }

  /**
    The hash `/settings/` without its parent: neither `/app/` nor
    `/app/settings/` occurs in it, the chain is empty, and matching fails.
  */
  lemma SettingsAloneFails(decls: seq<Decl>, h: string, location: string)
    requires decls == AppDecls && h == "/settings/"
    ensures MatchedRoutes(Flatten(decls, ""), h, location) == Failure(EmptyChain)
  {
    AppWords("app", "settings");
    assert h == "/" + "settings" + "/";
    ChildAloneFails(decls, "app", "settings", "app", "settings", 'p', location);
  }

  /** `app` and `settings` are distinct words, and only `app` holds a 'p'. */
  lemma AppWords(a: string, b: string)
    requires a == "app" && b == "settings"
    ensures IsCapture(a) && IsCapture(b) && a != b && 'p' in a && 'p' !in b
  {
    assert a[1] == 'p';
    assert a[0] != b[0];
  }
}
