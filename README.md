# KeyRouter, modelled in Dafny

KeyRouter is a small hash router for single-page applications
(`src/index.js`). An application declares a tree of named routes, for
example `app > settings` or `users/:id`. The router flattens the tree into a
list of records with normalised full paths (`treeRoutes`). It then
matches the browser's location hash against each record's path pattern.
The result is the chain of records the hash satisfies, each with the parameter values it
captured. A `notFound` sentinel ends the chain when the URL rebuilt from the
last record is not the current hash. In the other direction, the router
builds URLs from a route name and values (`getUrl`, `go`).

When no record's pattern occurs in the hash, the chain is empty, and
`checkNotFoundRoute` reads `.name` of `_.last([])` and throws
(src/index.js:82-83). The model returns `Failure(EmptyChain)` for that pass;
`Scenarios.SettingsAloneFails` is such a case: `app > settings` on the hash `/settings/`.

The model has five modules, one file each, plus a file of worked scenarios:

- `paths.dfy` (`Paths`): `ensureHash` and `getLocationHash`, and the
  canonical form of paths: wrapped in '/' with no "//".
- `patterns.dfy` (`Patterns`): the pattern language a route path compiles to.
  - Every `:[^\s/]+` token becomes the group `([\w-]+)`, modelled as a
    sequence of `Lit(c) | Param(name)` tokens.
  - The greedy prefix matcher and the leftmost search play `String.prototype.match`.
  - `Keys` is the separate `:[a-z]+` key scan of `getRouteKeys`.
- `urls.dfy` (`Urls`): the values object and `_.zipObject`.
  - Also `String.prototype.replace` with a string pattern: it replaces only
    the first occurrence and expands `$$`, `$&`, `` $` `` and `$'`.
  - Also the `getRouteUrl` substitution.
- `router.dfy` (`Routing`): the route tree, lookup by name, `isValidRoute`,
  the matcher and the not-found check as specification functions.
  - The class `Router` holds `treeRoutes` as its field `tree`, and the
    browser's `window.location.hash` as its field `location`.
  - Its methods are the imperative code of the source: the recursive
    `initRoutes` loop, the `getMatchedRoutes` loop (`ScanRoutes`), the
    `getRouteUrl` loop, `checkNotFoundRoute`, `addRoutes`, `onHashChange`, `getUrl` and `go`.
  - Each method is proved equal to the specification functions, and the
    lemmas state what the source promises about them.
- `scenarios.dfy` (`Scenarios`): end-to-end results for trees of the
  shapes applications declare.
  - Each shape is proved for every name and value it allows, then for
    `users/:id`, `users/:userId` and `app > settings`.

## Model

| member | source | states |
|---|---|---|
| Paths.Collapse | src/index.js:29 | `replace(/\/+/g, '/')`: the result has no "//", is no longer than the input, keeps its first and last character, and keeps every non-slash character in order |
| Paths.EnsureHash | src/index.js:27-30 | the result starts and ends with '/', holds no "//", and keeps the input's non-slash characters in order |
| Paths.EnsureHashFixpoint | src/index.js:27-30 | a path already in canonical form comes back unchanged |
| Paths.EnsureHashIdempotent | src/index.js:27-30 | normalising twice is normalising once |
| Paths.EnsureHashExtends | src/index.js:40 | joining a canonical parent path with any segment gives a path that starts with the parent path |
| Paths.EnsureHashJoin | src/index.js:40 | a canonical parent joined with a segment that adds no "//" gives parent, segment and '/' |
| Paths.EnsureHashRoot | src/index.js:38-40 | a top-level declaration, whose parent path defaults to '', gives '/' + segment + '/' |
| Paths.IndexOf | src/index.js:22 | `indexOf`: -1 or a position where the pattern occurs, with no occurrence before it |
| Paths.RemoveFirstHash | src/index.js:21 | `replace('#', '')`: a string without '#' is unchanged; otherwise exactly one character, the first '#', is dropped |
| Paths.IndexFrom | src/index.js:22 | `indexOf`: the first position at or after `k` where the pattern occurs, or -1 when it occurs nowhere there |
| Paths.LocationHash | src/index.js:20-25 | the hash read from the location is canonical and holds no '?' (the query is cut off) |
| Paths.LocationHashQuery | src/index.js:20-25 | a query string is cut off: `'#' + p + '?' + q`, with no '?' in `p`, reads as `p` normalised |
| Paths.LocationHashNoQuery | src/index.js:20-25 | a hash without '?' reads as the text after its '#', normalised |
| Paths.LocationHashOfWritten | src/index.js:20-25 | writing '#' + a canonical, '?'-free URL to the location and reading it back gives that URL |
| Patterns.Run | src/index.js:69 | the longest run of a character class at the start of a string: every character in it belongs to the class, and the next one does not |
| Patterns.Compile | src/index.js:69 | `path.replace(/:[^\s/]+/g, '([\\w-]+)')` as tokens: the definition; `CompileRoundTrip`, `CompileLit` and `CompileParam` state what it produces |
| Patterns.CompileRoundTrip | src/index.js:69 | compiling a path loses nothing: the tokens spell the path back |
| Patterns.UnparseRoundTrip | src/index.js:69 | the text of a well-formed token sequence compiles back to the same tokens |
| Patterns.CompileLit | src/index.js:69 | a character that does not start a `:[^\s/]+` token compiles to a literal |
| Patterns.CompileParam | src/index.js:69 | ':' and a maximal run of `[^\s/]` compile to one parameter token |
| Patterns.CompileDelimited | src/index.js:69 | in a path ending in '/', every parameter token is followed by a literal outside `[\w-]`, so greedy capture is exact |
| Patterns.CompileColons | src/index.js:69 | a literal ':' in a compiled path is never followed by a character that would have made a token |
| Patterns.CompileAfterNoColon | src/index.js:69 | a prefix without ':' compiles to the same literals whatever follows it |
| Patterns.CompileNoColon | src/index.js:69 | a path without ':' compiles to literals only, has no keys, and spells itself |
| Patterns.Names | src/index.js:69 | one name per parameter token |
| Patterns.MatchPrefix | src/index.js:69-70 | the greedy matcher returns only genuine matches of the expression at the start of the string |
| Patterns.AcceptsLit | src/index.js:69-70 | a literal followed by a match of the rest of the pattern is a match |
| Patterns.AcceptsParam | src/index.js:69-70 | a `[\w-]+` capture followed by a match of the rest of the pattern is a match |
| Patterns.GreedyComplete | src/index.js:69-70 | for a delimited pattern, whatever the expression matches at the start of a string is what the greedy matcher returns, so a match at a given position is unique |
| Patterns.Search | src/index.js:70 | `hash.match(regex)`: a result is a genuine match lying inside the string |
| Patterns.SearchFrom | src/index.js:70 | a result found from position `i` starts at or after `i` and is a genuine match |
| Patterns.SearchFromLeftmost | src/index.js:70 | no match starts between the search's start and the match it returns |
| Patterns.SearchLeftmost | src/index.js:70 | any match of a delimited pattern at position `i` is found by the search, or one starting earlier is |
| Patterns.SearchFilled | src/index.js:69-70 | searching the text spelled by filling a delimited pattern with captures finds, at 0, the whole text and those captures |
| Patterns.FillConcat | src/index.js:69-70 | filling two patterns one after the other fills each with its own groups |
| Patterns.AcceptsNoColon | src/index.js:69-70 | the pattern of a path without ':' matches that path and nothing else, capturing nothing |
| Patterns.SearchNoColonAbsent | src/index.js:70 | the pattern of a path without ':' is found nowhere in a string lacking one of the path's characters |
| Patterns.Keys | src/index.js:103-110 | the `/:[a-z]+/g` scan of `getRouteKeys`, each match without its ':': the definition; `KeysOfCompiled`, `KeysSkip` and `KeysToken` state what it reads |
| Patterns.KeysAreNames | src/index.js:103-110 | every key the `:[a-z]+` scan reads is a non-empty run of lower-case letters |
| Patterns.KeysSkip | src/index.js:103-110 | a character that cannot start a key leaves the scan of the rest unchanged |
| Patterns.KeysToken | src/index.js:103-110 | a token ':' + `k` followed by a non-letter is read as the key `k` |
| Patterns.KeysAfterNoColon | src/index.js:103-110 | a prefix without ':' adds no key |
| Patterns.KeysOfUnparse | src/index.js:103-110 | for delimited tokens with `[a-z]+` parameters, the key scan reads exactly the parameter names, in order |
| Patterns.KeysOfCompiled | src/index.js:103-110 | for a path ending in '/' whose parameters are `[a-z]+`, the keys are the parameter names of the compiled pattern |
| Urls.Expand | src/index.js:98 | a replacement string without '$' is inserted literally |
| Urls.ZipObject | src/index.js:77 | `_.zipObject(keys, groups)`: the definition; `ZipObjectDomain`, `ZipObjectAt` and `ZipObjectLookup` state its keys and values |
| Urls.ZipObjectDomain | src/index.js:77 | `_.zipObject` gives exactly the keys it was given |
| Urls.ZipObjectAt | src/index.js:77 | a key takes the group at its last position, or `undefined` past the last group |
| Urls.ZipObjectLookup | src/index.js:77 | with distinct keys and enough groups, each key reads the group at its own position |
| Urls.ReplaceFirst | src/index.js:98 | `String.prototype.replace` with a string pattern: only the first occurrence is replaced, with `$` patterns expanded; `Expand` and `ReplaceAtToken` state its effect |
| Urls.Substitute | src/index.js:97-99 | the `getRouteUrl` loop as a function: one `ReplaceFirst` per key, in key order; `SubstituteFill` states what it spells |
| Urls.ReplaceAtToken | src/index.js:98 | when nothing before a token can start ':' + `k`, replacing ':' + `k` replaces that token |
| Urls.SubstituteParamStep | src/index.js:97-99 | one pass of the `getRouteUrl` loop replaces the first parameter token with its value |
| Urls.SubstituteLitStep | src/index.js:97-99 | a literal is copied unchanged by the substitution |
| Urls.SubstituteFill | src/index.js:95-101 | substituting the captured values back into a compiled path spells the pattern filled with those captures |
| Urls.RebuildIsFill | src/index.js:95-101 | rebuilding a URL from the values zipped from a match gives exactly the text the pattern matched (path ending '/', distinct `[a-z]+` keys) |
| Routing.Flatten | src/index.js:36-48 | one record per declaration, nested ones included, and every record path canonical |
| Routing.FlattenAppend | src/index.js:39 | the records of two declaration lists are those of each, in order |
| Routing.FlattenOne | src/index.js:39-47 | a declaration's record comes first, with options defaulting to `{}`, followed by the records of its subtree |
| Routing.FlattenUnder | src/index.js:40-46 | every record below a canonical parent path starts with that path |
| Routing.ParentBeforeDescendants | src/index.js:36-48 | pre-order: the first record is the first declaration's, and every record of its subtree follows it and has its path as a prefix |
| Routing.Router.constructor | src/index.js:34 | the route tree starts empty |
| Routing.Router.InitRoutes | src/index.js:36-48 | the tree becomes the old tree followed by the flattened declarations; existing records and the location are unchanged |
| Routing.NameIndex | src/index.js:91-93 | a position found holds a record of that name |
| Routing.NameIndexIsFind | src/index.js:91-93 | `_.find`: none is found exactly when no record has the name, and the one found is the first |
| Routing.Missing | src/index.js:114 | `_.difference`: exactly the keys that the values lack |
| Routing.IsValidRoute | src/index.js:112-116 | `undefined` exactly for an unknown name; otherwise true iff every key of the route is a key of the values, extra keys ignored |
| Routing.ZippedValuesValid | src/index.js:112-116 | values zipped from a route's own keys are valid for it |
| Routing.RouteKeys | src/index.js:103-110 | `getRouteKeys(name)`: the key scan of the path of the first record of that name |
| Routing.Url | src/index.js:95-101 | what `getRouteUrl(name, values)` returns, stated as a function; `Router.GetRouteUrl` is proved equal to it |
| Routing.Router.GetRouteUrl | src/index.js:95-101 | the loop's result is the stored path with each key's first ':' + key replaced in key order |
| Routing.RouteMatch | src/index.js:68-71 | a match returned is a genuine match of the compiled path inside the hash |
| Routing.RouteMatchIsLeftmost | src/index.js:68-71 | for a canonical path, any substring of the hash the pattern matches is found, or one starting earlier |
| Routing.MatchAll | src/index.js:56-57 | one match result per record |
| Routing.MatchAllAt | src/index.js:56-57 | the `i`-th match result is record `i`'s |
| Routing.MatchAllSound | src/index.js:57-70 | every match result is a genuine match of its record's pattern in the hash |
| Routing.Accepted | src/index.js:52-63 | the accepted positions are records whose pattern matched, in strictly increasing tree order, and each accepted path contains the path accepted before it |
| Routing.ChainOf | src/index.js:61 | one chain element per accepted record, the last of them named after a record |
| Routing.ChainAt | src/index.js:73-79 | the `j`-th chain element is the data of the `j`-th accepted record |
| Routing.MatchedData | src/index.js:73-79 | `getMatchedRouteData`: the record's name and options, and the values zipped from its keys and the groups |
| Routing.Data | src/index.js:73-79 | a chain element carries its record's name, which finds a record |
| Routing.NotFound | src/index.js:118-121 | `NOT_FOUND_ROUTE`: the name `notFound`, no options, no values |
| Routing.WithNotFound | src/index.js:81-87 | an error exactly for an empty chain; otherwise the chain, possibly followed by the one sentinel |
| Routing.ScanRoutes | src/index.js:52-63 | the loop over the records yields the chain of the records the acceptance rule picks, in tree order |
| Routing.ScanRoute | src/index.js:57-62 | one pass of the loop body keeps the chain and `lastMatchedPath` equal to those of the records accepted so far |
| Routing.ScanAccept | src/index.js:59-61 | a record that matches and contains the last accepted path is appended and becomes the last path |
| Routing.ScanSkip | src/index.js:59 | any other record changes nothing |
| Routing.Router.MatchChain | src/index.js:56-63 | the pass over `treeRoutes` yields the chain of the accepted records |
| Routing.Router.CheckNotFoundRoute | src/index.js:81-87 | the chain with the sentinel appended iff the URL rebuilt from the last element differs from the current location's hash; an error for an empty chain |
| Routing.MatchedRoutes | src/index.js:52-66 | what `getMatchedRoutes(hash)` returns, stated as a function; `ErrorIffNoMatch`, `NotFoundByUrl` and `SentinelIffPartialMatch` state its properties |
| Routing.Router.GetMatchedRoutes | src/index.js:52-66 | the result is the chain over the normalised hash followed by the not-found check against the location |
| Routing.Router.OnHashChange | src/index.js:13-18 | the pass on the current location's hash: its result is what the observers receive, and it fails exactly when no record's pattern occurs in that hash |
| Routing.Router.AddRoutes | src/index.js:125-129 | the tree grows by the flattened declarations, and the pass run on the current location gives the chain for its hash |
| Routing.Router.GetUrl | src/index.js:141-145 | a URL is returned exactly when the route is valid, and it is '#' + the built URL |
| Routing.Router.Go | src/index.js:135-139 | a valid route sets the location to '#' + the built URL; otherwise the location is unchanged |
| Routing.NoHitsBefore | src/index.js:59 | before the first record whose pattern matches, nothing is accepted |
| Routing.FirstHitAccepted | src/index.js:54-59 | the first record whose pattern matches is always accepted, because `lastMatchedPath` starts as '' |
| Routing.LeastHit | src/index.js:56-59 | a record that matches has a first matching record at or before it |
| Routing.ErrorIffNoMatch | src/index.js:64-83 | matching fails exactly when no record's pattern matches the normalised hash |
| Routing.ZipObjectValues | src/index.js:77 | every defined value of a zipped object is one of the groups |
| Routing.DataValuesAreCaptures | src/index.js:73-79 | a record's data built from captures holds only captured values |
| Routing.ChainValuesAreCaptures | src/index.js:56-63 | a chain built from genuine matches holds only captured values |
| Routing.SentinelKeepsCaptures | src/index.js:85 | the sentinel has no values, so appending it keeps every value a capture |
| Routing.MatchedValuesAreCaptures | src/index.js:52-87 | every defined value in a result of `getMatchedRoutes` is a non-empty string over `[A-Za-z0-9_-]` |
| Routing.MatchedValuesByPosition | src/index.js:73-79 | for an accepted record that is the first of its name, with distinct `[a-z]+` keys, each key maps to the group captured at its position |
| Routing.RebuiltUrlIsMatchedText | src/index.js:95-101 | for such a record, the URL rebuilt from a match's data is the text matched |
| Routing.LastUrlIsMatched | src/index.js:82-83 | for a canonical tree whose last accepted record is the first record of its name and has distinct `[a-z]+` parameter names, the URL rebuilt from the last element of the chain is the text its pattern matched in the hash |
| Routing.NotFoundByUrl | src/index.js:83-86 | the sentinel is appended exactly when the rebuilt URL differs from the current hash, and nothing else in the chain changes |
| Routing.NotFoundIffPartial | src/index.js:81-87 | for a canonical tree whose last accepted record is the first record of its name and has distinct `[a-z]+` parameter names, the sentinel is appended iff the last match does not cover the whole hash |
| Routing.SentinelIffPartialMatch | src/index.js:52-87 | on the current location's hash (the hash-change pass), the result is the chain plus the sentinel exactly when the last match is partial |
| Routing.BuildThenMatch | src/index.js:68-71 | a URL built from captured values for a valid route is matched whole by the route's pattern, and gives the same values back |
| Scenarios.SingleRouteUrl | src/index.js:52-87 | a one-record tree whose pattern matches a prefix of the hash: the chain is that record with zipped values, and the sentinel follows iff the rebuilt URL is not the hash |
| Scenarios.UsersCompile | src/index.js:69 | `/users/:<name>/` compiles to the literals of `/users/`, a parameter and a '/' |
| Scenarios.UsersAccepts | src/index.js:69-70 | that pattern matches `/users/<v>/` whole, capturing `v` |
| Scenarios.UsersKeys | src/index.js:103-110 | the key scan of `/users/:<k><u>/` reads only `k`, the lower-case run after ':' |
| Scenarios.UsersUrl | src/index.js:95-101 | rebuilding `/users/:<k><u>/` with `k` bound to `v` gives `/users/<v><u>/` |
| Scenarios.UsersPath | src/index.js:40 | the declared path `users/:<name>` is stored as `/users/:<name>/` |
| Scenarios.UsersTree | src/index.js:36-48 | the tree of `users/:<name>` is the one record `/users/:<name>/` with options `{}` |
| Scenarios.UsersMatched | src/index.js:52-87 | `users/:<name>` on `/users/<v>/`: the record with its key bound to `v`; the sentinel follows exactly when the name is not all lower-case letters |
| Scenarios.UsersBelow | src/index.js:52-87 | `users/:<name>` on the deeper hash `/users/<v>/<e>/`: the record with `{name: v}`, then the sentinel |
| Scenarios.NestedTree | src/index.js:36-48 | the tree of `<a> > <b>` is `/<a>/` followed by `/<a>/<b>/` |
| Scenarios.PlainMatch | src/index.js:68-71 | a parameter-free path that starts the hash is matched at 0 over its length |
| Scenarios.NestedMatch | src/index.js:56-63 | both nested records match `/<a>/<b>/` at its start, and both are accepted |
| Scenarios.NestedPair | src/index.js:52-87 | a parent and a child without parameters, on the child's path: both are matched, parent first, and no sentinel follows |
| Scenarios.NestedFound | src/index.js:52-87 | `<a> > <b>` on `/<a>/<b>/`: the chain is `[<a>, <b>]` with no values and no sentinel |
| Scenarios.NoRecordMatches | src/index.js:52-64 | when every parameter-free record holds a character the hash lacks, matching fails |
| Scenarios.ChildAloneFails | src/index.js:52-64 | `<a> > <b>` on `/<b>/` alone, when `a` holds a character `b` lacks: matching fails |
| Scenarios.UserFound | src/index.js:52-87 | `users/:id` on `/users/42/` gives `user` with `{id: "42"}` and no sentinel |
| Scenarios.UserExtraNotFound | src/index.js:52-87 | `users/:id` on `/users/42/extra/` gives `user` with `{id: "42"}`, then the sentinel |
| Scenarios.CamelCaseNotFound | src/index.js:52-87 | `users/:userId` on `/users/42/` gives `user` with `{user: "42"}`, then the sentinel |
| Scenarios.AppSettingsFound | src/index.js:52-87 | `app > settings` on `/app/settings/` gives `[app, settings]` with no sentinel |
| Scenarios.SettingsAloneFails | src/index.js:52-64 | `app > settings` on `/settings/` fails: no record matches, and the chain is empty |

## Left out

- The `hashchange` subscription (src/index.js:7-9) is browser event I/O. The observer list and its dispatch (`onChangeHashCallbacks`, `onHashChange`, `onChangeHash`, src/index.js:11-18, 131-133) is callback plumbing. The pass the handler runs is `Routing.Router.OnHashChange`, whose sentinel decision is `Routing.SentinelIffPartialMatch`. `Routing.Router.AddRoutes` returns the chain the observers would receive.
- `window.location.hash` is the field `location` of `Router`. Reading it is `Paths.LocationHash`. Writing it in `go` stores '#' + the URL, which is what the browser reads back for a URL of printable ASCII characters other than space, `"`, `<`, `>` and `` ` ``. A browser percent-encodes those characters and non-ASCII ones in the fragment, and that encoding is not modelled, so `{id: 'a b'}` would read back as `a%20b`. The `hashchange` event that a write fires is not modelled either.
- Only the restricted regular expressions route paths compile to are modelled. Literals are matched as themselves, which is what a path without metacharacters gives.
- Routing.Router.GetMatchedRoutes: requires `PlainTree`, meaning no record path holds a regular-expression metacharacter outside its tokens. With one, the source would build a different expression.
- Routing.Router.GetRouteUrl: requires a name that finds a record. With an unknown name, `getRouteByName(name).path` throws. No caller in the file passes one: `go` and `getUrl` check `isValidRoute` first, and `checkNotFoundRoute` passes a name taken from a matched record.
- Routing.LastUrlIsMatched, Routing.NotFoundIffPartial, Routing.SentinelIffPartialMatch, Routing.MatchedValuesByPosition, Routing.RebuiltUrlIsMatchedText and Routing.BuildThenMatch are stated only for a record that meets two conditions.
  - It is the first record of its name.
  - Its parameter names are distinct `[a-z]+` names.
  - Without these the key scan and the compiled pattern disagree. `Scenarios.CamelCaseNotFound` and `Scenarios.UsersMatched` show what happens for a name like `userId`.
- No query-string encoder or decoder exists in the code. `getLocationHash` only cuts the hash at the first '?'.
- lodash is taken by its sequence semantics, not modelled as a library:
  - `_.each` visits in order and does nothing on `undefined`, so a missing `subRoute` is `[]`.
  - `_.find` returns the first match.
  - `_.zipObject` pairs by position, gives `undefined` past the last group, and lets a later duplicate key win.
  - `_.rest` gives the groups.
  - `_.difference` and `_.last` behave as on sequences.
- `route.options || {}` is modelled with `Option`: every falsy `options` is `None`, and record options are string maps the router only carries.
- `isValidRoute` answers `undefined` for an unknown name, modelled as `None`. `getUrl` then returns `undefined`, also modelled as `None`.
- Integers, floating point and concurrency play no part in the core.
