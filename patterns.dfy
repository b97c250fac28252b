/**
  The route pattern language.

  A stored route path is turned into a regular expression by replacing every
  token `:[^\s/]+` with the capture group `([\w-]+)`; the expression is then
  searched for, unanchored, in the hash. Outside those tokens a path holds no
  regular-expression metacharacter, so every other character matches itself.
  The model keeps exactly that language: a pattern is a sequence of `Lit(c)`
  and `Param(name)` tokens. The parameter names of a path are read separately
  by the global scan `:[a-z]+`.
*/
module Patterns {
  import opened Wrappers

  // ---------------------------------------------------------------------------
  // Character classes

  /** JavaScript's `\s`. */
  predicate IsSpace(c: char) {
    c == ' ' || c == '\t' || c == '\n' || c == '\r' || c == '\U{000B}' || c == '\U{000C}'
    || c == '\U{00A0}' || c == '\U{1680}' || ('\U{2000}' <= c <= '\U{200A}')
    || c == '\U{2028}' || c == '\U{2029}' || c == '\U{202F}' || c == '\U{205F}'
    || c == '\U{3000}' || c == '\U{FEFF}'
  }

  /** `[^\s/]`: a character that continues a parameter token of a path. */
  predicate IsTokenChar(c: char) {
    !IsSpace(c) && c != '/'
  }

  /** `[\w-]`: a character a captured parameter value may hold. */
  predicate IsCaptureChar(c: char) {
    ('a' <= c <= 'z') || ('A' <= c <= 'Z') || ('0' <= c <= '9') || c == '_' || c == '-'
  }

  /** `[a-z]`: a character of a parameter name as the key scan reads it. */
  predicate IsLower(c: char) {
    'a' <= c <= 'z'
  }

  /** A regular-expression metacharacter. */
  predicate IsMeta(c: char) {
    c == '\\' || c == '^' || c == '$' || c == '.' || c == '|' || c == '?' || c == '*' || c == '+'
    || c == '(' || c == ')' || c == '[' || c == ']' || c == '{' || c == '}'
  }

  /** The three character classes the router scans runs of. */
  datatype Class = TokenChars | CaptureChars | LowerChars

  /** `c` belongs to class `cls`. */
  predicate In(cls: Class, c: char) {
    match cls
    case TokenChars => IsTokenChar(c)
    case CaptureChars => IsCaptureChar(c)
    case LowerChars => IsLower(c)
  }

  /** The length of the longest prefix of `s` whose characters all belong to `cls`. */
  function Run(s: string, cls: Class): (n: nat)
    ensures n <= |s|
    ensures forall i :: 0 <= i < n ==> In(cls, s[i])
    ensures n < |s| ==> !In(cls, s[n])
  {
    if s != [] && In(cls, s[0]) then 1 + Run(s[1..], cls) else 0
  }

  // ---------------------------------------------------------------------------
  // Compilation

  /** A compiled path token; `Param` keeps the token's text after ':'. */
  datatype Tok = Lit(c: char) | Param(name: string)

  /** `path.replace(/:[^\s/]+/g, '([\\w-]+)')`, as tokens. */
  function Compile(path: string): seq<Tok> {
    if path == [] then []
    else if path[0] == ':' && |path| > 1 && IsTokenChar(path[1]) then
      var n := Run(path[1..], TokenChars);
      [Param(path[1..1 + n])] + Compile(path[1 + n..])
    else [Lit(path[0])] + Compile(path[1..])
  }

  /** The path text a token sequence was compiled from. */
  function Unparse(toks: seq<Tok>): string {
    if toks == [] then []
    else
      (match toks[0] case Lit(c) => [c] case Param(name) => ":" + name) + Unparse(toks[1..])
  }

  /** Every parameter token is followed by a literal that cannot extend a captured value. */
  predicate Delimited(toks: seq<Tok>) {
    toks == [] ||
    ((toks[0].Param? ==> |toks| > 1 && toks[1].Lit? && !IsCaptureChar(toks[1].c)) && Delimited(toks[1..]))
  }

  /** A literal ':' is never followed by a character that would have made it a token. */
  predicate ColonsLiteral(toks: seq<Tok>) {
    toks == [] ||
    ((toks[0] == Lit(':') && |toks| > 1 ==> toks[1].Lit? && !IsTokenChar(toks[1].c)) && ColonsLiteral(toks[1..]))
  }

  /** No literal is a regular-expression metacharacter. */
  predicate Plain(toks: seq<Tok>) {
    toks == [] || ((toks[0].Lit? ==> !IsMeta(toks[0].c)) && Plain(toks[1..]))
  }

  /**
    The token sequences some path compiles to: each parameter name is a
    non-empty run of `[^\s/]`, and a parameter token or a literal ':' is
    followed by nothing or by a literal outside `[^\s/]`.
  */
  predicate Tokenized(toks: seq<Tok>) {
    toks == [] ||
    (&& (toks[0].Param? ==> |toks[0].name| > 0 && forall i :: 0 <= i < |toks[0].name| ==> IsTokenChar(toks[0].name[i]))
     && (toks[0].Param? || toks[0] == Lit(':') ==> |toks| == 1 || (toks[1].Lit? && !IsTokenChar(toks[1].c)))
     && Tokenized(toks[1..]))
  }

  /** Every parameter token is a name `[a-z]+`. */
  predicate SimpleParams(toks: seq<Tok>) {
    toks == [] || ((toks[0].Param? ==> IsName(toks[0].name)) && SimpleParams(toks[1..]))
  }

  predicate IsName(s: string) {
    |s| > 0 && forall i :: 0 <= i < |s| ==> IsLower(s[i])
  }

  /** The names of the parameter tokens, in order. */
  function Names(toks: seq<Tok>): (names: seq<string>)
    ensures |names| == ParamCount(toks)
  {
    if toks == [] then []
    else (if toks[0].Param? then [toks[0].name] else []) + Names(toks[1..])
  }

  function ParamCount(toks: seq<Tok>): nat {
    if toks == [] then 0 else (if toks[0].Param? then 1 else 0) + ParamCount(toks[1..])
  }

  // ---------------------------------------------------------------------------
  // Regular-expression semantics

  /** A value `([\w-]+)` can capture. */
  predicate IsCapture(v: string) {
    |v| > 0 && forall i :: 0 <= i < |v| ==> IsCaptureChar(v[i])
  }

  /** The text the pattern spells with `caps` put in place of its parameters. */
  function Fill(toks: seq<Tok>, caps: seq<string>): string
    requires |caps| == ParamCount(toks)
  {
    if toks == [] then []
    else match toks[0]
      case Lit(c) => [c] + Fill(toks[1..], caps)
      case Param(_) => caps[0] + Fill(toks[1..], caps[1..])
  }

  /** The compiled expression matches the whole of `w`, capturing `caps`. */
  predicate Accepts(toks: seq<Tok>, w: string, caps: seq<string>) {
    |caps| == ParamCount(toks)
    && (forall i :: 0 <= i < |caps| ==> IsCapture(caps[i]))
    && Fill(toks, caps) == w
  }

  // ---------------------------------------------------------------------------
  // The matcher

  /** A match of a pattern at the start of a string: its length and its groups. */
  datatype Span = Span(len: nat, caps: seq<string>)

  /** A match inside a string: where it starts, its length and its groups. */
  datatype Found = Found(start: nat, len: nat, caps: seq<string>)

  /**
    Match the pattern at the start of `s`, each parameter taking the longest
    run of `[\w-]` and never giving any back. What it returns is a match.
  */
  function MatchPrefix(toks: seq<Tok>, s: string): (r: Option<Span>)
    ensures r.Some? ==> r.value.len <= |s| && Accepts(toks, s[..r.value.len], r.value.caps)
  {
    if toks == [] then Some(Span(0, []))
    else match toks[0]
      case Lit(c) =>
        if s != [] && s[0] == c then
          match MatchPrefix(toks[1..], s[1..])
          case None => None
          case Some(m) =>
            AcceptsLit(toks, s, m.len, m.caps);
            Some(Span(m.len + 1, m.caps))
        else None
      case Param(_) =>
        var k := Run(s, CaptureChars);
        if k == 0 then None
        else match MatchPrefix(toks[1..], s[k..])
          case None => None
          case Some(m) =>
            AcceptsParam(toks, s, k, m.len, m.caps);
            Some(Span(m.len + k, [s[..k]] + m.caps))
  }

  /** A literal that starts `s`, followed by a match of the rest of the pattern, is a match. */
  lemma AcceptsLit(toks: seq<Tok>, s: string, n: nat, caps: seq<string>)
    requires toks != [] && toks[0].Lit? && s != [] && s[0] == toks[0].c
    requires n < |s| && Accepts(toks[1..], s[1..][..n], caps)
    ensures Accepts(toks, s[..n + 1], caps)
  {
    assert s[..n + 1] == [s[0]] + s[1..][..n];
  }

  /** A capture that starts `s`, followed by a match of the rest of the pattern, is a match. */
  lemma AcceptsParam(toks: seq<Tok>, s: string, k: nat, n: nat, caps: seq<string>)
    requires toks != [] && toks[0].Param? && 0 < k <= |s|
    requires forall i :: 0 <= i < k ==> IsCaptureChar(s[i])
    requires n <= |s| - k && Accepts(toks[1..], s[k..][..n], caps)
    ensures Accepts(toks, s[..n + k], [s[..k]] + caps)
  {
    var all := [s[..k]] + caps;
    assert all[1..] == caps;
    assert IsCapture(s[..k]);
    assert s[..n + k] == s[..k] + s[k..][..n];
  }

  /** The leftmost position at or after `i` where the pattern matches, with that match. */
  function SearchFrom(toks: seq<Tok>, s: string, i: nat): (r: Option<Found>)
    requires i <= |s|
    decreases |s| - i
    ensures r.Some? ==>
      && i <= r.value.start && r.value.start + r.value.len <= |s|
      && Accepts(toks, s[r.value.start..r.value.start + r.value.len], r.value.caps)
  {
    match MatchPrefix(toks, s[i..])
    case Some(m) =>
      assert s[i..][..m.len] == s[i..i + m.len];
      Some(Found(i, m.len, m.caps))
    case None =>
      if i == |s| then None else SearchFrom(toks, s, i + 1)
  }

  /** `hash.match(new RegExp(compiled))`: the leftmost match of the pattern in `s`. */
  function Search(toks: seq<Tok>, s: string): (r: Option<Found>)
    ensures r.Some? ==>
      && r.value.start + r.value.len <= |s|
      && Accepts(toks, s[r.value.start..r.value.start + r.value.len], r.value.caps)
  {
    SearchFrom(toks, s, 0)
  }

  // ---------------------------------------------------------------------------
  // The parameter-name scan

  /** `path.match(/:[a-z]+/g)` with each leading ':' dropped. */
  function Keys(path: string): seq<string> {
    if path == [] then []
    else if path[0] == ':' && |path| > 1 && IsLower(path[1]) then
      var n := Run(path[1..], LowerChars);
      [path[1..1 + n]] + Keys(path[1 + n..])
    else Keys(path[1..])
  }

  // ---------------------------------------------------------------------------
  // Lemmas

  /** Compiling loses nothing: the tokens spell the path back. */
  lemma {:induction false} CompileRoundTrip(path: string)
    ensures Unparse(Compile(path)) == path
  {
    if path != [] {
      if path[0] == ':' && |path| > 1 && IsTokenChar(path[1]) {
        var n := Run(path[1..], TokenChars);
        var toks := [Param(path[1..1 + n])] + Compile(path[1 + n..]);
        CompileRoundTrip(path[1 + n..]);
        assert toks[1..] == Compile(path[1 + n..]);
        SplitToken(path, n);
      } else {
        var toks := [Lit(path[0])] + Compile(path[1..]);
        CompileRoundTrip(path[1..]);
        assert toks[1..] == Compile(path[1..]);
        Uncons(path, []);
      }
    }
  }

  /** A path that starts with ':' is the ':', the `n` characters after it, and the rest. */
  lemma SplitToken(path: string, n: nat)
    requires |path| > 0 && path[0] == ':' && 1 + n <= |path|
    ensures path == ":" + path[1..1 + n] + path[1 + n..]
  {
  }

  /** A character that does not start a parameter token compiles to a literal. */
  lemma CompileLit(c: char, u: string)
    requires c == ':' ==> u == [] || !IsTokenChar(u[0])
    ensures Compile([c] + u) == [Lit(c)] + Compile(u)
  {
    assert ([c] + u)[1..] == u;
  }

  /** `':' + name` followed by a non-token character compiles to the parameter `name`. */
  lemma CompileParam(name: string, u: string)
    requires |name| > 0 && forall i :: 0 <= i < |name| ==> IsTokenChar(name[i])
    requires u == [] || !IsTokenChar(u[0])
    ensures Compile(":" + name + u) == [Param(name)] + Compile(u)
  {
    var path := ":" + name + u;
    assert path[1..] == name + u;
    RunOfConcat(name, u, TokenChars);
    assert path[1..1 + |name|] == name && path[1 + |name|..] == u;
  }

  /** Parsing the text of a well-formed token sequence gives the tokens back. */
  lemma {:induction false} UnparseRoundTrip(toks: seq<Tok>)
    requires Tokenized(toks)
    ensures Compile(Unparse(toks)) == toks
  {
    if toks != [] {
      var rest := toks[1..];
      var u := Unparse(rest);
      UnparseRoundTrip(rest);
      if rest != [] && rest[0].Lit? {
        UnparseFirst(rest);
      }
      match toks[0]
      case Lit(c) =>
        assert Unparse(toks) == [c] + u;
        CompileLit(c, u);
      case Param(name) =>
        assert Unparse(toks) == ":" + name + u;
        CompileParam(name, u);
    }
  }

  /** The first token of a path that starts with a non-token character is that literal. */
  lemma CompileStartsWithLit(path: string)
    requires path != [] && !IsTokenChar(path[0])
    ensures Compile(path) != [] && Compile(path)[0] == Lit(path[0])
  {
  }

  /** In a path that ends with '/', every parameter token is followed by a '/' or a space literal. */
  lemma {:induction false} CompileDelimited(path: string)
    requires path != [] && path[|path| - 1] == '/'
    ensures Delimited(Compile(path))
  {
    var toks := Compile(path);
    if path[0] == ':' && |path| > 1 && IsTokenChar(path[1]) {
      var n := Run(path[1..], TokenChars);
      var rest := path[1 + n..];
      CompileDelimited(rest);
      CompileStartsWithLit(rest);
      assert toks == [Param(path[1..1 + n])] + Compile(rest);
    } else if |path| > 1 {
      CompileDelimited(path[1..]);
      assert toks == [Lit(path[0])] + Compile(path[1..]);
    }
  }

  /** A literal ':' in a compiled path is never followed by a token character. */
  lemma {:induction false} CompileColons(path: string)
    ensures ColonsLiteral(Compile(path))
  {
    var toks := Compile(path);
    if path != [] {
      if path[0] == ':' && |path| > 1 && IsTokenChar(path[1]) {
        var n := Run(path[1..], TokenChars);
        CompileColons(path[1 + n..]);
        assert toks == [Param(path[1..1 + n])] + Compile(path[1 + n..]);
      } else {
        CompileColons(path[1..]);
        assert toks == [Lit(path[0])] + Compile(path[1..]);
        if path[0] == ':' && |path| > 1 {
          CompileStartsWithLit(path[1..]);
        }
      }
    }
  }

  /** The longest `cls`-run of `a + b` is `a` when all of `a` is in `cls` and `b` does not start in it. */
  lemma {:induction false} RunOfConcat(a: string, b: string, cls: Class)
    requires forall i :: 0 <= i < |a| ==> In(cls, a[i])
    requires b == [] || !In(cls, b[0])
    ensures Run(a + b, cls) == |a|
  {
    if a == [] {
      assert a + b == b;
    } else {
      assert (a + b)[0] == a[0];
      assert (a + b)[1..] == a[1..] + b;
      RunOfConcat(a[1..], b, cls);
    }
  }

  /** A match that starts with a literal: the literal, then the rest of the text. */
  lemma SplitLit(s: string, n: nat, c: char, rest: string)
    requires n <= |s| && s[..n] == [c] + rest
    ensures s != [] && s[0] == c && s[1..][..n - 1] == rest
  {
    assert s[0] == s[..n][0];
    assert s[1..][..n - 1] == s[..n][1..];
  }

  /**
    A match that starts with a captured value `v` followed by a character
    outside `[\w-]`: the longest `[\w-]` run of the text is `v`.
  */
  lemma SplitCapture(s: string, n: nat, v: string, rest: string)
    requires n <= |s| && s[..n] == v + rest
    requires IsCapture(v) && rest != [] && !IsCaptureChar(rest[0])
    ensures Run(s, CaptureChars) == |v| && s[..|v|] == v && s[|v|..][..n - |v|] == rest
  {
    assert s[..|v|] == s[..n][..|v|];
    assert s[|v|] == s[..n][|v|];
    assert s == v + s[|v|..];
    RunOfConcat(v, s[|v|..], CaptureChars);
    assert s[|v|..][..n - |v|] == s[..n][|v|..];
  }

  /** The groups after the first are captures when all of them are. */
  lemma CapturesTail(caps: seq<string>)
    requires caps != [] && forall i :: 0 <= i < |caps| ==> IsCapture(caps[i])
    ensures forall i :: 0 <= i < |caps[1..]| ==> IsCapture(caps[1..][i])
  {
    forall i | 0 <= i < |caps[1..]| ensures IsCapture(caps[1..][i]) {
      assert caps[1..][i] == caps[i + 1];
    }
  }

  /**
    Greedy matching without backtracking finds every match of a delimited
    pattern: whatever the expression matches at the start of `s`, the greedy
    matcher returns, so a match at a given start is unique.
  */
  lemma {:induction false} GreedyComplete(toks: seq<Tok>, s: string, n: nat, caps: seq<string>)
    requires Delimited(toks)
    requires n <= |s| && Accepts(toks, s[..n], caps)
    ensures MatchPrefix(toks, s) == Some(Span(n, caps))
  {
    if toks == [] {
      assert caps == [];
    } else {
      match toks[0]
      case Lit(c) =>
        SplitLit(s, n, c, Fill(toks[1..], caps));
        GreedyComplete(toks[1..], s[1..], n - 1, caps);
      case Param(_) =>
        var v := caps[0];
        var rest := Fill(toks[1..], caps[1..]);
        assert rest != [] && rest[0] == toks[1].c;
        SplitCapture(s, n, v, rest);
        CapturesTail(caps);
        GreedyComplete(toks[1..], s[|v|..], n - |v|, caps[1..]);
        assert [v] + caps[1..] == caps;
    }
  }

  /** No match starts between `i` and the match the search returns: the search is leftmost. */
  lemma {:induction false} SearchFromLeftmost(toks: seq<Tok>, s: string, i: nat)
    requires i <= |s|
    ensures var r := SearchFrom(toks, s, i);
      forall j :: i <= j <= |s| && (r.None? || j < r.value.start) ==> MatchPrefix(toks, s[j..]).None?
    decreases |s| - i
  {
    if MatchPrefix(toks, s[i..]).None? && i < |s| {
      SearchFromLeftmost(toks, s, i + 1);
    }
  }

  /** Every key the scan reads is a name `[a-z]+`. */
  lemma {:induction false} KeysAreNames(path: string)
    ensures forall i :: 0 <= i < |Keys(path)| ==> IsName(Keys(path)[i])
  {
    if path != [] {
      if path[0] == ':' && |path| > 1 && IsLower(path[1]) {
        var n := Run(path[1..], LowerChars);
        KeysAreNames(path[1 + n..]);
        assert IsName(path[1..1 + n]);
      } else {
        KeysAreNames(path[1..]);
      }
    }
  }

  /**
    The search is the regular expression's: when the pattern matches
    `s[i..i + n]`, the search finds a match that starts earlier, or that very
    match.
  */
  lemma SearchLeftmost(toks: seq<Tok>, s: string, i: nat, n: nat, caps: seq<string>)
    requires Delimited(toks)
    requires i + n <= |s| && Accepts(toks, s[i..i + n], caps)
    ensures Search(toks, s).Some?
    ensures var f := Search(toks, s).value;
      f.start < i || (f.start == i && f.len == n && f.caps == caps)
  {
    SuffixPrefix(s, i, n);
    GreedyComplete(toks, s[i..], n, caps);
    SearchFromLeftmost(toks, s, 0);
    var r := Search(toks, s);
    assert r.Some? && r.value.start <= i;
    var f := r.value;
    if f.start == i {
      SuffixPrefix(s, i, f.len);
      GreedyComplete(toks, s[i..], f.len, f.caps);
    }
  }

  /** Filling a delimited pattern with captures and searching the result gives the captures back. */
  lemma SearchFilled(toks: seq<Tok>, caps: seq<string>)
    requires Delimited(toks)
    requires |caps| == ParamCount(toks) && forall i :: 0 <= i < |caps| ==> IsCapture(caps[i])
    ensures Search(toks, Fill(toks, caps)) == Some(Found(0, |Fill(toks, caps)|, caps))
  {
    var w := Fill(toks, caps);
    assert w[..|w|] == w;
    GreedyComplete(toks, w, |w|, caps);
  }

  /** A character that cannot start a key leaves the scan of the rest unchanged. */
  lemma KeysSkip(c: char, u: string)
    requires !(c == ':' && u != [] && IsLower(u[0]))
    ensures Keys([c] + u) == Keys(u)
  {
    assert ([c] + u)[1..] == u;
  }

  /** A token `':' + k` followed by a non-letter is read as the key `k`. */
  lemma KeysToken(k: string, u: string)
    requires IsName(k) && (u == [] || !IsLower(u[0]))
    ensures Keys(":" + k + u) == [k] + Keys(u)
  {
    var path := ":" + k + u;
    assert path[1..] == k + u;
    RunOfConcat(k, u, LowerChars);
    assert path[1..1 + |k|] == k;
    assert path[1 + |k|..] == u;
  }

  /** The text of a token sequence starts with the text of its first token. */
  lemma UnparseFirst(toks: seq<Tok>)
    requires toks != [] && toks[0].Lit?
    ensures Unparse(toks) != [] && Unparse(toks)[0] == toks[0].c
  {
  }

  /**
    The key scan of a path reads exactly its parameter names, in order, when
    those are all `[a-z]+`.
  */
  lemma {:induction false} KeysOfUnparse(toks: seq<Tok>)
    requires Delimited(toks) && ColonsLiteral(toks) && SimpleParams(toks)
    ensures Keys(Unparse(toks)) == Names(toks)
  {
    if toks != [] {
      var rest := toks[1..];
      var u := Unparse(rest);
      KeysOfUnparse(rest);
      if rest != [] && rest[0].Lit? {
        UnparseFirst(rest);
      }
      match toks[0]
      case Lit(c) =>
        assert Unparse(toks) == [c] + u;
        KeysSkip(c, u);
      case Param(k) =>
        assert Unparse(toks) == ":" + k + u;
        KeysToken(k, u);
    }
  }

  /** A path without ':' has no parameters: it compiles to its own characters and has no keys. */
  lemma {:induction false} CompileNoColon(path: string)
    requires ':' !in path
    ensures ParamCount(Compile(path)) == 0 && SimpleParams(Compile(path)) && Fill(Compile(path), []) == path
    ensures Keys(path) == []
  {
    if path != [] {
      Uncons(path, []);
      CompileNoColon(path[1..]);
      assert path == [path[0]] + path[1..];
    }
  }

  /** The pattern of a path without ':' matches that path and nothing else, capturing nothing. */
  lemma AcceptsNoColon(path: string, w: string, caps: seq<string>)
    requires ':' !in path
    ensures Accepts(Compile(path), w, caps) <==> caps == [] && w == path
  {
    CompileNoColon(path);
  }

  /** A non-empty string is its first character and the rest, before anything appended; the rest has no ':' when it has none. */
  lemma Uncons(f: string, u: string)
    requires f != []
    ensures f == [f[0]] + f[1..] && f + u == [f[0]] + (f[1..] + u)
    ensures ':' !in f ==> ':' !in f[1..]
  {
    assert forall i :: 0 <= i < |f[1..]| ==> f[1..][i] == f[i + 1];
  }

  /** The first `n` characters from position `i` on are the slice `s[i..i + n]`. */
  lemma SuffixPrefix(s: string, i: nat, n: nat)
    requires i + n <= |s|
    ensures s[i..][..n] == s[i..i + n]
  {
  }

  /** A prefix without ':' compiles to literals on its own, whatever follows it. */
  lemma {:induction false} CompileAfterNoColon(f: string, u: string)
    requires ':' !in f
    ensures Compile(f + u) == Compile(f) + Compile(u)
  {
    if f != [] {
      Uncons(f, u);
      CompileAfterNoColon(f[1..], u);
      CompileLit(f[0], f[1..] + u);
      CompileLit(f[0], f[1..]);
    } else {
      assert f + u == u;
    }
  }

  /** Filling two token sequences one after the other fills each with its own groups. */
  lemma {:induction false} FillConcat(a: seq<Tok>, b: seq<Tok>, ca: seq<string>, cb: seq<string>)
    requires |ca| == ParamCount(a) && |cb| == ParamCount(b)
    ensures ParamCount(a + b) == |ca| + |cb|
    ensures Fill(a + b, ca + cb) == Fill(a, ca) + Fill(b, cb)
  {
    if a == [] {
      assert a + b == b && ca + cb == cb;
    } else {
      assert (a + b)[1..] == a[1..] + b;
      match a[0]
      case Lit(c) =>
        FillConcat(a[1..], b, ca, cb);
      case Param(_) =>
        assert (ca + cb)[1..] == ca[1..] + cb;
        FillConcat(a[1..], b, ca[1..], cb);
    }
  }

  /** A prefix without ':' contributes no key and does not change how the rest is read. */
  lemma {:induction false} KeysAfterNoColon(f: string, u: string)
    requires ':' !in f
    ensures Keys(f + u) == Keys(u)
  {
    if f != [] {
      Uncons(f, u);
      KeysAfterNoColon(f[1..], u);
      KeysSkip(f[0], f[1..] + u);
    } else {
      assert f + u == u;
    }
  }

  /**
    The pattern of a path without ':' is found nowhere in a string that lacks
    one of the path's characters.
  */
  lemma SearchNoColonAbsent(path: string, s: string, c: char)
    requires ':' !in path && c in path && c !in s
    ensures Search(Compile(path), s).None?
  {
    var r := Search(Compile(path), s);
    if r.Some? {
      var f := r.value;
      var w := s[f.start..f.start + f.len];
      AcceptsNoColon(path, w, f.caps);
      assert false;
    }
  }

  /** For a path that ends in '/' and whose parameters are `[a-z]+`, the keys are the parameter names. */
  lemma KeysOfCompiled(path: string)
    requires path != [] && path[|path| - 1] == '/'
    requires SimpleParams(Compile(path))
    ensures Keys(path) == Names(Compile(path))
  {
    CompileRoundTrip(path);
    CompileDelimited(path);
    CompileColons(path);
    KeysOfUnparse(Compile(path));
  }
}
