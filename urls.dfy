/**
  The URL builder: substituting parameter values back into a stored path.

  `getRouteUrl` replaces, key by key in the order the key scan found them, the
  first occurrence of `':' + key` in the path with `values[key]`, using
  `String.prototype.replace` with a string pattern.
*/
module Urls {
  import opened Paths
  import opened Patterns

  /** A value held in a values object: a string, or `undefined`. */
  datatype Value = Defined(s: string) | Undefined

  /** The text a value becomes as a replacement string: `undefined` reads "undefined". */
  function Text(v: Value): string {
    match v
    case Defined(s) => s
    case Undefined => "undefined"
  }

  type Values = map<string, Value>

  /** `values[key]`: a missing key reads `undefined`. */
  function Lookup(values: Values, key: string): Value {
    if key in values then values[key] else Undefined
  }

  /**
    `_.zipObject(keys, groups)`: key `keys[i]` gets `groups[i]`, or `undefined`
    past the end of `groups`; a repeated key keeps its last value.
  */
  function ZipObject(keys: seq<string>, groups: seq<string>): Values
    decreases |keys|
  {
    if keys == [] then map[]
    else
      var n := |keys| - 1;
      ZipObject(keys[..n], groups)[keys[n] := if n < |groups| then Defined(groups[n]) else Undefined]
  }

  /**
    The replacement text of `String.prototype.replace` with a string pattern:
    "$$" is '$', "$&" the matched text, "$`" what precedes it and "$'" what
    follows it; there are no capture groups, so every other '$' is literal.
  */
  function Expand(rep: string, matched: string, before: string, after: string): (r: string)
    ensures '$' !in rep ==> r == rep
  {
    if rep == [] then []
    else if rep[0] == '$' && |rep| > 1 && rep[1] in "$&`'" then
      (if rep[1] == '$' then "$" else if rep[1] == '&' then matched else if rep[1] == '`' then before else after)
      + Expand(rep[2..], matched, before, after)
    else
      assert '$' !in rep ==> '$' !in rep[1..];
      [rep[0]] + Expand(rep[1..], matched, before, after)
  }

  /** `s.replace(pat, rep)` with a string pattern: only the first occurrence is replaced. */
  function ReplaceFirst(s: string, pat: string, rep: string): string {
    var i := IndexOf(s, pat);
    if i < 0 then s else s[..i] + Expand(rep, pat, s[..i], s[i + |pat|..]) + s[i + |pat|..]
  }

  /** `path` after `path = path.replace(':' + key, values[key])` for each key in turn. */
  function Substitute(path: string, keys: seq<string>, values: Values): string
    decreases keys
  {
    if keys == [] then path
    else Substitute(ReplaceFirst(path, ":" + keys[0], Text(Lookup(values, keys[0]))), keys[1..], values)
  }

  // ---------------------------------------------------------------------------
  // Lemmas

  /** The zipped object has exactly the keys it was given. */
  lemma {:induction false} ZipObjectDomain(keys: seq<string>, groups: seq<string>)
    ensures forall k :: k in ZipObject(keys, groups) <==> k in keys
    decreases |keys|
  {
    if keys != [] {
      var n := |keys| - 1;
      ZipObjectDomain(keys[..n], groups);
      assert keys == keys[..n] + [keys[n]];
    }
  }

  /** Later keys win: a key takes the group at its last position. */
  lemma {:induction false} ZipObjectAt(keys: seq<string>, groups: seq<string>, i: nat)
    requires i < |keys|
    requires forall j :: i < j < |keys| ==> keys[j] != keys[i]
    ensures Lookup(ZipObject(keys, groups), keys[i]) == if i < |groups| then Defined(groups[i]) else Undefined
    decreases |keys|
  {
    var n := |keys| - 1;
    if i < n {
      assert keys[..n][i] == keys[i];
      ZipObjectAt(keys[..n], groups, i);
    }
  }

  /** With distinct keys and enough groups, each key reads the group at its own position. */
  lemma ZipObjectLookup(keys: seq<string>, groups: seq<string>)
    requires forall i, j :: 0 <= i < j < |keys| ==> keys[i] != keys[j]
    requires |keys| <= |groups|
    ensures forall i :: 0 <= i < |keys| ==> Lookup(ZipObject(keys, groups), keys[i]) == Defined(groups[i])
  {
    forall i | 0 <= i < |keys| ensures Lookup(ZipObject(keys, groups), keys[i]) == Defined(groups[i]) {
      ZipObjectAt(keys, groups, i);
    }
  }

  /** No ':' in `s` is directly followed by a lower-case letter. */
  predicate NoColonLower(s: string) {
    forall i :: 0 <= i < |s| - 1 ==> !(s[i] == ':' && IsLower(s[i + 1]))
  }

  /**
    When nothing before a parameter token can start `':' + k`, replacing
    `':' + k` replaces that token.
  */
  lemma ReplaceAtToken(f: string, k: string, u: string, v: string)
    requires NoColonLower(f) && IsName(k) && '$' !in v
    ensures ReplaceFirst(f + ":" + k + u, ":" + k, v) == f + v + u
  {
    var x := f + ":" + k + u;
    var pat := ":" + k;
    assert x[|f|..|f| + |pat|] == pat;
    assert OccursAt(x, pat, |f|);
    forall t | 0 <= t < |f| ensures !OccursAt(x, pat, t) {
      assert x[t] == f[t];
      assert x[t + 1] == if t + 1 < |f| then f[t + 1] else ':';
      assert pat[0] == ':' && IsLower(pat[1]);
      assert t + |pat| <= |x| ==> x[t..t + |pat|][0] == x[t] && x[t..t + |pat|][1] == x[t + 1];
    }
    var i := IndexOf(x, pat);
    assert i == |f|;
    assert x[..i] == f;
    assert x[i + |pat|..] == u;
  }

  /** Concatenation regroups. */
  lemma Associative(a: string, b: string, c: string)
    ensures (a + b) + c == a + (b + c)
  {
  }

  /** Appending a character that does not follow a ':' with a letter keeps `NoColonLower`. */
  lemma NoColonLowerSnoc(f: string, c: char)
    requires NoColonLower(f)
    requires f != [] && f[|f| - 1] == ':' ==> !IsLower(c)
    ensures NoColonLower(f + [c])
  {
    var g := f + [c];
    forall i | 0 <= i < |g| - 1 ensures !(g[i] == ':' && IsLower(g[i + 1])) {
      assert g[i] == f[i];
      if i < |f| - 1 {
        assert g[i + 1] == f[i + 1];
      }
    }
  }

  /** Appending a captured value after anything but ':' keeps `NoColonLower`, and the result does not end in ':'. */
  lemma NoColonLowerCapture(f: string, v: string)
    requires NoColonLower(f) && IsCapture(v)
    requires f == [] || f[|f| - 1] != ':'
    ensures NoColonLower(f + v)
    ensures (f + v)[|f + v| - 1] != ':'
  {
    var g := f + v;
    forall i | 0 <= i < |g| - 1 ensures !(g[i] == ':' && IsLower(g[i + 1])) {
      if i < |f| {
        assert g[i] == f[i];
        if i < |f| - 1 {
          assert g[i + 1] == f[i + 1];
        }
      } else {
        assert g[i] == v[i - |f|];
        assert IsCaptureChar(v[i - |f|]);
      }
    }
    assert g[|g| - 1] == v[|v| - 1];
    assert IsCaptureChar(v[|v| - 1]);
  }

  /** Replacing the first parameter token with its value, the step `getRouteUrl` takes for one key. */
  lemma SubstituteParamStep(f: string, toks: seq<Tok>, v: string, values: Values)
    requires toks != [] && toks[0].Param? && IsName(toks[0].name)
    requires NoColonLower(f) && IsCapture(v)
    requires Lookup(values, toks[0].name) == Defined(v)
    ensures Substitute(f + Unparse(toks), Names(toks), values)
         == Substitute(f + v + Unparse(toks[1..]), Names(toks[1..]), values)
  {
    var k := toks[0].name;
    var u := Unparse(toks[1..]);
    assert Names(toks) == [k] + Names(toks[1..]);
    assert '$' !in v by {
      forall i | 0 <= i < |v| ensures v[i] != '$' {
        assert IsCaptureChar(v[i]);
      }
    }
    assert f + Unparse(toks) == f + ":" + k + u;
    ReplaceAtToken(f, k, u, v);
  }

  /** A literal token is copied: it moves from the unsubstituted text to the prefix. */
  lemma SubstituteLitStep(f: string, toks: seq<Tok>, caps: seq<string>)
    requires toks != [] && toks[0].Lit? && |caps| == ParamCount(toks)
    ensures f + Unparse(toks) == (f + [toks[0].c]) + Unparse(toks[1..])
    ensures Names(toks) == Names(toks[1..])
    ensures f + Fill(toks, caps) == (f + [toks[0].c]) + Fill(toks[1..], caps)
  {
    var c := toks[0].c;
    assert Unparse(toks) == [c] + Unparse(toks[1..]);
    assert Fill(toks, caps) == [c] + Fill(toks[1..], caps);
    Associative(f, [c], Unparse(toks[1..]));
    Associative(f, [c], Fill(toks[1..], caps));
  }

  /** The values bind each parameter name of `toks`, in order, to the group at its position. */
  predicate Binds(values: Values, toks: seq<Tok>, caps: seq<string>) {
    && |caps| == ParamCount(toks)
    && forall i :: 0 <= i < |caps| ==> IsCapture(caps[i]) && Lookup(values, Names(toks)[i]) == Defined(caps[i])
  }

  /** After a parameter token, the values bind the remaining names to the remaining groups. */
  lemma BindsTail(values: Values, toks: seq<Tok>, caps: seq<string>)
    requires toks != [] && Binds(values, toks, caps)
    ensures toks[0].Lit? ==> Binds(values, toks[1..], caps)
    ensures toks[0].Param? ==> caps != [] && Binds(values, toks[1..], caps[1..])
  {
    if toks[0].Param? {
      assert Names(toks) == [toks[0].name] + Names(toks[1..]);
      forall i | 0 <= i < |caps| - 1
        ensures IsCapture(caps[1..][i]) && Lookup(values, Names(toks[1..])[i]) == Defined(caps[1..][i])
      {
        assert caps[1..][i] == caps[i + 1];
        assert Names(toks)[i + 1] == Names(toks[1..])[i];
      }
    }
  }

  /** A lower-case letter continues a parameter token. */
  lemma LowerIsTokenChar(c: char)
    requires IsLower(c)
    ensures IsTokenChar(c)
  {
  }

  /**
    Substituting the captured values back into the unparsed tokens, after a
    prefix `f` that is already substituted, spells `f` followed by the filled
    pattern.
  */
  lemma {:induction false} SubstituteFill(f: string, toks: seq<Tok>, caps: seq<string>, values: Values)
    requires Delimited(toks) && ColonsLiteral(toks) && SimpleParams(toks)
    requires Binds(values, toks, caps)
    requires NoColonLower(f)
    requires f != [] && f[|f| - 1] == ':' ==> toks == [] || (toks[0].Lit? && !IsLower(toks[0].c))
    ensures Substitute(f + Unparse(toks), Names(toks), values) == f + Fill(toks, caps)
    decreases |toks|
  {
    if toks == [] {
      assert f + [] == f;
    } else {
      var rest := toks[1..];
      BindsTail(values, toks, caps);
      match toks[0]
      case Lit(c) =>
        SubstituteLitStep(f, toks, caps);
        NoColonLowerSnoc(f, c);
        if c == ':' && rest != [] && rest[0].Lit? && IsLower(rest[0].c) {
          LowerIsTokenChar(rest[0].c);
        }
        SubstituteFill(f + [c], rest, caps, values);
      case Param(k) =>
        var v := caps[0];
        SubstituteParamStep(f, toks, v, values);
        NoColonLowerCapture(f, v);
        SubstituteFill(f + v, rest, caps[1..], values);
        assert f + v + Unparse(rest) == (f + v) + Unparse(rest);
        assert Fill(toks, caps) == v + Fill(rest, caps[1..]);
        Associative(f, v, Fill(rest, caps[1..]));
    }
  }

  /** No name occurs twice. */
  predicate Distinct(keys: seq<string>) {
    forall i, j :: 0 <= i < j < |keys| ==> keys[i] != keys[j]
  }

  /**
    Rebuilding a URL from the values a route's pattern captured (zipped with
    the route's keys) spells exactly the text the pattern matched, when the
    path ends in '/' and its parameters are distinct `[a-z]+` names.
  */
  lemma RebuildIsFill(path: string, caps: seq<string>)
    requires path != [] && path[|path| - 1] == '/'
    requires SimpleParams(Compile(path)) && Distinct(Keys(path))
    requires |caps| == ParamCount(Compile(path)) && forall i :: 0 <= i < |caps| ==> IsCapture(caps[i])
    ensures Substitute(path, Keys(path), ZipObject(Keys(path), caps)) == Fill(Compile(path), caps)
  {
    var toks := Compile(path);
    var values := ZipObject(Keys(path), caps);
    CompileRoundTrip(path);
    CompileDelimited(path);
    CompileColons(path);
    KeysOfCompiled(path);
    ZipObjectLookup(Keys(path), caps);
    assert Binds(values, toks, caps);
    assert NoColonLower("");
    SubstituteFill("", toks, caps, values);
    assert "" + Unparse(toks) == path;
    assert "" + Fill(toks, caps) == Fill(toks, caps);
  }
}
