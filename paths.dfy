/**
  Path normalisation and the string searches the router relies on.

  Every route path the router stores and every hash it matches is kept in a
  canonical form: it starts and ends with '/' and never holds two '/' in a row.
*/
module Paths {

  /** No two consecutive characters of `s` are both '/'. */
  predicate NoDoubleSlash(s: string) {
    |s| <= 1 || (!(s[0] == '/' && s[1] == '/') && NoDoubleSlash(s[1..]))
  }

  /** The canonical form of a route path or a hash. */
  predicate IsCanonical(p: string) {
    |p| > 0 && p[0] == '/' && p[|p| - 1] == '/' && NoDoubleSlash(p)
  }

  /** The characters of `s` other than '/', in order. */
  function Unslashed(s: string): string {
    if s == [] then [] else (if s[0] == '/' then [] else [s[0]]) + Unslashed(s[1..])
  }

  /**
    `s` with every run of '/' replaced by one '/', as `s.replace(/\/+/g, '/')`
    does: of each run only its last slash is kept.
  */
  function Collapse(s: string): (r: string)
    ensures |r| <= |s|
    ensures |s| > 0 ==> |r| > 0 && r[0] == s[0] && r[|r| - 1] == s[|s| - 1]
    ensures NoDoubleSlash(r)
    ensures Unslashed(r) == Unslashed(s)
  {
    if |s| <= 1 then s
    else if s[0] == '/' && s[1] == '/' then Collapse(s[1..])
    else [s[0]] + Collapse(s[1..])
  }

  /** `ensureHash`: wrap in '/' and collapse runs of '/'. */
  function EnsureHash(hash: string): (r: string)
    ensures IsCanonical(r)
    ensures Unslashed(r) == Unslashed(hash)
  {
    UnslashedAppend("/", hash);
    UnslashedAppend("/" + hash, "/");
    Collapse("/" + hash + "/")
  }

  /** `s[i..]` starts with `pat`. */
  predicate OccursAt(s: string, pat: string, i: int) {
    0 <= i && i + |pat| <= |s| && s[i..i + |pat|] == pat
  }

  /** The first position at or after `k` where `pat` occurs in `s`, or -1. */
  function IndexFrom(s: string, pat: string, k: nat): (r: int)
    decreases |s| - k
    ensures r == -1 || (k <= r && OccursAt(s, pat, r))
    ensures forall i :: k <= i && (r == -1 || i < r) ==> !OccursAt(s, pat, i)
  {
    if k + |pat| > |s| then -1
    else if s[k..k + |pat|] == pat then k
    else IndexFrom(s, pat, k + 1)
  }

  /** `s.indexOf(pat)`: the first position where `pat` occurs in `s`, or -1. */
  function IndexOf(s: string, pat: string): (r: int)
    ensures r == -1 || (0 <= r && OccursAt(s, pat, r))
    ensures forall i :: 0 <= i && (r == -1 || i < r) ==> !OccursAt(s, pat, i)
  {
    IndexFrom(s, pat, 0)
  }

  /** `raw.replace('#', '')`: `raw` without its first '#'. */
  function RemoveFirstHash(raw: string): (r: string)
    ensures '#' !in raw ==> r == raw
    ensures '#' in raw ==> |r| == |raw| - 1
    ensures '#' in raw ==> exists i :: 0 <= i < |raw| && raw[i] == '#' && '#' !in raw[..i] && r == raw[..i] + raw[i + 1..]
  {
    var i := IndexOf(raw, "#");
    if '#' in raw then
      PresentIndex(raw, '#');
      raw[..i] + raw[i + 1..]
    else
      AbsentIndex(raw, '#');
      raw
  }

  /**
    `getLocationHash` as a function of the raw location hash `raw` (what
    `window.location.hash` reads): drop the first '#', cut at the first '?',
    normalise. The result is canonical and holds no query string.
  */
  function LocationHash(raw: string): (r: string)
    ensures IsCanonical(r)
    ensures '?' !in r
  {
    var hash := RemoveFirstHash(raw);
    var q := IndexOf(hash, "?");
    var path := if q >= 0 then hash[..q] else hash;
    assert '?' !in path by {
      forall i | 0 <= i < |path| ensures path[i] != '?' {
        assert !OccursAt(hash, "?", i);
      }
    }
    UnslashedKeeps(path, '?');
    UnslashedKeeps(EnsureHash(path), '?');
    EnsureHash(path)
  }

  // ---------------------------------------------------------------------------
  // Lemmas

  lemma {:induction false} UnslashedAppend(a: string, b: string)
    ensures Unslashed(a + b) == Unslashed(a) + Unslashed(b)
  {
    if a == [] {
      assert a + b == b;
    } else {
      assert (a + b)[0] == a[0];
      assert (a + b)[1..] == a[1..] + b;
      UnslashedAppend(a[1..], b);
    }
  }

  /** A character other than '/' is in `s` exactly when it is in `Unslashed(s)`. */
  lemma {:induction false} UnslashedKeeps(s: string, c: char)
    requires c != '/'
    ensures c in s <==> c in Unslashed(s)
  {
    if s != [] {
      UnslashedKeeps(s[1..], c);
      assert s == [s[0]] + s[1..];
    }
  }

  /** A string without "//" is left unchanged by `Collapse`. */
  lemma {:induction false} CollapseFixpoint(s: string)
    requires NoDoubleSlash(s)
    ensures Collapse(s) == s
  {
    if |s| > 1 {
      CollapseFixpoint(s[1..]);
    }
  }

  /** Appending a '/' to a string that already ends in '/' changes nothing after collapsing. */
  lemma {:induction false} CollapseTrailingSlash(q: string)
    requires |q| > 0 && q[|q| - 1] == '/'
    ensures Collapse(q + "/") == Collapse(q)
  {
    if |q| > 1 {
      assert (q + "/")[1..] == q[1..] + "/";
      CollapseTrailingSlash(q[1..]);
    }
  }

  /** A string without "//" survives as a prefix of what follows it once collapsed. */
  lemma {:induction false} CollapseKeepsPrefix(a: string, b: string)
    requires NoDoubleSlash(a)
    ensures a <= Collapse(a + b)
  {
    if |a| > 1 {
      assert (a + b)[1..] == a[1..] + b;
      CollapseKeepsPrefix(a[1..], b);
    }
  }

  /** `NoDoubleSlash` says, position by position, that no '/' follows a '/'. */
  lemma {:induction false} NoDoubleSlashIff(s: string)
    ensures NoDoubleSlash(s) <==> forall i :: 0 <= i < |s| - 1 ==> !(s[i] == '/' && s[i + 1] == '/')
  {
    if |s| > 1 {
      NoDoubleSlashIff(s[1..]);
      assert forall i :: 1 <= i < |s| ==> s[1..][i - 1] == s[i];
    }
  }

  /** A '/' added to a run of slashes disappears once collapsed. */
  lemma {:induction false} CollapseDoubled(a: string, b: string)
    requires |a| > 0 && a[|a| - 1] == '/'
    ensures Collapse(a + "/" + b) == Collapse(a + b)
  {
    if |a| > 1 {
      assert (a + "/" + b)[1..] == a[1..] + "/" + b;
      assert (a + b)[1..] == a[1..] + b;
      CollapseDoubled(a[1..], b);
    } else {
      assert (a + "/" + b)[1..] == a + b;
    }
  }

  /** A top-level segment that is clean on its own becomes `'/' + segment + '/'`. */
  lemma EnsureHashRoot(segment: string)
    requires IsCanonical("/" + segment + "/")
    ensures EnsureHash("" + "/" + segment) == "/" + segment + "/"
  {
    assert "/" + ("" + "/" + segment) + "/" == "/" + "/" + (segment + "/");
    CollapseDoubled("/", segment + "/");
    assert "/" + (segment + "/") == "/" + segment + "/";
    CollapseFixpoint("/" + segment + "/");
  }

  /** Joining a canonical parent with a clean segment appends the segment and a '/'. */
  lemma EnsureHashJoin(parent: string, segment: string)
    requires IsCanonical(parent) && IsCanonical(parent + segment + "/")
    ensures EnsureHash(parent + "/" + segment) == parent + segment + "/"
  {
    var tail := segment + "/";
    JoinWrapped(parent, segment);
    CollapseDoubled(parent, tail);
    assert parent + tail == parent + segment + "/";
    CollapseFixpoint(parent + segment + "/");
  }

  /** The leading '/' `EnsureHash` adds to a path that starts with '/' disappears. */
  lemma JoinWrapped(parent: string, segment: string)
    requires |parent| > 0 && parent[0] == '/'
    ensures EnsureHash(parent + "/" + segment) == Collapse(parent + "/" + (segment + "/"))
  {
    var p := parent[1..];
    var tail := "/" + (segment + "/");
    assert parent == "/" + p;
    Regroup(parent, p, segment, tail);
    CollapseDoubled("/", p + tail);
  }

  /** The two ways `JoinWrapped` reads the string `EnsureHash` collapses. */
  lemma Regroup(parent: string, p: string, segment: string, tail: string)
    requires parent == "/" + p && tail == "/" + (segment + "/")
    ensures "/" + (parent + "/" + segment) + "/" == "/" + "/" + (p + tail)
    ensures "/" + (p + tail) == parent + "/" + (segment + "/")
  {
  }

  /** A canonical path is a fixpoint of `EnsureHash`. */
  lemma EnsureHashFixpoint(p: string)
    requires IsCanonical(p)
    ensures EnsureHash(p) == p
  {
    assert ("/" + p + "/")[1..] == p + "/";
    CollapseTrailingSlash(p);
    CollapseFixpoint(p);
  }

  /** `ensureHash` is idempotent. */
  lemma EnsureHashIdempotent(hash: string)
    ensures EnsureHash(EnsureHash(hash)) == EnsureHash(hash)
  {
    EnsureHashFixpoint(EnsureHash(hash));
  }

  /** Joining a canonical parent path with any segment and normalising extends the parent. */
  lemma EnsureHashExtends(parent: string, segment: string)
    requires IsCanonical(parent)
    ensures parent <= EnsureHash(parent + "/" + segment)
  {
    var tail := "/" + segment + "/";
    assert "/" + (parent + "/" + segment) + "/" == "/" + (parent + tail);
    assert ("/" + (parent + tail))[1..] == parent + tail;
    CollapseKeepsPrefix(parent, tail);
  }

  /** What the browser reads back after `location.hash = url`, for a canonical url without '?'. */
  lemma LocationHashOfWritten(url: string)
    requires IsCanonical(url) && '?' !in url
    ensures LocationHash("#" + url) == url
  {
    HashDropped(url);
    AbsentIndex(url, '?');
    EnsureHashFixpoint(url);
  }

  /** A query string is cut off: only the text before the first '?' is normalised. */
  lemma LocationHashQuery(p: string, q: string)
    requires '?' !in p
    ensures LocationHash("#" + p + "?" + q) == EnsureHash(p)
  {
    var s := p + "?" + q;
    assert "#" + p + "?" + q == "#" + s;
    HashDropped(s);
    FirstQuery(p, q);
  }

  /** In `p + "?" + q`, with no '?' in `p`, the first '?' ends `p`. */
  lemma FirstQuery(p: string, q: string)
    requires '?' !in p
    ensures IndexOf(p + "?" + q, "?") == |p| && (p + "?" + q)[..|p|] == p
  {
    var s := p + "?" + q;
    forall i | 0 <= i < |p| ensures !OccursAt(s, "?", i) {
      assert s[i] == p[i];
    }
    assert OccursAt(s, "?", |p|);
  }

  /** Without a query string, the whole hash after its '#' is normalised. */
  lemma LocationHashNoQuery(p: string)
    requires '?' !in p
    ensures LocationHash("#" + p) == EnsureHash(p)
  {
    HashDropped(p);
    AbsentIndex(p, '?');
  }

  /** Removing the first '#' of `'#' + url` leaves `url`. */
  lemma HashDropped(url: string)
    ensures RemoveFirstHash("#" + url) == url
  {
    var raw := "#" + url;
    assert OccursAt(raw, "#", 0);
    assert raw[..0] + raw[1..] == url;
  }

  /** A character that occurs in `s` is found at its first position. */
  lemma PresentIndex(s: string, c: char)
    requires c in s
    ensures 0 <= IndexOf(s, [c]) < |s|
    ensures s[IndexOf(s, [c])] == c && c !in s[..IndexOf(s, [c])]
  {
    var j :| 0 <= j < |s| && s[j] == c;
    assert s[j..j + 1] == [c];
    assert OccursAt(s, [c], j);
    var i := IndexOf(s, [c]);
    assert s[i..i + 1] == [c];
    forall k | 0 <= k < i ensures s[k] != c {
      assert !OccursAt(s, [c], k);
      assert s[k..k + 1] == [s[k]];
    }
  }

  /** A character that is not in `s` is found nowhere in it. */
  lemma AbsentIndex(s: string, c: char)
    requires c !in s
    ensures IndexOf(s, [c]) == -1
  {
    forall i | 0 <= i < |s| ensures !OccursAt(s, [c], i) {
      assert s[i..i + 1] == [s[i]];
    }
  }
}
