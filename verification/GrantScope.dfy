/**
 The route scope of a minted grant and the matcher that later decides whether the
 grant covers a request. The scope is derived from the one request a human reviewed
 and is matched on the exact path.
 */
module GrantScope {
  import opened Options
  import opened Grants

  // ------------------------------------------------------------------
  // Paths as segments.
  // ------------------------------------------------------------------

  function Split(s: string): (r: seq<string>)
    ensures r != []
  {
    if s == "" then [""]
    else if s[0] == '/' then [""] + Split(s[1..])
    else var rest := Split(s[1..]); [[s[0]] + rest[0]] + rest[1..]
  }

  function Join(parts: seq<string>): string
    requires parts != []
  {
    if |parts| == 1 then parts[0] else parts[0] + "/" + Join(parts[1..])
  }

  lemma JoinSlashFront(rest: seq<string>)
    requires rest != []
    ensures Join([""] + rest) == "/" + Join(rest)
  {
    assert ([""] + rest)[1..] == rest;
  }

  lemma JoinLetterFront(c: char, rest: seq<string>)
    requires rest != []
    ensures Join([[c] + rest[0]] + rest[1..]) == [c] + Join(rest)
  {
    var longer := [[c] + rest[0]] + rest[1..];
    assert longer[1..] == rest[1..];
    if |rest| > 1 {
      assert ([c] + rest[0]) + "/" + Join(rest[1..]) == [c] + (rest[0] + "/" + Join(rest[1..]));
    }
  }

  lemma {:induction false} JoinSplit(s: string)
    ensures Join(Split(s)) == s
  {
    if s != "" {
      hide Join;
      JoinSplit(s[1..]);
      JoinSlashFront(Split(s[1..]));
      JoinLetterFront(s[0], Split(s[1..]));
      assert s == [s[0]] + s[1..];
    }
  }

  function TrimEnd(s: string): string {
    if s != "" && s[|s| - 1] == '/' then TrimEnd(s[..|s| - 1]) else s
  }

  function TrimTrailingSlash(s: string): string {
    if |s| > 1 then TrimEnd(s) else s
  }

  /** Trimming takes away slashes at the end, all of them, and nothing else. */
  lemma {:induction false} TrimTakesSlashes(s: string)
    ensures var r := TrimEnd(s); |r| <= |s| && r == s[..|r|] && forall i :: |r| <= i < |s| ==> s[i] == '/'
    ensures var r := TrimEnd(s); r == "" || r[|r| - 1] != '/'
  {
    if s != "" && s[|s| - 1] == '/' {
      TrimTakesSlashes(s[..|s| - 1]);
    }
  }

  predicate SegmentMatches(pattern: string, segment: string) {
    if pattern == "*" then segment != "" else pattern == segment
  }

  predicate SegmentsMatch(patterns: seq<string>, segments: seq<string>, exact: bool) {
    && (if exact then |patterns| == |segments| else |patterns| <= |segments|)
    && forall i :: 0 <= i < |patterns| && i < |segments| ==> SegmentMatches(patterns[i], segments[i])
  }

  predicate PathMatches(path: string, pattern: string, exact: bool) {
    && pattern != "" && pattern[0] == '/'
    && SegmentsMatch(Split(TrimTrailingSlash(pattern)), Split(TrimTrailingSlash(path)), exact)
  }

  // ------------------------------------------------------------------
  // The matchers of grants and of standing rules.
  // ------------------------------------------------------------------

  function Lower(c: char): char {
    if 'A' <= c <= 'Z' then (c as int + 32) as char else c
  }

  predicate EqualIgnoringCase(a: string, b: string) {
    |a| == |b| && forall i :: 0 <= i < |a| ==> Lower(a[i]) == Lower(b[i])
  }

  /** Two letters are equal up to case exactly if they are the same or an ASCII letter and its other case. */
  lemma LowerPairs(c: char, d: char)
    ensures Lower(c) == Lower(d) <==>
              || c == d
              || ('A' <= c <= 'Z' && d as int == c as int + 32)
              || ('A' <= d <= 'Z' && c as int == d as int + 32)
  {
  }

  /** Texts without upper-case ASCII letters are equal up to case exactly if they are equal. */
  lemma LowerCaseIsEquality(a: string, b: string)
    requires forall c :: c in a || c in b ==> !('A' <= c <= 'Z')
    ensures EqualIgnoringCase(a, b) <==> a == b
  {
    if EqualIgnoringCase(a, b) {
      forall i | 0 <= i < |a| ensures a[i] == b[i] {
        assert a[i] in a && b[i] in b;
        LowerPairs(a[i], b[i]);
      }
    }
  }

  /** The index of the first '/', or the length. */
  function FirstSlash(s: string): (r: nat)
    ensures r <= |s| && '/' !in s[..r] && (r < |s| ==> s[r] == '/')
  {
    if s == "" || s[0] == '/' then 0
    else
      var rest := FirstSlash(s[1..]);
      assert s[..1 + rest] == [s[0]] + s[1..][..rest];
      1 + rest
  }

  predicate GrantCovers(pattern: string, t: Target) {
    var k := FirstSlash(pattern);
    if pattern == "" then false
    else if k == 0 then PathMatches(t.path, pattern, true)
    else k < |pattern| && '*' !in pattern[..k] && EqualIgnoringCase(t.host, pattern[..k]) && PathMatches(t.path, pattern[k..], true)
  }

  predicate RuleMatches(pattern: string, t: Target) {
    var k := FirstSlash(pattern);
    if pattern == "" then false
    else if k == 0 then PathMatches(t.path, pattern, false)
    else if k == |pattern| then '*' !in pattern && EqualIgnoringCase(t.host, pattern)
    else '*' !in pattern[..k] && EqualIgnoringCase(t.host, pattern[..k]) && PathMatches(t.path, pattern[k..], false)
  }

  /** A standing rule that names a path matches it and everything below it, segment by segment. */
  lemma RuleIsPrefix(pattern: string, t: Target)
    requires pattern != "" && pattern[0] == '/' && "*" !in Split(TrimTrailingSlash(pattern))
    ensures RuleMatches(pattern, t) <==> Split(TrimTrailingSlash(pattern)) <= Split(TrimTrailingSlash(t.path))
  {
    var p, q := Split(TrimTrailingSlash(pattern)), Split(TrimTrailingSlash(t.path));
    hide Split, TrimTrailingSlash;
    if RuleMatches(pattern, t) {
      assert forall i :: 0 <= i < |p| ==> p[i] in p && p[i] == q[i];
    }
  }

  /** A rule that names only a host matches every path on that host, and no other host. */
  lemma RuleOnHost(pattern: string, t: Target)
    requires pattern != "" && '/' !in pattern
    ensures RuleMatches(pattern, t) <==> '*' !in pattern && EqualIgnoringCase(t.host, pattern)
  {
    assert FirstSlash(pattern) == |pattern| by {
      assert forall i :: 0 <= i < |pattern| ==> pattern[i] in pattern;
    }
  }

  /** A grant for a path alone covers it on every host. */
  lemma PathOnlyGrant(pattern: string, t: Target)
    requires pattern != "" && pattern[0] == '/' && "*" !in Split(TrimTrailingSlash(pattern))
    ensures GrantCovers(pattern, t) <==> TrimTrailingSlash(t.path) == TrimTrailingSlash(pattern)
  {
    ExactMatchIsEquality(t.path, pattern);
  }

  /** A rule for a host and a path needs that host and a path below that one. */
  lemma RuleOnHostAndPath(host: string, path: string, t: Target)
    requires host != "" && '/' !in host && path != "" && path[0] == '/' && "*" !in Split(TrimTrailingSlash(path))
    ensures RuleMatches(host + path, t) <==>
              '*' !in host && EqualIgnoringCase(t.host, host) && Split(TrimTrailingSlash(path)) <= Split(TrimTrailingSlash(t.path))
  {
    hide Split, TrimTrailingSlash, EqualIgnoringCase;
    ScopeParts(Target(host, path));
    RuleIsPrefix(path, t);
  }

  /** A '*' segment stands for exactly one segment, which has a name. */
  lemma StarNeedsAName(path: string, pattern: string, i: nat)
    requires PathMatches(path, pattern, true) && i < |Split(TrimTrailingSlash(pattern))| && Split(TrimTrailingSlash(pattern))[i] == "*"
    ensures |Split(TrimTrailingSlash(path))| == |Split(TrimTrailingSlash(pattern))| && Split(TrimTrailingSlash(path))[i] != ""
  {
    hide Split, TrimTrailingSlash;
  }

  /** Whether a grant covers a request: its method, in any case, and one of its scopes. */
  predicate Covers(g: Grant, verb: string, t: Target) {
    && (exists m :: m in g.methods && EqualIgnoringCase(m, verb))
    && (exists p :: p in g.routeScope && GrantCovers(p, t))
  }

  /** Whatever a grant covers, a standing rule with the same pattern would match too. */
  lemma GrantIsNeverBroaderThanRule(pattern: string, t: Target)
    requires GrantCovers(pattern, t)
    ensures RuleMatches(pattern, t)
  {
  }

  // ------------------------------------------------------------------
  // What a derived scope covers.
  // ------------------------------------------------------------------

  /** What the URL parser guarantees of a web URL: no '/' in the host, an absolute path. */
  predicate Parsed(t: Target) {
    '/' !in t.host && t.path != "" && t.path[0] == '/'
  }

  predicate NoWildcard(t: Target) {
    '*' !in t.host && "*" !in Split(TrimTrailingSlash(t.path))
  }

  lemma ScopeParts(t: Target)
    requires Parsed(t) && t.host != ""
    ensures FirstSlash(t.host + t.path) == |t.host|
    ensures (t.host + t.path)[..|t.host|] == t.host && (t.host + t.path)[|t.host|..] == t.path
  {
    var s, k := t.host + t.path, FirstSlash(t.host + t.path);
    assert s[|t.host|] == '/' && forall i :: 0 <= i < |t.host| ==> s[i] == t.host[i] && t.host[i] in t.host;
  }

  /**
   What a derived scope covers, for every reviewed request: one host, and the paths whose
   segments agree one by one, where a '*' segment stands for any non-empty one.
   */
  lemma DerivedScopeCovers(t: Target, other: Target)
    requires Parsed(t) && ScopeFromTarget(Some(t)).Some?
    ensures GrantCovers(ScopeFromTarget(Some(t)).value, other) <==>
              && t.path != "/" && '*' !in t.host && EqualIgnoringCase(other.host, t.host)
              && SegmentsMatch(Split(TrimTrailingSlash(t.path)), Split(TrimTrailingSlash(other.path)), true)
  {
    hide Split, TrimTrailingSlash;
    if t.path == "/" {
      assert FirstSlash(t.host) == |t.host| by {
        assert forall i :: 0 <= i < |t.host| ==> t.host[i] in t.host;
      }
    } else {
      ScopeParts(t);
    }
  }

  /**
   A scope derived from a wildcard-free request covers exactly the requests to the same
   host and path, up to trailing slashes; a scope without a path covers nothing.
   */
  lemma DerivedScopeCoversExactly(t: Target, other: Target)
    requires Parsed(t) && NoWildcard(t) && ScopeFromTarget(Some(t)).Some?
    ensures GrantCovers(ScopeFromTarget(Some(t)).value, other) <==>
              t.path != "/" && EqualIgnoringCase(other.host, t.host) && TrimTrailingSlash(other.path) == TrimTrailingSlash(t.path)
  {
    DerivedScopeCovers(t, other);
    ExactMatchIsEquality(other.path, t.path);
  }

  lemma ExactMatchIsEquality(path: string, pattern: string)
    requires pattern != "" && pattern[0] == '/' && "*" !in Split(TrimTrailingSlash(pattern))
    ensures PathMatches(path, pattern, true) <==> TrimTrailingSlash(path) == TrimTrailingSlash(pattern)
  {
    var p, q := Split(TrimTrailingSlash(pattern)), Split(TrimTrailingSlash(path));
    if SegmentsMatch(p, q, true) {
      assert forall i :: 0 <= i < |p| ==> p[i] in p && p[i] == q[i];
      assert p == q;
      JoinSplit(TrimTrailingSlash(pattern));
      JoinSplit(TrimTrailingSlash(path));
    }
  }

  // ------------------------------------------------------------------
  // The wildcard condition is exact.
  // ------------------------------------------------------------------

  predicate Slashless(parts: seq<string>) {
    forall p :: p in parts ==> '/' !in p
  }

  lemma {:induction false} SplitIsSlashless(s: string)
    ensures Slashless(Split(s))
  {
    if s != "" {
      SplitIsSlashless(s[1..]);
      var rest := Split(s[1..]);
      assert rest[0] in rest;
      forall p | p in Split(s) ensures '/' !in p {
        if s[0] != '/' && p != [s[0]] + rest[0] {
          assert p in rest[1..];
        }
      }
    }
  }

  lemma {:induction false} SplitFront(w: string, tail: string)
    requires '/' !in w && (tail == "" || tail[0] == '/')
    ensures Split(w + tail) == [w] + Split(tail)[1..]
  {
    if w == "" {
      assert w + tail == tail;
      assert Split(tail)[0] == "";
    } else {
      SplitFront(w[1..], tail);
      assert w[0] in w && (w + tail)[0] == w[0] && (w + tail)[1..] == w[1..] + tail;
      assert [w[0]] + w[1..] == w;
    }
  }

  lemma {:induction false} SplitJoin(parts: seq<string>)
    requires parts != [] && Slashless(parts)
    ensures Split(Join(parts)) == parts
  {
    var w := parts[0];
    assert w in parts;
    if |parts| == 1 {
      SplitFront(w, "");
      assert w + "" == w && parts == [w];
    } else {
      var rest := Join(parts[1..]);
      SplitJoin(parts[1..]);
      SplitFront(w, "/" + rest);
      assert w + "/" + rest == w + ("/" + rest);
      assert ("/" + rest)[1..] == rest && Split("/" + rest)[1..] == Split(rest);
      assert parts == [w] + parts[1..];
    }
  }

  /** A joined path ends where its last segment ends. */
  lemma {:induction false} JoinEnd(parts: seq<string>)
    requires parts != [] && parts[|parts| - 1] != ""
    ensures var last, s := parts[|parts| - 1], Join(parts); s != "" && s[|s| - 1] == last[|last| - 1]
  {
    if |parts| > 1 {
      JoinEnd(parts[1..]);
    }
  }

  /** The segments of a trimmed path with a '*' segment end in a non-empty one. */
  lemma LastSegment(s: string)
    requires "*" in Split(TrimTrailingSlash(s))
    ensures var parts := Split(TrimTrailingSlash(s)); parts[|parts| - 1] != ""
  {
    var r := TrimTrailingSlash(s);
    var parts := Split(r);
    SplitIsSlashless(r);
    JoinSplit(r);
    if |parts| == 1 {
      assert parts[0] == "*";
    } else if parts[|parts| - 1] == "" {
      JoinSlash(parts);
      TrimTakesSlashes(s);
      OneSlash(r);
    }
  }

  lemma {:induction false} JoinSlash(parts: seq<string>)
    requires |parts| > 1 && parts[|parts| - 1] == ""
    ensures var s := Join(parts); s != "" && s[|s| - 1] == '/'
  {
    if |parts| > 2 {
      JoinSlash(parts[1..]);
    } else {
      assert Join(parts[1..]) == "";
    }
  }

  lemma OneSlash(s: string)
    requires |s| <= 1 && s != ""
    ensures s == "/" ==> Split(s) == ["", ""]
  {
    assert s[1..] == "";
  }

  lemma NothingToTrim(s: string)
    requires s == "" || s[|s| - 1] != '/'
    ensures TrimTrailingSlash(s) == s
  {
  }

  /** Putting another non-empty name for a '*' segment gives a different path that the pattern still matches. */
  lemma StarMatchesAnotherPath(pattern: string) returns (path: string)
    requires pattern != "" && pattern[0] == '/' && "*" in Split(TrimTrailingSlash(pattern))
    ensures PathMatches(path, pattern, true) && TrimTrailingSlash(path) != TrimTrailingSlash(pattern)
  {
    hide Split, Join, TrimTrailingSlash;
    var r := TrimTrailingSlash(pattern);
    var parts := Split(r);
    var i :| 0 <= i < |parts| && parts[i] == "*";
    var other := parts[i := "x"];
    SplitIsSlashless(r);
    LastSegment(pattern);
    SplitJoin(other);
    JoinEnd(other);
    var last := other[|other| - 1];
    assert last in other && last[|last| - 1] in last;
    path := Join(other);
    NothingToTrim(path);
    assert other[i] != parts[i];
  }

  /**
   The derived scope of a request below the root covers exactly the requests to its host and
   path if and only if neither contains a wildcard; whoever mints can tell from the request.
   */
  lemma CoversExactlyIffNoWildcard(t: Target)
    requires Parsed(t) && t.path != "/" && ScopeFromTarget(Some(t)).Some?
    ensures (forall other :: GrantCovers(ScopeFromTarget(Some(t)).value, other) <==>
               EqualIgnoringCase(other.host, t.host) && TrimTrailingSlash(other.path) == TrimTrailingSlash(t.path))
            <==> NoWildcard(t)
  {
    if NoWildcard(t) {
      forall other {
        DerivedScopeCoversExactly(t, other);
      }
    } else {
      var scope := ScopeFromTarget(Some(t)).value;
      ScopeParts(t);
      if '*' in t.host {
        assert !GrantCovers(scope, t);
      } else {
        var path := StarMatchesAnotherPath(t.path);
        var other := Target(t.host, path);
        assert GrantCovers(scope, other) && TrimTrailingSlash(other.path) != TrimTrailingSlash(t.path);
      }
    }
  }
}
