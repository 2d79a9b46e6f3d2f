/**
 The rewrite of a database URL from Supabase's transaction pooler (port 6543) to its
 session pooler (port 5432). Only the port of the host part may change.
 */
module PoolerUrl {
  import opened Options

  const POOLER_HOST := "pooler.supabase.com"

  predicate OccursAt(s: string, pattern: string, i: nat) {
    i + |pattern| <= |s| && s[i..i + |pattern|] == pattern
  }

  /** The first occurrence of `pattern` at or after `i`. */
  function FindFrom(s: string, pattern: string, i: nat): (r: Option<nat>)
    ensures r.Some? ==> i <= r.value && OccursAt(s, pattern, r.value) && forall k :: i <= k < r.value ==> !OccursAt(s, pattern, k)
    ensures r.None? ==> forall k :: i <= k ==> !OccursAt(s, pattern, k)
    decreases |s| - i
  {
    if i + |pattern| > |s| then None
    else if OccursAt(s, pattern, i) then Some(i)
    else FindFrom(s, pattern, i + 1)
  }

  predicate Contains(s: string, pattern: string) {
    FindFrom(s, pattern, 0).Some?
  }

  /** The first path or query delimiter at or after `i`, or the end of the string. */
  function AuthorityEnd(s: string, i: nat): (r: nat)
    requires i <= |s|
    ensures i <= r <= |s| && (r < |s| ==> s[r] == '/' || s[r] == '?')
    ensures forall k :: i <= k < r ==> s[k] != '/' && s[k] != '?'
    decreases |s| - i
  {
    if i == |s| || s[i] == '/' || s[i] == '?' then i else AuthorityEnd(s, i + 1)
  }

  /** The last index of `c` in `s[lo..hi]`. */
  function LastIn(s: string, c: char, lo: nat, hi: nat): (r: Option<nat>)
    requires lo <= hi <= |s|
    ensures r.Some? ==> lo <= r.value < hi && s[r.value] == c && forall k :: r.value < k < hi ==> s[k] != c
    ensures r.None? ==> forall k :: lo <= k < hi ==> s[k] != c
    decreases hi
  {
    if lo == hi then None else if s[hi - 1] == c then Some(hi - 1) else LastIn(s, c, lo, hi - 1)
  }

  /** `s[host..colon]` is the host and `s[colon + 1..end]` the port. */
  datatype Location = Location(host: nat, colon: nat, end: nat)

  /** Where the URL's port is, if its authority has one. */
  function Locate(url: string): (r: Option<Location>)
    ensures r.Some? ==> r.value.host <= r.value.colon < r.value.end <= |url|
  {
    match FindFrom(url, "://", 0)
    case None => None
    case Some(schemeEnd) =>
      var start := schemeEnd + 3;
      var end := AuthorityEnd(url, start);
      var at := LastIn(url, '@', start, end);
      var host := if at.Some? then at.value + 1 else start;
      match LastIn(url, ':', host, end)
      case None => None
      case Some(colon) => Some(Location(host, colon, end))
  }

  predicate OnTransactionPooler(url: string) {
    var l := Locate(url);
    l.Some? && url[l.value.colon + 1..l.value.end] == "6543" && Contains(url[l.value.host..l.value.colon], POOLER_HOST)
  }

  function Normalize(url: string): string {
    if OnTransactionPooler(url)
    then var l := Locate(url).value; url[..l.colon + 1] + "5432" + url[l.end..]
    else url
  }

  // ------------------------------------------------------------------

  predicate Plain(c: char) {
    c != ':' && c != '/' && c != '?' && c != '@'
  }

  /** Two URLs of one length that agree except on plain characters inside the located port. */
  predicate SameButPort(u: string, v: string, l: Location) {
    && |u| == |v| && l.colon < l.end <= |u|
    && forall i :: 0 <= i < |u| ==> u[i] == v[i] || (l.colon < i < l.end && Plain(u[i]) && Plain(v[i]))
  }

  lemma SameSchemeEnd(u: string, v: string, l: Location, e: nat)
    requires SameButPort(u, v, l) && FindFrom(u, "://", 0) == Some(e) && e + 3 <= l.colon + 1
    ensures FindFrom(v, "://", 0) == Some(e)
  {
    assert v[e..e + 3] == u[e..e + 3] && OccursAt(v, "://", e);
    forall k | 0 <= k < e ensures !OccursAt(v, "://", k) {
      assert !OccursAt(u, "://", k) && v[k..k + 3] == u[k..k + 3];
    }
  }

  /** Changing plain characters of the port moves neither the host nor the port. */
  lemma LocationIsStable(u: string, v: string)
    requires Locate(u).Some? && SameButPort(u, v, Locate(u).value)
    ensures Locate(v) == Locate(u)
  {
    var l := Locate(u).value;
    var e := FindFrom(u, "://", 0).value;
    SameSchemeEnd(u, v, l, e);
    SameMarks(u, v, l, e + 3);
  }

  lemma SameMarks(u: string, v: string, l: Location, start: nat)
    requires SameButPort(u, v, l) && start <= l.end && AuthorityEnd(u, start) == l.end
    ensures AuthorityEnd(v, start) == l.end
    ensures forall lo: nat, c :: lo <= l.end && !Plain(c) ==> LastIn(u, c, lo, l.end) == LastIn(v, c, lo, l.end)
  {
    assert forall i, c :: 0 <= i < |u| && !Plain(c) ==> (u[i] == c <==> v[i] == c);
    assert AuthorityEnd(v, start) == l.end;
  }

  /** The rewrite keeps the length and touches nothing but the port. */
  lemma OnlyThePortChanges(url: string)
    ensures |Normalize(url)| == |url|
    ensures OnTransactionPooler(url) ==>
              var l := Locate(url).value;
              && SameButPort(url, Normalize(url), l)
              && Normalize(url)[..l.colon + 1] == url[..l.colon + 1]
              && Normalize(url)[l.colon + 1..l.end] == "5432"
              && Normalize(url)[l.end..] == url[l.end..]
    ensures !OnTransactionPooler(url) ==> Normalize(url) == url
  {
    hide Locate, Contains;
    if OnTransactionPooler(url) {
      var l := Locate(url).value;
      var v := Normalize(url);
      assert l.end == l.colon + 5;
      forall i | l.colon < i < l.end ensures Plain(url[i]) && Plain(v[i]) {
        assert url[i] == url[l.colon + 1..l.end][i - l.colon - 1] == "6543"[i - l.colon - 1];
        assert v[i] == "5432"[i - l.colon - 1];
      }
    }
  }

  /** No result is on the transaction pooler, so rewriting again changes nothing. */
  lemma NeverLeftOnTransactionPooler(url: string)
    ensures !OnTransactionPooler(Normalize(url))
    ensures Normalize(Normalize(url)) == Normalize(url)
  {
    OnlyThePortChanges(url);
    if OnTransactionPooler(url) {
      LocationIsStable(url, Normalize(url));
    }
  }

  /** A scheme up to `e`, userinfo up to an '@' before `h` or none, a plain host, and a plain port up to `end`. */
  predicate LaidOut(url: string, e: nat, h: nat, colon: nat, end: nat) {
    && e + 3 <= h <= colon < end <= |url|
    && OccursAt(url, "://", e) && (forall i :: 0 <= i < e ==> url[i] != ':')
    && (forall i :: e + 3 <= i < end ==> url[i] != '/' && url[i] != '?')
    && (h == e + 3 || url[h - 1] == '@') && url[colon] == ':'
    && (forall i :: h <= i < end && i != colon ==> Plain(url[i]))
    && (end < |url| ==> url[end] == '/' || url[end] == '?')
  }

  lemma LayoutIsLocated(url: string, e: nat, h: nat, colon: nat, end: nat)
    requires LaidOut(url, e, h, colon, end)
    ensures Locate(url) == Some(Location(h, colon, end))
  {
    hide FindFrom, AuthorityEnd, LastIn;
    forall k | 0 <= k < e ensures !OccursAt(url, "://", k) {
      if k + 3 <= |url| {
        assert url[k..k + 3][0] == url[k];
      }
    }
    assert FindFrom(url, "://", 0) == Some(e);
    assert AuthorityEnd(url, e + 3) == end;
    assert LastIn(url, '@', e + 3, end) == if h == e + 3 then None else Some(h - 1);
    assert LastIn(url, ':', h, end) == Some(colon);
  }

  /** Userinfo is absent or ends in '@', and may hold '@', ':' and digits. */
  predicate IsUserInfo(info: string) {
    '/' !in info && '?' !in info && (info == "" || info[|info| - 1] == '@')
  }

  lemma Between(a: string, b: string, c: string)
    ensures (a + b + c)[|a|..|a| + |b|] == b
  {
  }

  /** The index of each part of an assembled URL. */
  lemma PartsAreLaidOut(scheme: string, info: string, host: string, port: string, tail: string, url: string)
    requires ':' !in scheme && IsUserInfo(info) && forall c :: c in host || c in port ==> Plain(c)
    requires tail == "" || tail[0] == '/' || tail[0] == '?'
    requires url == scheme + "://" + info + host + ":" + port + tail
    ensures var h := |scheme| + 3 + |info|; LaidOut(url, |scheme|, h, h + |host|, h + |host| + 1 + |port|)
  {
    var e, h := |scheme|, |scheme| + 3 + |info|;
    var colon := h + |host|;
    assert forall i :: 0 <= i < e ==> url[i] == scheme[i];
    Between(scheme, "://", info + host + ":" + port + tail);
    assert url == scheme + "://" + (info + host + ":" + port + tail);
    forall i | e + 3 <= i < h ensures url[i] == info[i - e - 3] && url[i] != '/' && url[i] != '?' {
      assert info[i - e - 3] in info;
    }
    forall i | h <= i < colon ensures Plain(url[i]) {
      assert url[i] == host[i - h];
    }
    forall i | colon < i < colon + 1 + |port| ensures Plain(url[i]) {
      assert url[i] == port[i - colon - 1];
    }
    assert tail != "" ==> url[colon + 1 + |port|] == tail[0];
  }

  lemma RewrittenAt(url: string, l: Location, front: string, tail: string)
    requires Locate(url) == Some(l) && url == front + "6543" + tail && |front| == l.colon + 1 && l.end == l.colon + 5
    requires Contains(front[l.host..l.colon], POOLER_HOST)
    ensures Normalize(url) == front + "5432" + tail
  {
    assert url[l.host..l.colon] == front[l.host..l.colon] && url[l.colon + 1..l.end] == "6543";
    assert url[..l.colon + 1] == front && url[l.end..] == tail;
  }

  /** A URL put together from its parts. */
  function Assembled(scheme: string, info: string, host: string, port: string, tail: string): string {
    scheme + "://" + info + host + ":" + port + tail
  }

  /** Parts that make up a URL: a plain host and port, and nothing in the userinfo that would end the authority. */
  predicate AreParts(scheme: string, info: string, host: string, port: string, tail: string) {
    && ':' !in scheme && IsUserInfo(info) && (forall c :: c in host || c in port ==> Plain(c))
    && (tail == "" || tail[0] == '/' || tail[0] == '?')
  }

  lemma WhereThePartsAre(scheme: string, info: string, host: string, port: string, tail: string)
    requires AreParts(scheme, info, host, port, tail)
    ensures var url, h := Assembled(scheme, info, host, port, tail), |scheme| + 3 + |info|;
            && Locate(url) == Some(Location(h, h + |host|, h + |host| + 1 + |port|)) && h + |host| + 1 + |port| <= |url|
            && url[h..h + |host|] == host && url[h + |host| + 1..h + |host| + 1 + |port|] == port
  {
    hide Locate;
    var url, h := Assembled(scheme, info, host, port, tail), |scheme| + 3 + |info|;
    PartsAreLaidOut(scheme, info, host, port, tail, url);
    LayoutIsLocated(url, |scheme|, h, h + |host|, h + |host| + 1 + |port|);
  }

  /**
   What it means for a whole URL, with and without userinfo, even if that has '@', ':' or ":6543" in it: the port is
   replaced if and only if the host is the pooler's and the port is 6543; everything else is kept.
   */
  lemma RewrittenIff(scheme: string, info: string, host: string, port: string, tail: string)
    requires AreParts(scheme, info, host, port, tail)
    ensures Normalize(Assembled(scheme, info, host, port, tail)) ==
              Assembled(scheme, info, host, if port == "6543" && Contains(host, POOLER_HOST) then "5432" else port, tail)
  {
    hide Locate, Contains;
    WhereThePartsAre(scheme, info, host, port, tail);
    var url := Assembled(scheme, info, host, port, tail);
    if port == "6543" && Contains(host, POOLER_HOST) {
      var front := scheme + "://" + info + host + ":";
      assert front[|scheme| + 3 + |info|..|front| - 1] == host;
      RewrittenAt(url, Locate(url).value, front, tail);
    }
  }

  /** In particular every pooler URL on the transaction port is rewritten. */
  lemma PoolerUrlIsRewritten(scheme: string, info: string, host: string, tail: string)
    requires AreParts(scheme, info, host, "6543", tail) && Contains(host, POOLER_HOST)
    ensures Normalize(Assembled(scheme, info, host, "6543", tail)) == Assembled(scheme, info, host, "5432", tail)
  {
    RewrittenIff(scheme, info, host, "6543", tail);
  }

  /** What containing a text means: it stands between two others. */
  lemma ContainsBetween(a: string, pattern: string, b: string)
    ensures Contains(a + pattern + b, pattern)
  {
    assert (a + pattern + b)[|a|..|a| + |pattern|] == pattern;
    assert OccursAt(a + pattern + b, pattern, |a|);
  }

  lemma ContainedBetween(s: string, pattern: string) returns (a: string, b: string)
    requires Contains(s, pattern)
    ensures s == a + pattern + b
  {
    var i := FindFrom(s, pattern, 0).value;
    a, b := s[..i], s[i + |pattern|..];
  }
}
