/**
 From a reviewed request to a request that a grant lets through. One system holds the approval
 rows, the clicks on them and the grant table; grants come from clicks or are authored in the
 dashboard, and the proxy lists a credential's live grants and claims one that covers a request.
 */
module GrantUse {
  import opened Options
  import opened Replies
  import A = Approvals
  import M = GrantMinting
  import G = Grants
  import opened GrantScope

  type Parser = string -> Option<M.Reviewed>

  /** Where a click's grant came from. */
  datatype Origin = Origin(click: M.ClickId, request: M.Reviewed, mintedAt: G.Time, grant: G.Grant)

  /** `requests` are the details each click has loaded; `used` are the grant ids drawn so far, which are never drawn again. */
  datatype World = World(
    sys: M.System,
    requests: map<M.ClickId, M.Reviewed>,
    db: G.Db,
    used: set<G.GrantId>,
    origins: map<G.GrantId, Origin>)

  datatype Event =
    | Statement(s: A.Step)
    | Press(click: M.ClickId, txn: A.TxnId)
    | Load(click: M.ClickId, now: A.Time, mayGrant: bool)
    | Claim(click: M.ClickId, user: string, reply: Reply)
    | Mint(click: M.ClickId, id: G.GrantId, email: string, policy: G.PolicyRead, now: G.Time)
    | GrantStatement(g: G.Step)

  predicate InStage(w: World, c: M.ClickId, stage: M.Stage) {
    c in w.sys.clicks && w.sys.clicks[c].stage == stage
  }

  /** What the row that `c` is about says now. */
  function Details(parse: Parser, w: World, c: M.ClickId): Option<M.Reviewed> {
    if c in w.sys.clicks && w.sys.clicks[c].txn in w.sys.table then parse(w.sys.table[w.sys.clicks[c].txn].details) else None
  }

  predicate Loads(parse: Parser, w: World, c: M.ClickId, now: A.Time, mayGrant: bool) {
    InStage(w, c, M.Clicked) && mayGrant && M.Readable(w.sys.table, w.sys.clicks[c].txn, now) && Details(parse, w, c).Some?
  }

  /** The grant that click `c` would mint. */
  function Candidate(w: World, c: M.ClickId, id: G.GrantId, email: string, policy: G.PolicyRead, now: G.Time): Option<G.Grant>
    requires c in w.requests
  {
    var r := w.requests[c];
    G.GrantFor(id, r.team, r.credential, r.verb, r.target, email, G.GRANT_DEFAULT_TTL_MINUTES, None, policy, now)
  }

  function MintNext(w: World, c: M.ClickId, id: G.GrantId, email: string, policy: G.PolicyRead, now: G.Time): World {
    if !InStage(w, c, M.Claimed) || c !in w.requests || id in w.used then w
    else
      var grant := Candidate(w, c, id, email, policy, now);
      var stored := grant.Some? && G.Succeeds(w.db, G.Create(grant.value));
      var minted := w.(sys := M.Next(w.sys, M.Mint(c, stored)));
      if !stored then minted
      else minted.(db := G.Apply(w.db, G.Create(grant.value)), used := w.used + {id},
                   origins := w.origins[id := Origin(c, w.requests[c], now, grant.value)])
  }

  function Next(parse: Parser, w: World, ev: Event): World {
    match ev
    case Statement(s) => w.(sys := M.Next(w.sys, M.Statement(s)))
    case Press(c, x) => w.(sys := M.Next(w.sys, M.Press(c, x)))
    case Load(c, now, mayGrant) =>
      var details := Details(parse, w, c);
      w.(sys := M.Next(w.sys, M.Load(c, now, mayGrant && details.Some?)),
         requests := if Loads(parse, w, c, now, mayGrant) then w.requests[c := details.value] else w.requests)
    case Claim(c, user, reply) => w.(sys := M.Next(w.sys, M.Claim(c, user, reply)))
    case Mint(c, id, email, policy, now) => MintNext(w, c, id, email, policy, now)
    case GrantStatement(g) =>
      if g.Create? && g.grant.id in w.used then w
      else w.(db := G.Apply(w.db, g), used := if g.Create? then w.used + {g.grant.id} else w.used)
  }

  function WorldAt(parse: Parser, t: A.Table, db: G.Db, events: seq<Event>, k: nat): World
    requires k <= |events|
  {
    if k == 0 then World(M.Start(t), map[], db, db.grants.Keys, map[])
    else Next(parse, WorldAt(parse, t, db, events, k - 1), events[k - 1])
  }

  // ------------------------------------------------------------------
  // A click's grant is for what the click loaded.
  // ------------------------------------------------------------------

  predicate IsGrantFor(g: G.Grant, r: M.Reviewed, mintedAt: G.Time) {
    && g.team == r.team && g.credential == r.credential && g.methods == [r.verb]
    && r.target.Some? && G.ScopeFromTarget(r.target).Some? && g.routeScope == [G.ScopeFromTarget(r.target).value]
    && g.expiresAt == mintedAt + G.GRANT_DEFAULT_TTL_MINUTES * G.SECONDS_PER_MINUTE
  }

  predicate OriginHolds(w: World, id: G.GrantId)
    requires id in w.origins
  {
    var o := w.origins[id];
    && id in w.used && InStage(w, o.click, M.Minted)
    && o.click in w.requests && w.requests[o.click] == o.request && IsGrantFor(o.grant, o.request, o.mintedAt)
    && (id in w.db.grants ==> G.SameTerms(o.grant, w.db.grants[id]))
  }

  ghost predicate Traced(w: World) {
    w.db.grants.Keys <= w.used && forall id :: id in w.origins ==> OriginHolds(w, id)
  }

  /** A click that has minted stays so, on the same transaction. */
  lemma MintedStays(sys: M.System, ev: M.Event, c: M.ClickId)
    requires c in sys.clicks && sys.clicks[c].stage == M.Minted
    ensures c in M.Next(sys, ev).clicks && M.Next(sys, ev).clicks[c] == sys.clicks[c]
  {
  }

  lemma ClickEventTraced(parse: Parser, w: World, ev: Event, id: G.GrantId)
    requires id in w.origins && OriginHolds(w, id) && !ev.Mint? && !ev.GrantStatement?
    ensures id in Next(parse, w, ev).origins && OriginHolds(Next(parse, w, ev), id)
  {
    hide M.Next, IsGrantFor, M.Readable;
    var c := w.origins[id].click;
    match ev
    case Statement(s) => MintedStays(w.sys, M.Statement(s), c);
    case Press(d, x) => MintedStays(w.sys, M.Press(d, x), c);
    case Load(d, now, may) => MintedStays(w.sys, M.Load(d, now, may && Details(parse, w, d).Some?), c);
    case Claim(d, user, reply) => MintedStays(w.sys, M.Claim(d, user, reply), c);
  }

  /** A grant statement leaves the terms of a drawn id alone. */
  lemma GrantEventTraced(parse: Parser, w: World, ev: Event, id: G.GrantId)
    requires w.db.grants.Keys <= w.used && id in w.origins && OriginHolds(w, id) && ev.GrantStatement?
    ensures OriginHolds(Next(parse, w, ev), id)
  {
    hide IsGrantFor;
    var after := Next(parse, w, ev);
    if id in after.db.grants && after != w {
      assert id in w.db.grants;
      G.StepKeepsTerms(w.db, ev.g, id);
    }
  }

  lemma MintedGrant(w: World, c: M.ClickId, id: G.GrantId, email: string, policy: G.PolicyRead, now: G.Time)
    requires c in w.requests && Candidate(w, c, id, email, policy, now).Some?
    ensures var g := Candidate(w, c, id, email, policy, now).value;
            IsGrantFor(g, w.requests[c], now) && g.id == id && g.uses == 0 && !g.revoked
  {
  }

  lemma MintStage(sys: M.System, c: M.ClickId, stored: bool)
    requires c in sys.clicks && sys.clicks[c].stage == M.Claimed && stored
    ensures c in M.Next(sys, M.Mint(c, stored)).clicks && M.Next(sys, M.Mint(c, stored)).clicks[c].stage == M.Minted
  {
  }

  /** A claimed click whose guardrails hold stores its grant under the new id. */
  lemma MintStores(parse: Parser, w: World, ev: Event)
    requires ev.Mint? && InStage(w, ev.click, M.Claimed) && ev.click in w.requests && ev.id !in w.used && w.db.grants.Keys <= w.used
    requires var r := w.requests[ev.click];
             && (r.team, r.credential) in w.db.credentials
             && G.GrantFor(ev.id, r.team, r.credential, r.verb, r.target, ev.email, 30, None, ev.policy, ev.now).Some?
    ensures var after, r := Next(parse, w, ev), w.requests[ev.click];
            && ev.id in after.origins && after.origins[ev.id].request == r && after.origins[ev.id].mintedAt == ev.now
            && ev.id in after.db.grants && IsGrantFor(after.db.grants[ev.id], r, ev.now) && InStage(after, ev.click, M.Minted)
  {
    hide IsGrantFor, M.Next;
    MintStage(w.sys, ev.click, true);
    MintedGrant(w, ev.click, ev.id, ev.email, ev.policy, ev.now);
    var g := Candidate(w, ev.click, ev.id, ev.email, ev.policy, ev.now).value;
    assert g.(uses := 0, revoked := false) == g;
  }

  lemma MintTraced(w: World, ev: Event, id: G.GrantId)
    requires w.db.grants.Keys <= w.used && ev.Mint? && (id in w.origins ==> OriginHolds(w, id))
    requires id in MintNext(w, ev.click, ev.id, ev.email, ev.policy, ev.now).origins
    ensures OriginHolds(MintNext(w, ev.click, ev.id, ev.email, ev.policy, ev.now), id)
  {
    hide IsGrantFor, M.Next;
    var after := MintNext(w, ev.click, ev.id, ev.email, ev.policy, ev.now);
    if after != w {
      var grant := Candidate(w, ev.click, ev.id, ev.email, ev.policy, ev.now);
      var stored := grant.Some? && G.Succeeds(w.db, G.Create(grant.value));
      if id in w.origins {
        MintedStays(w.sys, M.Mint(ev.click, stored), w.origins[id].click);
      } else {
        MintStage(w.sys, ev.click, stored);
        MintedGrant(w, ev.click, ev.id, ev.email, ev.policy, ev.now);
      }
    }
  }

  lemma UsedStep(parse: Parser, w: World, ev: Event)
    requires w.db.grants.Keys <= w.used
    ensures Next(parse, w, ev).db.grants.Keys <= Next(parse, w, ev).used
  {
    hide M.Next;
  }

  lemma TracedStep(parse: Parser, w: World, ev: Event)
    requires Traced(w)
    ensures Traced(Next(parse, w, ev))
  {
    hide M.Next, G.Apply, OriginHolds, MintNext, M.Readable;
    UsedStep(parse, w, ev);
    forall id | id in Next(parse, w, ev).origins ensures OriginHolds(Next(parse, w, ev), id) {
      if ev.Mint? {
        MintTraced(w, ev, id);
      } else if ev.GrantStatement? {
        GrantEventTraced(parse, w, ev, id);
      } else {
        ClickEventTraced(parse, w, ev, id);
      }
    }
  }

  lemma {:induction false} AlwaysTraced(parse: Parser, t: A.Table, db: G.Db, events: seq<Event>, k: nat)
    requires k <= |events|
    ensures Traced(WorldAt(parse, t, db, events, k))
  {
    if k > 0 {
      hide Next, Traced;
      AlwaysTraced(parse, t, db, events, k - 1);
      TracedStep(parse, WorldAt(parse, t, db, events, k - 1), events[k - 1]);
    }
  }

  // ------------------------------------------------------------------
  // The click's own history.
  // ------------------------------------------------------------------

  predicate Past(w: World, c: M.ClickId) {
    InStage(w, c, M.Loaded) || InStage(w, c, M.Claimed) || InStage(w, c, M.Minted) || InStage(w, c, M.Spent)
  }

  /** The event with which `w`'s click loads its row. */
  predicate LoadsAt(parse: Parser, w: World, ev: Event, c: M.ClickId, x: A.TxnId, r: M.Reviewed) {
    && ev.Load? && ev.click == c && c in w.sys.clicks && w.sys.clicks[c].txn == x
    && M.Readable(w.sys.table, x, ev.now) && parse(w.sys.table[x].details) == Some(r)
  }

  lemma LoadOnLoad(parse: Parser, w: World, ev: Event, c: M.ClickId)
    requires Past(Next(parse, w, ev), c) && (Past(w, c) ==> c in w.requests)
    requires ev.Load?
    ensures var after := Next(parse, w, ev);
            && c in after.requests && c in w.sys.clicks && after.sys.clicks[c].txn == w.sys.clicks[c].txn
            && (if Past(w, c) then after.requests[c] == w.requests[c]
                else LoadsAt(parse, w, ev, c, w.sys.clicks[c].txn, after.requests[c]))
  {
  }

  lemma LoadOnOther(parse: Parser, w: World, ev: Event, c: M.ClickId)
    requires Past(Next(parse, w, ev), c) && (Past(w, c) ==> c in w.requests)
    requires !ev.Load?
    ensures var after := Next(parse, w, ev);
            && Past(w, c) && after.requests == w.requests && after.sys.clicks[c].txn == w.sys.clicks[c].txn
  {
    hide A.Apply, A.Affects, G.Apply, G.GrantFor;
  }

  lemma LoadStep(parse: Parser, w: World, ev: Event, c: M.ClickId)
    requires Past(Next(parse, w, ev), c) && (Past(w, c) ==> c in w.requests)
    ensures var after := Next(parse, w, ev);
            && c in after.requests && c in w.sys.clicks && after.sys.clicks[c].txn == w.sys.clicks[c].txn
            && (if Past(w, c) then after.requests[c] == w.requests[c]
                else LoadsAt(parse, w, ev, c, w.sys.clicks[c].txn, after.requests[c]))
  {
    hide Next, LoadsAt;
    if ev.Load? {
      LoadOnLoad(parse, w, ev, c);
    } else {
      LoadOnOther(parse, w, ev, c);
    }
  }

  lemma {:induction false} FindLoad(parse: Parser, t: A.Table, db: G.Db, events: seq<Event>, c: M.ClickId, k: nat) returns (b: nat)
    requires k <= |events| && Past(WorldAt(parse, t, db, events, k), c)
    ensures var w := WorldAt(parse, t, db, events, k);
            && b < k && c in w.requests
            && LoadsAt(parse, WorldAt(parse, t, db, events, b), events[b], c, w.sys.clicks[c].txn, w.requests[c])
  {
    hide Next, LoadsAt;
    var before := WorldAt(parse, t, db, events, k - 1);
    if Past(before, c) {
      b := FindLoad(parse, t, db, events, c, k - 1);
    } else {
      b := k - 1;
    }
    LoadStep(parse, before, events[k - 1], c);
  }

  /** The event with which `w`'s click wins the row of `x`: pending before it, approved after it. */
  predicate WinsRow(parse: Parser, w: World, ev: Event, c: M.ClickId, x: A.TxnId) {
    var after := Next(parse, w, ev);
    && ev.Claim? && ev.click == c && InStage(w, c, M.Loaded) && w.sys.clicks[c].txn == x
    && x in w.sys.table && w.sys.table[x].status == A.Pending
    && x in after.sys.table && after.sys.table[x].status == A.Approved
  }

  /** A click's own part of an event. */
  lemma WinsByClaim(parse: Parser, w: World, ev: Event, c: M.ClickId, x: A.TxnId)
    requires M.WonOn(Next(parse, w, ev).sys, c, x) && !M.WonOn(w.sys, c, x)
    ensures WinsRow(parse, w, ev, c, x)
  {
    hide A.Apply, G.Apply, G.GrantFor, M.Next;
    match ev
    case Statement(s) => M.WinStep(w.sys, M.Statement(s), c, x);
    case Press(d, y) => M.WinStep(w.sys, M.Press(d, y), c, x);
    case Load(d, now, may) => M.WinStep(w.sys, M.Load(d, now, may && Details(parse, w, d).Some?), c, x);
    case Claim(d, user, reply) =>
      M.WinStep(w.sys, M.Claim(d, user, reply), c, x);
      LoadedBeforeClaim(w.sys, M.Claim(d, user, reply), c, x);
    case Mint(d, id, email, policy, now) =>
      if Next(parse, w, ev) != w {
        var grant := Candidate(w, d, id, email, policy, now);
        M.WinStep(w.sys, M.Mint(d, grant.Some? && G.Succeeds(w.db, G.Create(grant.value))), c, x);
      }
    case GrantStatement(_) =>
  }

  lemma LoadedBeforeClaim(sys: M.System, ev: M.Event, c: M.ClickId, x: A.TxnId)
    requires ev.Claim? && M.WonOn(M.Next(sys, ev), c, x) && !M.WonOn(sys, c, x)
    ensures c in sys.clicks && sys.clicks[c] == M.Click(x, M.Loaded)
  {
    hide A.Apply, A.Affects;
  }

  lemma {:induction false} FindWin(parse: Parser, t: A.Table, db: G.Db, events: seq<Event>, c: M.ClickId, x: A.TxnId, k: nat)
    returns (a: nat)
    requires k <= |events| && M.WonOn(WorldAt(parse, t, db, events, k).sys, c, x)
    ensures a < k && WinsRow(parse, WorldAt(parse, t, db, events, a), events[a], c, x)
  {
    hide Next, WinsRow;
    if M.WonOn(WorldAt(parse, t, db, events, k - 1).sys, c, x) {
      a := FindWin(parse, t, db, events, c, x, k - 1);
    } else {
      WinsByClaim(parse, WorldAt(parse, t, db, events, k - 1), events[k - 1], c, x);
      a := k - 1;
    }
  }

  /** What a click has loaded stays what it was. */
  lemma {:induction false} RequestIsFixed(parse: Parser, t: A.Table, db: G.Db, events: seq<Event>, c: M.ClickId, i: nat, j: nat)
    requires i <= j <= |events| && Past(WorldAt(parse, t, db, events, i), c) && c in WorldAt(parse, t, db, events, i).requests
    requires Past(WorldAt(parse, t, db, events, j), c)
    ensures var v, w := WorldAt(parse, t, db, events, i), WorldAt(parse, t, db, events, j);
            c in w.requests && w.requests[c] == v.requests[c] && w.sys.clicks[c].txn == v.sys.clicks[c].txn
    decreases j
  {
    hide Next, LoadsAt;
    if i < j {
      PastStaysUpTo(parse, t, db, events, c, i, j - 1);
      RequestIsFixed(parse, t, db, events, c, i, j - 1);
      LoadStep(parse, WorldAt(parse, t, db, events, j - 1), events[j - 1], c);
    }
  }

  predicate PastOrRefused(w: World, c: M.ClickId) {
    Past(w, c) || InStage(w, c, M.Refused)
  }

  lemma PastOrRefusedStep(parse: Parser, w: World, ev: Event, c: M.ClickId)
    requires PastOrRefused(w, c)
    ensures PastOrRefused(Next(parse, w, ev), c) && (InStage(w, c, M.Refused) ==> InStage(Next(parse, w, ev), c, M.Refused))
  {
    hide A.Apply, A.Affects, G.Apply, G.GrantFor;
  }

  /** A click past its load that is past it later was so all along. */
  lemma {:induction false} PastStaysUpTo(parse: Parser, t: A.Table, db: G.Db, events: seq<Event>, c: M.ClickId, i: nat, j: nat)
    requires i <= j < |events| && Past(WorldAt(parse, t, db, events, i), c) && Past(WorldAt(parse, t, db, events, j + 1), c)
    ensures Past(WorldAt(parse, t, db, events, j), c)
  {
    hide Next;
    NeverUnclicked(parse, t, db, events, c, i, j);
    PastOrRefusedStep(parse, WorldAt(parse, t, db, events, j), events[j], c);
  }

  lemma {:induction false} NeverUnclicked(parse: Parser, t: A.Table, db: G.Db, events: seq<Event>, c: M.ClickId, i: nat, j: nat)
    requires i <= j <= |events| && PastOrRefused(WorldAt(parse, t, db, events, i), c)
    ensures PastOrRefused(WorldAt(parse, t, db, events, j), c)
    decreases j
  {
    hide Next, PastOrRefused;
    if i < j {
      NeverUnclicked(parse, t, db, events, c, i, j - 1);
      PastOrRefusedStep(parse, WorldAt(parse, t, db, events, j - 1), events[j - 1], c);
    }
  }

  // ------------------------------------------------------------------
  // The proxy's use of a grant.
  // ------------------------------------------------------------------

  /** `g` is a row of the grant table that a click minted. */
  predicate Holds(w: World, id: G.GrantId, g: G.Grant) {
    id in w.origins && id in w.db.grants && w.db.grants[id] == g
  }

  /** A row the proxy picks from its listing: the credential's, live, and covering the request. */
  predicate Picks(g: G.Grant, team: string, credential: string, verb: string, target: G.Target, now: G.Time) {
    G.BelongsTo(g, team, credential) && G.Live(g, now) && Covers(g, verb, target)
  }

  lemma KeptStep(parse: Parser, w: World, ev: Event, id: G.GrantId, g: G.Grant)
    requires id in w.used && (id in w.db.grants ==> G.SameTerms(g, w.db.grants[id]))
    ensures var after := Next(parse, w, ev);
            id in after.used && (id in after.db.grants ==> G.SameTerms(g, after.db.grants[id]))
  {
    hide M.Next, M.Readable, G.GrantFor;
    var after := Next(parse, w, ev);
    if id in after.db.grants && ev.GrantStatement? && after != w {
      G.StepKeepsTerms(w.db, ev.g, id);
    }
  }

  /** A drawn id never comes to stand for another grant: the row claimed later is the row that was listed. */
  lemma {:induction false} ListedIsClaimed(parse: Parser, t: A.Table, db: G.Db, events: seq<Event>, i: nat, j: nat, id: G.GrantId, g: G.Grant)
    requires i <= j <= |events| && Holds(WorldAt(parse, t, db, events, i), id, g)
    ensures var w := WorldAt(parse, t, db, events, j); id in w.used && (id in w.db.grants ==> G.SameTerms(g, w.db.grants[id]))
    decreases j
  {
    hide Next;
    if i < j {
      ListedIsClaimed(parse, t, db, events, i, j - 1, id, g);
      KeptStep(parse, WorldAt(parse, t, db, events, j - 1), events[j - 1], id, g);
    } else {
      AlwaysTraced(parse, t, db, events, i);
    }
  }

  /** The request a human reviewed: its details were on the row of `x` when the click loaded it, and the click's claim approved that row. */
  ghost predicate WasReviewed(parse: Parser, t: A.Table, db: G.Db, events: seq<Event>, c: M.ClickId, r: M.Reviewed, k: nat)
    requires k <= |events|
  {
    exists b, a, x {:trigger LoadsAt(parse, WorldAt(parse, t, db, events, b), events[b], c, x, r),
                             WinsRow(parse, WorldAt(parse, t, db, events, a), events[a], c, x)} ::
      && 0 <= b < a < k
      && LoadsAt(parse, WorldAt(parse, t, db, events, b), events[b], c, x, r)
      && WinsRow(parse, WorldAt(parse, t, db, events, a), events[a], c, x)
  }

  lemma MintedWasReviewed(parse: Parser, t: A.Table, db: G.Db, events: seq<Event>, c: M.ClickId, k: nat)
    requires k <= |events| && InStage(WorldAt(parse, t, db, events, k), c, M.Minted) && c in WorldAt(parse, t, db, events, k).requests
    ensures WasReviewed(parse, t, db, events, c, WorldAt(parse, t, db, events, k).requests[c], k)
  {
    hide Next, LoadsAt;
    var w := WorldAt(parse, t, db, events, k);
    var x := w.sys.clicks[c].txn;
    var a := FindWin(parse, t, db, events, c, x, k);
    var b := FindLoad(parse, t, db, events, c, a);
    RequestIsFixed(parse, t, db, events, c, a, k);
  }

  /** What one covered use says about the grant's reviewed request. */
  lemma CoveredMatchesReview(g: G.Grant, o: G.Grant, r: M.Reviewed, mintedAt: G.Time, verb: string, target: G.Target)
    requires IsGrantFor(o, r, mintedAt) && G.SameTerms(o, g) && Covers(g, verb, target) && Parsed(r.target.value)
    ensures EqualIgnoringCase(r.verb, verb) && EqualIgnoringCase(target.host, r.target.value.host)
    ensures NoWildcard(r.target.value) ==> TrimTrailingSlash(target.path) == TrimTrailingSlash(r.target.value.path)
  {
    hide Split, TrimTrailingSlash, EqualIgnoringCase;
    DerivedScopeCovers(r.target.value, target);
    if NoWildcard(r.target.value) {
      DerivedScopeCoversExactly(r.target.value, target);
    }
  }

  /**
   End to end: when the proxy lists a grant that a click minted and its claim then wins, the request it lets
   through has the team, credential, method and host of a request that a human reviewed, and without wildcards
   also its path; the row of that request was moved from pending to approved by the click's own claim; the grant
   was minted less than 30 minutes before and is not revoked when claimed.
   */
  lemma UseTracesToReview(parse: Parser, t: A.Table, db: G.Db, events: seq<Event>, i: nat, j: nat, id: G.GrantId, g: G.Grant,
                          team: string, credential: string, verb: string, target: G.Target, now: G.Time)
    requires i <= j <= |events| && Holds(WorldAt(parse, t, db, events, i), id, g)
    requires Picks(g, team, credential, verb, target, now)
    requires G.Succeeds(WorldAt(parse, t, db, events, j).db, G.Claim(id, now))
    ensures var o := WorldAt(parse, t, db, events, i).origins[id];
            var r := o.request;
            && WasReviewed(parse, t, db, events, o.click, r, i)
            && r.team == team && r.credential == credential && r.target.Some?
            && (Parsed(r.target.value) ==>
                  && EqualIgnoringCase(r.verb, verb) && EqualIgnoringCase(target.host, r.target.value.host)
                  && (NoWildcard(r.target.value) ==> TrimTrailingSlash(target.path) == TrimTrailingSlash(r.target.value.path)))
            && now < o.mintedAt + 30 * 60
    ensures var claimed := WorldAt(parse, t, db, events, j).db.grants[id]; G.SameTerms(g, claimed) && !claimed.revoked
  {
    hide WorldAt, WasReviewed, EqualIgnoringCase, NoWildcard, Parsed, TrimTrailingSlash, Covers;
    AlwaysTraced(parse, t, db, events, i);
    ListedIsClaimed(parse, t, db, events, i, j, id, g);
    var w := WorldAt(parse, t, db, events, i);
    assert OriginHolds(w, id);
    var o := w.origins[id];
    MintedWasReviewed(parse, t, db, events, o.click, i);
    if Parsed(o.request.target.value) {
      CoveredMatchesReview(g, o.grant, o.request, o.mintedAt, verb, target);
    }
  }
}
