/**
 Time-boxed approval grants: minting guardrails, and the `approval_grants` table
 whose uses are consumed by a conditional counter.
 */
module Grants {
  import opened Options

  type Time = int
  type GrantId = string

  datatype Grant = Grant(
    id: GrantId,
    team: string,
    credential: string,
    methods: seq<string>,
    routeScope: seq<string>,
    expiresAt: Time,
    grantedBy: string,
    maxUses: Option<int>,
    uses: nat,
    revoked: bool,
    createdAt: Time)

  type Table = map<GrantId, Grant>
  type Credentials = set<(string, string)>

  /** Grants reference a (team, name) credential by a foreign key that cascades on delete. */
  datatype Db = Db(credentials: Credentials, grants: Table)

  datatype Step =
    | Create(grant: Grant)
    | Claim(id: GrantId, now: Time)
    | Revoke(team: string, id: GrantId)
    | AddCredential(team: string, name: string)
    | DeleteCredential(team: string, name: string)

  /** Not revoked, not expired, and with uses left. */
  predicate Live(g: Grant, now: Time) {
    !g.revoked && now < g.expiresAt && (g.maxUses.Some? ==> g.uses < g.maxUses.value)
  }

  predicate BelongsTo(g: Grant, team: string, name: string) {
    g.team == team && g.credential == name
  }

  /** Whether a grant statement changes a row: an insert that violates no key, or an update whose WHERE matches. */
  predicate Succeeds(db: Db, s: Step) {
    match s
    case Create(g) => g.id !in db.grants && (g.team, g.credential) in db.credentials
    case Claim(id, now) => id in db.grants && Live(db.grants[id], now)
    case Revoke(team, id) => id in db.grants && db.grants[id].team == team
    case _ => true
  }

  function Apply(db: Db, s: Step): Db {
    if !Succeeds(db, s) then db
    else match s
      case Create(g) => db.(grants := db.grants[g.id := g.(uses := 0, revoked := false)])
      case Claim(id, _) => db.(grants := db.grants[id := db.grants[id].(uses := db.grants[id].uses + 1)])
      case Revoke(_, id) => db.(grants := db.grants[id := db.grants[id].(revoked := true)])
      case AddCredential(team, name) => db.(credentials := db.credentials + {(team, name)})
      case DeleteCredential(team, name) =>
        Db(db.credentials - {(team, name)}, map id | id in db.grants && !BelongsTo(db.grants[id], team, name) :: db.grants[id])
  }

  function At(db: Db, steps: seq<Step>, k: nat): Db
    requires k <= |steps|
  {
    if k == 0 then db else Apply(At(db, steps, k - 1), steps[k - 1])
  }

  predicate Exists(db: Db, steps: seq<Step>, id: GrantId, k: nat)
    requires k <= |steps|
  {
    id in At(db, steps, k).grants
  }

  /** Every grant's credential exists, in every run. */
  ghost predicate KeysHold(db: Db) {
    forall id :: id in db.grants ==> (db.grants[id].team, db.grants[id].credential) in db.credentials
  }

  lemma {:induction false} KeysAlwaysHold(db: Db, steps: seq<Step>, k: nat)
    requires k <= |steps| && KeysHold(db)
    ensures KeysHold(At(db, steps, k))
  {
    if k > 0 {
      KeysAlwaysHold(db, steps, k - 1);
    }
  }

  predicate Wins(db: Db, steps: seq<Step>, id: GrantId, k: nat)
    requires k < |steps|
  {
    steps[k].Claim? && steps[k].id == id && Succeeds(At(db, steps, k), steps[k])
  }

  predicate Creates(db: Db, steps: seq<Step>, id: GrantId, k: nat)
    requires k < |steps|
  {
    steps[k].Create? && steps[k].grant.id == id && Succeeds(At(db, steps, k), steps[k])
  }

  /** How many of the first `k` statements are winning claims on `id` since it was last created. */
  function WinCount(db: Db, steps: seq<Step>, id: GrantId, k: nat): nat
    requires k <= |steps|
  {
    if k == 0 || Creates(db, steps, id, k - 1) then 0
    else WinCount(db, steps, id, k - 1) + if Wins(db, steps, id, k - 1) then 1 else 0
  }

  /** `uses` counts exactly the winning claims, and never passes the cap. */
  lemma {:induction false} UsesCountWins(db: Db, steps: seq<Step>, id: GrantId, k: nat)
    requires k <= |steps| && id !in db.grants
    ensures Exists(db, steps, id, k) ==>
              var g := At(db, steps, k).grants[id];
              && g.uses == WinCount(db, steps, id, k)
              && (g.maxUses.Some? && g.maxUses.value >= 0 ==> g.uses <= g.maxUses.value)
  {
    if k > 0 {
      UsesCountWins(db, steps, id, k - 1);
    }
  }

  /** The grant exists after every statement from the `i`-th to the `j`-th. */
  ghost predicate LivesFrom(db: Db, steps: seq<Step>, id: GrantId, i: nat, j: nat)
    requires i <= j <= |steps|
  {
    forall k :: i <= k <= j ==> Exists(db, steps, id, k)
  }

  /** `h` is `g` later on: the same terms, no fewer uses, and no revocation undone. */
  predicate SameTerms(g: Grant, h: Grant) {
    h.(uses := g.uses, revoked := g.revoked) == g && g.uses <= h.uses && (g.revoked ==> h.revoked)
  }

  lemma StepKeepsTerms(db: Db, s: Step, id: GrantId)
    requires id in db.grants && id in Apply(db, s).grants
    ensures SameTerms(db.grants[id], Apply(db, s).grants[id])
  {
  }

  /** A grant's terms never change while it exists; only `uses` and `revoked` move, one way. */
  lemma {:induction false} TermsAreFixed(db: Db, steps: seq<Step>, id: GrantId, i: nat, j: nat)
    requires i <= j <= |steps| && LivesFrom(db, steps, id, i, j)
    ensures Exists(db, steps, id, i) && Exists(db, steps, id, j)
    ensures var g, h := At(db, steps, i).grants[id], At(db, steps, j).grants[id];
            SameTerms(g, h)
    decreases j
  {
    hide Apply;
    if i < j {
      TermsAreFixed(db, steps, id, i, j - 1);
      assert Exists(db, steps, id, j);
      StepKeepsTerms(At(db, steps, j - 1), steps[j - 1], id);
    }
  }

  /** A grant disappears only with its credential. */
  lemma GoneOnlyWithItsCredential(db: Db, s: Step, id: GrantId)
    requires id in db.grants && id !in Apply(db, s).grants
    ensures s == DeleteCredential(db.grants[id].team, db.grants[id].credential)
  {
  }

  lemma {:induction false} StaysGone(db: Db, steps: seq<Step>, id: GrantId, i: nat, j: nat)
    requires i <= j <= |steps| && !Exists(db, steps, id, i)
    requires forall k :: i <= k < j && steps[k].Create? ==> steps[k].grant.id != id
    ensures !Exists(db, steps, id, j)
    decreases j
  {
    if i < j {
      StaysGone(db, steps, id, i, j - 1);
    }
  }

  /**
   Once a grant is dead for a claim at `now` (revoked, expired or used up), a claim at that
   time or later wins only if the grant was deleted and its id inserted again in between;
   ids are drawn at random, so without such an insert it never wins.
   */
  lemma DeadStaysDead(db: Db, steps: seq<Step>, id: GrantId, i: nat, j: nat, now: Time)
    requires i <= j < |steps| && Exists(db, steps, id, i) && !Live(At(db, steps, i).grants[id], now)
    requires Wins(db, steps, id, j) && now <= steps[j].now
    ensures exists k :: i < k < j && !Exists(db, steps, id, k)
    ensures exists k :: i <= k < j && steps[k].Create? && steps[k].grant.id == id
  {
    if LivesFrom(db, steps, id, i, j) {
      TermsAreFixed(db, steps, id, i, j);
      assert false;
    }
    var k :| i <= k <= j && !Exists(db, steps, id, k);
    if forall m :: k <= m < j && steps[m].Create? ==> steps[m].grant.id != id {
      StaysGone(db, steps, id, k, j);
    }
  }

  function LiveGrants(db: Db, team: string, credential: string, now: Time): set<GrantId> {
    set id | id in db.grants && BelongsTo(db.grants[id], team, credential) && Live(db.grants[id], now)
  }

  /** Candidates and claims agree: a credential's live grants are exactly those a claim would win now. */
  lemma LiveIffClaimWins(db: Db, team: string, credential: string, now: Time, id: GrantId)
    requires id in db.grants && BelongsTo(db.grants[id], team, credential)
    ensures id in LiveGrants(db, team, credential, now) <==> Succeeds(db, Claim(id, now))
    ensures id in LiveGrants(db, team, credential, now) <==> Apply(db, Claim(id, now)) != db
  {
    var after := Apply(db, Claim(id, now));
    assert Succeeds(db, Claim(id, now)) ==> after.grants[id].uses == db.grants[id].uses + 1;
  }

  // ------------------------------------------------------------------
  // Minting.
  // ------------------------------------------------------------------

  const GRANT_MAX_TTL_MINUTES := 24 * 60
  const GRANT_DEFAULT_TTL_MINUTES := 30
  const SECONDS_PER_MINUTE := 60

  datatype Refusal = EndUserCredential | PasskeyRequired | ScopeUnderivable | BadBounds | StoreError
  datatype Minting = Ok(grant: Grant) | Err(refusal: Refusal)

  /** The parts of a target URL that the URL parser yields; unparseable targets are None. */
  datatype Target = Target(host: string, path: string)

  function ScopeFromTarget(target: Option<Target>): Option<string> {
    match target
    case None => None
    case Some(Target(host, path)) =>
      if host == "" || '.' !in host then None
      else if path == "/" || path == "" then Some(host)
      else Some(host + path)
  }

  /** Which requests have a scope, and what it says: the host, and below the root its path. */
  lemma ScopeIs(target: Option<Target>)
    ensures ScopeFromTarget(target).Some? <==> target.Some? && target.value.host != "" && '.' in target.value.host
    ensures ScopeFromTarget(target).Some? ==>
              var t := target.value;
              ScopeFromTarget(target).value == if t.path == "" || t.path == "/" then t.host else t.host + t.path
  {
  }

  /** The live policy as read at minting time: an error, no policy, or its `require_passkey` flag. */
  datatype PolicyRead = ReadFailed | NoPolicy | Policy(requirePasskey: bool)

  /** The grant that minting would insert: none if a guardrail refuses it. */
  function GrantFor(id: GrantId, team: string, credential: string, verb: string, target: Option<Target>, grantedBy: string,
                    ttlMinutes: int, maxUses: Option<int>, policy: PolicyRead, now: Time): (r: Option<Grant>)
    ensures r.Some? ==> r.value.id == id && Live(r.value, now)
  {
    if "eu:" <= credential || !(1 <= ttlMinutes <= GRANT_MAX_TTL_MINUTES) || (maxUses.Some? && maxUses.value < 1)
       || policy == ReadFailed || policy == Policy(true) || ScopeFromTarget(target).None?
    then None
    else Some(Grant(id, team, credential, [verb], [ScopeFromTarget(target).value],
                    now + ttlMinutes * SECONDS_PER_MINUTE, grantedBy, maxUses, 0, false, now))
  }

  class GrantStore {
    var rows: Table
    var credentials: Credentials

    ghost function State(): Db
      reads this
    {
      Db(credentials, rows)
    }

    constructor ()
      ensures State() == Db({}, map[])
    {
      rows, credentials := map[], {};
    }

    /** The cascade deletes the credential's grants with it. */
    method RemoveCredential(team: string, name: string)
      modifies this
      ensures State() == Apply(old(State()), DeleteCredential(team, name))
      ensures credentials == old(credentials) - {(team, name)}
      ensures forall id :: id in rows <==> id in old(rows) && !(old(rows)[id].team == team && old(rows)[id].credential == name)
      ensures forall id :: id in rows ==> rows[id] == old(rows)[id]
    {
      credentials := credentials - {(team, name)};
      rows := map id | id in rows && !(rows[id].team == team && rows[id].credential == name) :: rows[id];
    }

    /** The insert stores zero uses and an unrevoked row; a taken id or an unknown credential is a store error. */
    method CreateApprovalGrant(grant: Grant) returns (ok: bool)
      modifies this`rows
      ensures ok == Succeeds(old(State()), Create(grant)) && State() == Apply(old(State()), Create(grant))
      ensures ok <==> grant.id !in old(rows) && (grant.team, grant.credential) in credentials
      ensures rows == if ok then old(rows)[grant.id := grant.(uses := 0, revoked := false)] else old(rows)
    {
      if grant.id in rows || (grant.team, grant.credential) !in credentials {
        return false;
      }
      rows := rows[grant.id := grant.(uses := 0, revoked := false)];
      return true;
    }

    method ClaimApprovalGrant(id: GrantId, now: Time) returns (claimed: bool)
      modifies this`rows
      ensures claimed == Succeeds(old(State()), Claim(id, now)) && State() == Apply(old(State()), Claim(id, now))
      ensures claimed <==>
                && id in old(rows) && !old(rows)[id].revoked && now < old(rows)[id].expiresAt
                && (old(rows)[id].maxUses.Some? ==> old(rows)[id].uses < old(rows)[id].maxUses.value)
      ensures rows == if claimed then old(rows)[id := old(rows)[id].(uses := old(rows)[id].uses + 1)] else old(rows)
    {
      if id !in rows {
        return false;
      }
      var g := rows[id];
      if g.revoked || g.expiresAt <= now {
        return false;
      }
      if g.maxUses.Some? && g.uses >= g.maxUses.value {
        return false;
      }
      rows := rows[id := g.(uses := g.uses + 1)];
      return true;
    }

    method RevokeApprovalGrant(team: string, id: GrantId) returns (revoked: bool)
      modifies this`rows
      ensures revoked == Succeeds(old(State()), Revoke(team, id)) && State() == Apply(old(State()), Revoke(team, id))
      ensures revoked <==> id in old(rows) && old(rows)[id].team == team
      ensures rows == if revoked then old(rows)[id := old(rows)[id].(revoked := true)] else old(rows)
    {
      if id in rows && rows[id].team == team {
        rows := rows[id := rows[id].(revoked := true)];
        return true;
      }
      return false;
    }

    /** The credential's live grants, which the proxy then tries in turn. */
    method LiveGrantsForCredential(team: string, credential: string, now: Time) returns (live: set<GrantId>)
      ensures live == LiveGrants(State(), team, credential, now)
      ensures forall id :: id in live <==>
                && id in rows && rows[id].team == team && rows[id].credential == credential
                && !rows[id].revoked && now < rows[id].expiresAt
                && (rows[id].maxUses.Some? ==> rows[id].uses < rows[id].maxUses.value)
    {
      live := set id | id in rows && rows[id].team == team && rows[id].credential == credential && !rows[id].revoked &&
                       rows[id].expiresAt > now && (rows[id].maxUses.None? || rows[id].uses < rows[id].maxUses.value);
    }

    /** A grant is minted exactly when every guardrail holds; a refusal stores nothing. */
    method CreateGrantForRequest(id: GrantId, team: string, credential: string, verb: string, target: Option<Target>,
                                 grantedBy: string, ttlMinutes: int, maxUses: Option<int>, policy: PolicyRead, now: Time)
      returns (minting: Minting)
      modifies this`rows
      ensures minting.Ok? <==>
                && !("eu:" <= credential)
                && 1 <= ttlMinutes <= 24 * 60
                && (maxUses.Some? ==> maxUses.value >= 1)
                && policy != ReadFailed && policy != Policy(true)
                && target.Some? && target.value.host != "" && '.' in target.value.host
                && id !in old(rows) && (team, credential) in credentials
      ensures minting.Err? ==> rows == old(rows)
      ensures var grant := GrantFor(id, team, credential, verb, target, grantedBy, ttlMinutes, maxUses, policy, now);
              && (minting.Ok? <==> grant.Some? && Succeeds(old(State()), Create(grant.value)))
              && (minting.Ok? ==> grant == Some(minting.grant) && State() == Apply(old(State()), Create(minting.grant)))
      ensures minting == Err(EndUserCredential) <==> "eu:" <= credential
      ensures minting == Err(PasskeyRequired) ==> policy == Policy(true)
      ensures minting == Err(ScopeUnderivable) ==> ScopeFromTarget(target).None?
      ensures minting == Err(BadBounds) ==>
                !(1 <= ttlMinutes <= GRANT_MAX_TTL_MINUTES) || (maxUses.Some? && maxUses.value < 1)
      ensures minting == Err(StoreError) ==> policy == ReadFailed || id in old(rows) || (team, credential) !in credentials
      ensures minting.Ok? ==>
                var g := minting.grant;
                && rows == old(rows)[id := g]
                && g.id == id && g.team == team && g.credential == credential && g.methods == [verb]
                && |g.routeScope| == 1 && ScopeFromTarget(target) == Some(g.routeScope[0])
                && g.expiresAt == now + ttlMinutes * SECONDS_PER_MINUTE && g.createdAt == now
                && g.grantedBy == grantedBy && g.maxUses == maxUses
                && Live(g, now) && g.uses == 0
    {
      if "eu:" <= credential {
        return Err(EndUserCredential);
      }
      if !(1 <= ttlMinutes <= GRANT_MAX_TTL_MINUTES) {
        return Err(BadBounds);
      }
      if maxUses.Some? && maxUses.value < 1 {
        return Err(BadBounds);
      }
      match policy {
        case Policy(true) => return Err(PasskeyRequired);
        case ReadFailed => return Err(StoreError);
        case _ =>
      }
      var scope := ScopeFromTarget(target);
      if scope.None? {
        return Err(ScopeUnderivable);
      }
      var grant := Grant(id, team, credential, [verb], [scope.value],
                         now + ttlMinutes * SECONDS_PER_MINUTE, grantedBy, maxUses, 0, false, now);
      var stored := CreateApprovalGrant(grant);
      return if stored then Ok(grant) else Err(StoreError);
    }
  }
}
