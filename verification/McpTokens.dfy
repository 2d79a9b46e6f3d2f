/**
 Durable token state of the remote MCP server: refresh-token families that rotate
 and can be revoked (section 6 of RFC 6749, section 4.14.2 of RFC 9700), and
 authorization codes that may be used once (section 4.1.2 of RFC 6749).
 */
module TokenFamilies {
  type Seconds = int
  type FamilyId = string
  type Jti = string

  datatype Family = Family(
    subject: string,
    team: string,
    agent: string,
    client: string,
    currentJti: Jti,
    revoked: bool,
    issuedAt: Seconds,
    expiresAt: Seconds,
    updatedAt: Seconds)

  type Table = map<FamilyId, Family>

  datatype Step =
    | Record(family: FamilyId, subject: string, team: string, agent: string, client: string, jti: Jti, now: Seconds, expiresAt: Seconds)
    | Rotate(family: FamilyId, presented: Jti, jti: Jti, now: Seconds)
    | Revoke(team: string, agent: string, now: Seconds)

  predicate Active(t: Table, f: FamilyId, now: Seconds) {
    f in t && !t[f].revoked && now < t[f].expiresAt
  }

  predicate Rotates(t: Table, s: Step) {
    s.Rotate? && Active(t, s.family, s.now) && t[s.family].currentJti == s.presented
  }

  predicate Records(t: Table, s: Step) {
    s.Record? && s.family !in t
  }

  predicate Hit(row: Family, team: string, agent: string) {
    row.team == team && row.agent == agent && !row.revoked
  }

  function Apply(t: Table, s: Step): Table {
    match s
    case Record(f, subject, team, agent, client, jti, now, expiresAt) =>
      if f in t then t else t[f := Family(subject, team, agent, client, jti, false, now, expiresAt, now)]
    case Rotate(f, _, jti, now) =>
      if Rotates(t, s) then t[f := t[f].(currentJti := jti, updatedAt := now)] else t
    case Revoke(team, agent, now) =>
      map f | f in t :: if Hit(t[f], team, agent) then t[f].(revoked := true, updatedAt := now) else t[f]
  }

  function At(t: Table, steps: seq<Step>, k: nat): Table
    requires k <= |steps|
  {
    if k == 0 then t else Apply(At(t, steps, k - 1), steps[k - 1])
  }

  predicate Wins(t: Table, steps: seq<Step>, f: FamilyId, k: nat)
    requires k < |steps|
  {
    Rotates(At(t, steps, k), steps[k]) && steps[k].family == f
  }

  /** The jtis the family has had: the recorded one, then what each winning rotation installed. */
  function Chain(t: Table, steps: seq<Step>, f: FamilyId, k: nat): seq<Jti>
    requires k <= |steps|
  {
    if k == 0 then []
    else
      var s := steps[k - 1];
      if (Records(At(t, steps, k - 1), s) && s.family == f) || Wins(t, steps, f, k - 1)
      then Chain(t, steps, f, k - 1) + [s.jti]
      else Chain(t, steps, f, k - 1)
  }

  /** The chain starts at the recorded jti and ends at `current_jti`; every winner presented its end. */
  lemma {:induction false} WinnersFormOneChain(t: Table, steps: seq<Step>, f: FamilyId, k: nat)
    requires k <= |steps| && f !in t
    ensures f in At(t, steps, k) <==> Chain(t, steps, f, k) != []
    ensures var c := Chain(t, steps, f, k); c != [] ==> At(t, steps, k)[f].currentJti == c[|c| - 1]
    ensures k < |steps| && Wins(t, steps, f, k) ==>
              var c := Chain(t, steps, f, k); c != [] && steps[k].presented == c[|c| - 1]
  {
    if k > 0 {
      WinnersFormOneChain(t, steps, f, k - 1);
    }
  }

  lemma {:induction false} ChainGrows(t: Table, steps: seq<Step>, f: FamilyId, i: nat, j: nat)
    requires i <= j <= |steps|
    ensures Chain(t, steps, f, i) <= Chain(t, steps, f, j)
    decreases j
  {
    if i < j {
      ChainGrows(t, steps, f, i, j - 1);
    }
  }

  /** Every jti that a statement may install is newly generated. */
  ghost predicate FreshJtis(steps: seq<Step>) {
    forall i, j :: 0 <= i < j < |steps| && !steps[i].Revoke? && !steps[j].Revoke? ==> steps[i].jti != steps[j].jti
  }

  lemma {:induction false} ChainIsDistinct(t: Table, steps: seq<Step>, f: FamilyId, k: nat)
    requires k <= |steps| && FreshJtis(steps)
    ensures var c := Chain(t, steps, f, k);
            && (forall j :: j in c ==> exists i :: 0 <= i < k && !steps[i].Revoke? && steps[i].jti == j)
            && (forall a, b :: 0 <= a < b < |c| ==> c[a] != c[b])
  {
    if k > 0 {
      ChainIsDistinct(t, steps, f, k - 1);
      assert !steps[k - 1].Revoke? ==> steps[k - 1].jti !in Chain(t, steps, f, k - 1);
    }
  }

  lemma ChainEnds(t: Table, steps: seq<Step>, f: FamilyId, i: nat, j: nat)
    requires i < j <= |steps| && Wins(t, steps, f, i)
    ensures |Chain(t, steps, f, i)| < |Chain(t, steps, f, j)| && Chain(t, steps, f, i) <= Chain(t, steps, f, j)
  {
    ChainGrows(t, steps, f, i + 1, j);
  }

  /** A refresh token wins at most one rotation, whichever instances it is presented to. */
  lemma JtiWinsOnce(t: Table, steps: seq<Step>, f: FamilyId, i: nat, j: nat)
    requires i < j < |steps| && f !in t && FreshJtis(steps)
    requires Wins(t, steps, f, i) && Wins(t, steps, f, j)
    ensures steps[i].presented != steps[j].presented
  {
    WinnersFormOneChain(t, steps, f, i);
    WinnersFormOneChain(t, steps, f, j);
    ChainEnds(t, steps, f, i, j);
    ChainIsDistinct(t, steps, f, j);
    hide Chain, Wins, At, FreshJtis;
    var a, b := Chain(t, steps, f, i), Chain(t, steps, f, j);
    assert b[|a| - 1] == a[|a| - 1];
  }

  /** A family's owner and expiry never change, and revocation is never undone. */
  lemma {:induction false} FamilyTermsAreFixed(t: Table, steps: seq<Step>, f: FamilyId, i: nat, j: nat)
    requires i <= j <= |steps| && f in At(t, steps, i)
    ensures f in At(t, steps, j)
    ensures var a, b := At(t, steps, i)[f], At(t, steps, j)[f];
            && b.(currentJti := a.currentJti, revoked := a.revoked, updatedAt := a.updatedAt) == a
            && (a.revoked ==> b.revoked)
    decreases j
  {
    if i < j {
      FamilyTermsAreFixed(t, steps, f, i, j - 1);
    }
  }

  /** Once a family is inactive at some time, it is inactive and wins nothing from then on. */
  lemma InactiveForGood(t: Table, steps: seq<Step>, f: FamilyId, i: nat, j: nat, now: Seconds, later: Seconds)
    requires i <= j <= |steps| && f in At(t, steps, i) && !Active(At(t, steps, i), f, now) && now <= later
    ensures !Active(At(t, steps, j), f, later)
    ensures j < |steps| && steps[j].Rotate? && steps[j].now == later ==> !Wins(t, steps, f, j)
  {
    FamilyTermsAreFixed(t, steps, f, i, j);
  }

  /** The `i`-th statement creates the family `f`. */
  predicate RecordsAt(t: Table, steps: seq<Step>, f: FamilyId, i: nat)
    requires i < |steps|
  {
    steps[i].Record? && steps[i].family == f && f !in At(t, steps, i)
  }

  /** A revocation of the recorded team's agent ran after the `i`-th and before the `j`-th statement. */
  predicate RevokedBetween(steps: seq<Step>, i: nat, j: nat)
    requires i < j <= |steps| && steps[i].Record?
  {
    exists k :: i < k < j && steps[k].Revoke? && steps[k].team == steps[i].team && steps[k].agent == steps[i].agent
  }

  /** What a recorded family's row says at every later moment. */
  lemma {:induction false} RecordedFamily(t: Table, steps: seq<Step>, f: FamilyId, i: nat, j: nat)
    requires i < j <= |steps| && RecordsAt(t, steps, f, i)
    ensures f in At(t, steps, j)
    ensures var row := At(t, steps, j)[f];
            && row.subject == steps[i].subject && row.team == steps[i].team && row.agent == steps[i].agent
            && row.client == steps[i].client && row.issuedAt == steps[i].now && row.expiresAt == steps[i].expiresAt
            && (row.revoked <==> RevokedBetween(steps, i, j))
    decreases j
  {
    if i < j - 1 {
      RecordedFamily(t, steps, f, i, j - 1);
      var s := steps[j - 1];
      if RevokedBetween(steps, i, j - 1) {
        var k :| i < k < j - 1 && steps[k].Revoke? && steps[k].team == steps[i].team && steps[k].agent == steps[i].agent;
        assert RevokedBetween(steps, i, j);
      } else if s.Revoke? && s.team == steps[i].team && s.agent == steps[i].agent {
        assert RevokedBetween(steps, i, j);
      }
    }
  }

  /** A recorded family is active exactly until its recorded expiry, unless its agent was revoked since. */
  lemma ActiveIffUnexpiredAndUnrevoked(t: Table, steps: seq<Step>, f: FamilyId, i: nat, j: nat, now: Seconds)
    requires i < j <= |steps| && RecordsAt(t, steps, f, i)
    ensures Active(At(t, steps, j), f, now) <==> now < steps[i].expiresAt && !RevokedBetween(steps, i, j)
  {
    RecordedFamily(t, steps, f, i, j);
  }

  /**
   Exactly when a rotation wins: the presented jti is the end of the family's chain, the time is before the recorded
   expiry, and the agent was not revoked since the family was recorded.
   */
  lemma RotationWinsIff(t: Table, steps: seq<Step>, f: FamilyId, i: nat, j: nat)
    requires i < j < |steps| && f !in t && RecordsAt(t, steps, f, i) && steps[j].Rotate? && steps[j].family == f
    ensures Chain(t, steps, f, j) != []
    ensures Wins(t, steps, f, j) <==>
              var chain := Chain(t, steps, f, j);
              && steps[j].presented == chain[|chain| - 1]
              && steps[j].now < steps[i].expiresAt && !RevokedBetween(steps, i, j)
  {
    RecordedFamily(t, steps, f, i, j);
    WinnersFormOneChain(t, steps, f, j);
  }

  /** Revoking a connection makes every family of that agent inactive at once, and leaves others alone. */
  lemma RevokeHitsTheAgent(t: Table, team: string, agent: string, at: Seconds, f: FamilyId, now: Seconds)
    requires f in t
    ensures Active(Apply(t, Revoke(team, agent, at)), f, now) <==> Active(t, f, now) && !(t[f].team == team && t[f].agent == agent)
  {
  }

  class TokenFamilyStore {
    var rows: Table

    constructor ()
      ensures rows == map[]
    {
      rows := map[];
    }

    method RecordFamily(f: FamilyId, subject: string, team: string, agent: string, client: string, jti: Jti, now: Seconds,
                        expiresAt: Seconds) returns (ok: bool)
      modifies this
      ensures var s := Record(f, subject, team, agent, client, jti, now, expiresAt);
              ok == Records(old(rows), s) && rows == Apply(old(rows), s)
      ensures ok <==> f !in old(rows)
      ensures rows == if ok then old(rows)[f := Family(subject, team, agent, client, jti, false, now, expiresAt, now)] else old(rows)
    {
      if f in rows {
        return false;
      }
      rows := rows[f := Family(subject, team, agent, client, jti, false, now, expiresAt, now)];
      return true;
    }

    method RotateFamily(f: FamilyId, oldJti: Jti, newJti: Jti, now: Seconds) returns (rotated: bool)
      modifies this
      ensures rotated == Rotates(old(rows), Rotate(f, oldJti, newJti, now))
      ensures rows == Apply(old(rows), Rotate(f, oldJti, newJti, now))
      ensures rotated <==>
                f in old(rows) && old(rows)[f].currentJti == oldJti && !old(rows)[f].revoked && now < old(rows)[f].expiresAt
      ensures rows == if rotated then old(rows)[f := old(rows)[f].(currentJti := newJti, updatedAt := now)] else old(rows)
    {
      if f !in rows {
        return false;
      }
      var row := rows[f];
      if row.currentJti != oldJti || row.revoked || row.expiresAt <= now {
        return false;
      }
      rows := rows[f := row.(currentJti := newJti, updatedAt := now)];
      return true;
    }

    /** Whether an access token of the family is honoured. */
    method FamilyIsActive(f: FamilyId, now: Seconds) returns (active: bool)
      ensures active == Active(rows, f, now)
      ensures active <==> f in rows && !rows[f].revoked && now < rows[f].expiresAt
    {
      return f in rows && !rows[f].revoked && rows[f].expiresAt > now;
    }

    method RevokeFamiliesForAgent(team: string, agent: string, now: Seconds) returns (revoked: nat)
      modifies this
      ensures rows == Apply(old(rows), Revoke(team, agent, now))
      ensures revoked == |set f | f in old(rows) && Hit(old(rows)[f], team, agent)|
      ensures rows.Keys == old(rows).Keys
      ensures forall f :: f in rows ==>
                var was := old(rows)[f];
                rows[f] == if was.team == team && was.agent == agent && !was.revoked
                           then was.(revoked := true, updatedAt := now) else was
    {
      var hits := set f | f in rows && rows[f].team == team && rows[f].agent == agent && !rows[f].revoked;
      assert hits == set f | f in rows && Hit(rows[f], team, agent);
      revoked := |hits|;
      rows := map f | f in rows :: if f in hits then rows[f].(revoked := true, updatedAt := now) else rows[f];
    }
  }
}

module ConsumedCodes {
  type Seconds = int
  type Jti = string

  datatype Use = Use(expiresAt: Seconds, consumedAt: Seconds)
  type Table = map<Jti, Use>

  /** One consumption is an insert followed, some time later or never, by a prune with the same `now`. */
  datatype Step = Insert(jti: Jti, expiresAt: Seconds, now: Seconds) | Prune(now: Seconds)

  function Apply(t: Table, s: Step): Table {
    match s
    case Insert(jti, expiresAt, now) => if jti in t then t else t[jti := Use(expiresAt, now)]
    case Prune(now) => map jti | jti in t && now <= t[jti].expiresAt :: t[jti]
  }

  function At(t: Table, steps: seq<Step>, k: nat): Table
    requires k <= |steps|
  {
    if k == 0 then t else Apply(At(t, steps, k - 1), steps[k - 1])
  }

  /** The consumption whose insert is the `k`-th statement returns true. */
  predicate Consumes(t: Table, steps: seq<Step>, jti: Jti, k: nat)
    requires k < |steps|
  {
    steps[k].Insert? && steps[k].jti == jti && jti !in At(t, steps, k)
  }

  /** Inserts run in clock order, and no prune that ran before an insert lies in its future. */
  ghost predicate ClockOrder(steps: seq<Step>) {
    forall i, j :: 0 <= i < j < |steps| && steps[j].Insert? ==> steps[i].now <= steps[j].now
  }

  /** All exchanges of one code carry that code's expiry. */
  ghost predicate OneExpiry(steps: seq<Step>, jti: Jti, expiresAt: Seconds) {
    forall k :: 0 <= k < |steps| && steps[k].Insert? && steps[k].jti == jti ==> steps[k].expiresAt == expiresAt
  }

  /** A consumed code stays on record until a prune later than its expiry. */
  lemma {:induction false} RecordedUntilExpiry(t: Table, steps: seq<Step>, jti: Jti, expiresAt: Seconds, i: nat, j: nat)
    requires i < j <= |steps| && Consumes(t, steps, jti, i) && OneExpiry(steps, jti, expiresAt)
    requires forall k :: i < k < j && steps[k].Prune? ==> steps[k].now <= expiresAt
    ensures jti in At(t, steps, j) && At(t, steps, j)[jti].expiresAt == expiresAt
    decreases j
  {
    if i < j - 1 {
      RecordedUntilExpiry(t, steps, jti, expiresAt, i, j - 1);
    }
  }

  /** A code is consumed at most once no later than its expiry, although every call prunes. */
  lemma CodeIsSingleUse(t: Table, steps: seq<Step>, jti: Jti, expiresAt: Seconds, i: nat, j: nat)
    requires i < j < |steps| && ClockOrder(steps) && OneExpiry(steps, jti, expiresAt)
    requires Consumes(t, steps, jti, i) && Consumes(t, steps, jti, j)
    ensures expiresAt < steps[j].now
    ensures exists k :: i < k < j && steps[k].Prune? && expiresAt < steps[k].now
  {
    if forall k :: i < k < j && steps[k].Prune? ==> steps[k].now <= expiresAt {
      RecordedUntilExpiry(t, steps, jti, expiresAt, i, j);
    }
  }

  /** Some prune past the expiry ran in between, and the code was not inserted again after it. */
  ghost predicate PrunedBetween(steps: seq<Step>, jti: Jti, expiresAt: Seconds, i: nat, j: nat)
    requires j <= |steps|
  {
    exists k :: i < k < j && steps[k].Prune? && expiresAt < steps[k].now &&
      forall m :: k < m < j && steps[m].Insert? ==> steps[m].jti != jti
  }

  lemma {:induction false} OffRecordIffPruned(t: Table, steps: seq<Step>, jti: Jti, expiresAt: Seconds, i: nat, j: nat)
    requires i < j <= |steps| && Consumes(t, steps, jti, i) && OneExpiry(steps, jti, expiresAt)
    ensures jti !in At(t, steps, j) <==> PrunedBetween(steps, jti, expiresAt, i, j)
    ensures jti in At(t, steps, j) ==> At(t, steps, j)[jti].expiresAt == expiresAt
    decreases j
  {
    if i < j - 1 {
      OffRecordIffPruned(t, steps, jti, expiresAt, i, j - 1);
      var s := steps[j - 1];
      if s.Insert? && s.jti == jti {
        assert !PrunedBetween(steps, jti, expiresAt, i, j);
      } else if s.Prune? && expiresAt < s.now {
        assert PrunedBetween(steps, jti, expiresAt, i, j);
      } else if PrunedBetween(steps, jti, expiresAt, i, j - 1) {
        var k :| i < k < j - 1 && steps[k].Prune? && expiresAt < steps[k].now &&
          forall m :: k < m < j - 1 && steps[m].Insert? ==> steps[m].jti != jti;
        assert PrunedBetween(steps, jti, expiresAt, i, j);
      }
    }
  }

  /**
   Exactly when a consumed code is accepted again: a prune past its expiry ran since, and no
   exchange of the code ran after that prune. Expiry itself is the caller's check.
   */
  lemma ConsumedAgainIffPruned(t: Table, steps: seq<Step>, jti: Jti, expiresAt: Seconds, i: nat, j: nat)
    requires i < j < |steps| && Consumes(t, steps, jti, i) && OneExpiry(steps, jti, expiresAt)
    requires steps[j].Insert? && steps[j].jti == jti
    ensures Consumes(t, steps, jti, j) <==> PrunedBetween(steps, jti, expiresAt, i, j)
    ensures (forall m :: i < m < j && steps[m].Insert? ==> steps[m].jti != jti) ==>
              (Consumes(t, steps, jti, j) <==> exists k :: i < k < j && steps[k].Prune? && expiresAt < steps[k].now)
  {
    OffRecordIffPruned(t, steps, jti, expiresAt, i, j);
  }

  /** A recorded code outlives every prune no later than its expiry. */
  lemma {:induction false} KeptByEarlyPrunes(t: Table, steps: seq<Step>, jti: Jti, k: nat)
    requires k <= |steps| && jti in t
    requires forall i :: 0 <= i < k && steps[i].Prune? ==> steps[i].now <= t[jti].expiresAt
    ensures jti in At(t, steps, k) && At(t, steps, k)[jti] == t[jti]
  {
    if k > 0 {
      KeptByEarlyPrunes(t, steps, jti, k - 1);
    }
  }

  class ConsumedCodeStore {
    var rows: Table

    constructor ()
      ensures rows == map[]
    {
      rows := map[];
    }

    /** Insert, then a best-effort prune that may fail; `between` is what other instances run in the gap. */
    method ConsumeCode(jti: Jti, expiresAt: Seconds, now: Seconds, between: seq<Step>, pruneOk: bool) returns (consumed: bool)
      modifies this
      ensures consumed == (jti !in old(rows))
      ensures between == [] ==>
                var inserted := if jti in old(rows) then old(rows) else old(rows)[jti := Use(expiresAt, now)];
                rows == if pruneOk then map c | c in inserted && now <= inserted[c].expiresAt :: inserted[c] else inserted
      ensures var inserted := Apply(old(rows), Insert(jti, expiresAt, now));
              var later := At(inserted, between, |between|);
              rows == if pruneOk then Apply(later, Prune(now)) else later
      ensures consumed && now <= expiresAt && (forall i :: 0 <= i < |between| && between[i].Prune? ==> between[i].now <= expiresAt)
              ==> jti in rows
    {
      consumed := jti !in rows;
      if consumed {
        rows := rows[jti := Use(expiresAt, now)];
        if forall i :: 0 <= i < |between| && between[i].Prune? ==> between[i].now <= expiresAt {
          KeptByEarlyPrunes(rows, between, jti, |between|);
        }
      }
      rows := At(rows, between, |between|);
      if pruneOk {
        var stale := set c | c in rows && rows[c].expiresAt < now;
        rows := rows - stale;
      }
    }
  }
}
