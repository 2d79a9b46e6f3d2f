/**
 The device authorization flow of `tap login` (section 3.5 of RFC 8628): the CLI
 creates a code, a signed-in human approves it by its user code, and the CLI claims
 the approved code once. Creating a code first prunes expired rows.
 */
module DeviceLogin {
  import opened Options

  type Time = int
  type CodeHash = string

  datatype Identity = Identity(user: string, team: string)
  datatype Status = Pending | Approved | Claimed | Denied
  datatype Row = Row(userCode: string, status: Status, bound: Option<Identity>, expiresAt: Time, createdAt: Time)
  type Table = map<CodeHash, Row>

  datatype Step =
    | Prune(now: Time)
    | Create(hash: CodeHash, userCode: string, expiresAt: Time, now: Time)
    | Approve(userCode: string, approver: Identity, now: Time)
    | Claim(hash: CodeHash, now: Time)

  predicate Approvable(row: Row, s: Step)
    requires s.Approve?
  {
    row.userCode == s.userCode && row.status == Pending && s.now < row.expiresAt
  }

  predicate Claimable(row: Row, now: Time) {
    row.status == Approved && now < row.expiresAt
  }

  /** Both the code hash and the user code are unique columns. */
  predicate Creatable(t: Table, s: Step)
    requires s.Create?
  {
    s.hash !in t && forall h :: h in t ==> t[h].userCode != s.userCode
  }

  function Apply(t: Table, s: Step): Table {
    match s
    case Prune(now) => map h | h in t && now <= t[h].expiresAt :: t[h]
    case Create(hash, userCode, expiresAt, now) =>
      if Creatable(t, s) then t[hash := Row(userCode, Pending, None, expiresAt, now)] else t
    case Approve(_, approver, _) =>
      map h | h in t :: if Approvable(t[h], s) then t[h].(status := Approved, bound := Some(approver)) else t[h]
    case Claim(hash, now) =>
      if hash in t && Claimable(t[hash], now) then t[hash := t[hash].(status := Claimed)] else t
  }

  function At(t: Table, steps: seq<Step>, k: nat): Table
    requires k <= |steps|
  {
    if k == 0 then t else Apply(At(t, steps, k - 1), steps[k - 1])
  }

  ghost predicate UniqueUserCodes(t: Table) {
    forall g, h :: g in t && h in t && t[g].userCode == t[h].userCode ==> g == h
  }

  lemma {:induction false} UserCodesStayUnique(t: Table, steps: seq<Step>, k: nat)
    requires k <= |steps| && UniqueUserCodes(t)
    ensures UniqueUserCodes(At(t, steps, k))
  {
    if k > 0 {
      UserCodesStayUnique(t, steps, k - 1);
    }
  }

  /** The `k`-th statement approves the device whose code hash is `h`. */
  predicate Approves(t: Table, steps: seq<Step>, h: CodeHash, k: nat)
    requires k < |steps|
  {
    steps[k].Approve? && h in At(t, steps, k) && Approvable(At(t, steps, k)[h], steps[k])
  }

  /** The `k`-th statement is a claim of `h` that returns the bound identity. */
  predicate ClaimWins(t: Table, steps: seq<Step>, h: CodeHash, k: nat)
    requires k < |steps|
  {
    steps[k].Claim? && steps[k].hash == h && h in At(t, steps, k) && Claimable(At(t, steps, k)[h], steps[k].now)
  }

  /** An approval reaches one device only: user codes never collide. */
  lemma ApprovalReachesOneDevice(t: Table, steps: seq<Step>, g: CodeHash, h: CodeHash, k: nat)
    requires k < |steps| && UniqueUserCodes(t) && Approves(t, steps, g, k) && Approves(t, steps, h, k)
    ensures g == h
  {
    UserCodesStayUnique(t, steps, k);
  }

  // ------------------------------------------------------------------
  // Per device code: at most one approval, then at most one claim of it.
  // ------------------------------------------------------------------

  /** The identities bound to `h` by the first `k` statements, in order. */
  function Approvals(t: Table, steps: seq<Step>, h: CodeHash, k: nat): seq<Identity>
    requires k <= |steps|
  {
    if k == 0 then []
    else Approvals(t, steps, h, k - 1) + if Approves(t, steps, h, k - 1) then [steps[k - 1].approver] else []
  }

  /** The identities returned by winning claims of `h` among the first `k` statements. */
  function Claims(t: Table, steps: seq<Step>, h: CodeHash, k: nat): seq<Option<Identity>>
    requires k <= |steps|
  {
    if k == 0 then []
    else Claims(t, steps, h, k - 1) + if ClaimWins(t, steps, h, k - 1) then [At(t, steps, k - 1)[h].bound] else []
  }

  /** Device codes are random: no two create statements share a hash. */
  ghost predicate FreshCode(steps: seq<Step>, h: CodeHash) {
    forall i, j :: 0 <= i < j < |steps| && steps[i].Create? && steps[j].Create? ==> !(steps[i].hash == h == steps[j].hash)
  }

  /** Some of the first `k` statements tried to create `h`. */
  predicate CreatedBefore(steps: seq<Step>, h: CodeHash, k: nat)
    requires k <= |steps|
  {
    k > 0 && (CreatedBefore(steps, h, k - 1) || (steps[k - 1].Create? && steps[k - 1].hash == h))
  }

  lemma {:induction false} NotCreatedBefore(steps: seq<Step>, h: CodeHash, i: nat, k: nat)
    requires i <= k < |steps| && FreshCode(steps, h) && steps[k].Create? && steps[k].hash == h
    ensures !CreatedBefore(steps, h, i)
  {
    if i > 0 {
      NotCreatedBefore(steps, h, i - 1, k);
    }
  }

  /** The history that a row's status, or its absence, stands for. */
  predicate Tells(created: bool, t: Table, h: CodeHash, a: seq<Identity>, c: seq<Option<Identity>>) {
    && (!created ==> h !in t && a == [] && c == [])
    && |a| <= 1
    && (if h !in t then c == [] || (|a| == 1 && c == [Some(a[0])])
        else if t[h].status == Pending then a == [] && c == []
        else
          && t[h].status != Denied && |a| == 1 && t[h].bound == Some(a[0])
          && c == if t[h].status == Claimed then [Some(a[0])] else [])
  }

  lemma TellsStep(created: bool, t: Table, s: Step, h: CodeHash, a: seq<Identity>, c: seq<Option<Identity>>)
    requires Tells(created, t, h, a, c)
    requires s.Create? && s.hash == h ==> !created
    ensures Tells(created || (s.Create? && s.hash == h), Apply(t, s), h,
                  a + (if s.Approve? && h in t && Approvable(t[h], s) then [s.approver] else []),
                  c + (if s.Claim? && s.hash == h && h in t && Claimable(t[h], s.now) then [t[h].bound] else []))
  {
  }

  lemma {:induction false} HistoryOverRun(t: Table, steps: seq<Step>, h: CodeHash, k: nat)
    requires k <= |steps| && h !in t && FreshCode(steps, h)
    ensures Tells(CreatedBefore(steps, h, k), At(t, steps, k), h, Approvals(t, steps, h, k), Claims(t, steps, h, k))
  {
    if k > 0 {
      HistoryOverRun(t, steps, h, k - 1);
      if steps[k - 1].Create? && steps[k - 1].hash == h {
        NotCreatedBefore(steps, h, k - 1, k - 1);
      }
      TellsStep(CreatedBefore(steps, h, k - 1), At(t, steps, k - 1), steps[k - 1], h,
                Approvals(t, steps, h, k - 1), Claims(t, steps, h, k - 1));
    }
  }

  /** At most one claim of a device code wins, and at most one approval binds it. */
  lemma CodeIsClaimedOnce(t: Table, steps: seq<Step>, h: CodeHash, k: nat)
    requires k <= |steps| && h !in t && FreshCode(steps, h)
    ensures |Approvals(t, steps, h, k)| <= 1 && |Claims(t, steps, h, k)| <= 1
    ensures Claims(t, steps, h, k) != [] ==>
              |Approvals(t, steps, h, k)| == 1 && Claims(t, steps, h, k) == [Some(Approvals(t, steps, h, k)[0])]
  {
    HistoryOverRun(t, steps, h, k);
  }

  lemma {:induction false} FindApproval(t: Table, steps: seq<Step>, h: CodeHash, k: nat) returns (i: nat)
    requires k <= |steps| && |Approvals(t, steps, h, k)| == 1
    ensures i < k && Approves(t, steps, h, i) && Approvals(t, steps, h, k) == [steps[i].approver]
  {
    if Approves(t, steps, h, k - 1) {
      i := k - 1;
    } else {
      i := FindApproval(t, steps, h, k - 1);
    }
  }

  /** A winning claim returns the identity of an earlier approval made before the code expired. */
  lemma ClaimReturnsApprover(t: Table, steps: seq<Step>, h: CodeHash, k: nat) returns (i: nat)
    requires k < |steps| && h !in t && FreshCode(steps, h) && ClaimWins(t, steps, h, k)
    ensures i < k && Approves(t, steps, h, i) && At(t, steps, k)[h].bound == Some(steps[i].approver)
    ensures steps[i].now < At(t, steps, i)[h].expiresAt
  {
    HistoryOverRun(t, steps, h, k);
    i := FindApproval(t, steps, h, k);
  }

  // ------------------------------------------------------------------
  // When a claim is granted.
  // ------------------------------------------------------------------

  /** The `c`-th statement creates the device code `h`. */
  predicate CreatesAt(t: Table, steps: seq<Step>, h: CodeHash, c: nat)
    requires c < |steps|
  {
    steps[c].Create? && steps[c].hash == h && h !in At(t, steps, c) && h in At(t, steps, c + 1)
  }

  /** A prune past the code's expiry ran after the `c`-th and before the `k`-th statement. */
  predicate PrunedBetween(steps: seq<Step>, expiresAt: Time, c: nat, k: nat)
    requires k <= |steps|
  {
    exists p :: c < p < k && steps[p].Prune? && expiresAt < steps[p].now
  }

  /** A created code is in the table until a prune past its expiry, with the user code and expiry it was created with. */
  lemma {:induction false} CreatedCode(t: Table, steps: seq<Step>, h: CodeHash, c: nat, k: nat)
    requires c < k <= |steps| && CreatesAt(t, steps, h, c) && FreshCode(steps, h)
    ensures h in At(t, steps, k) <==> !PrunedBetween(steps, steps[c].expiresAt, c, k)
    ensures h in At(t, steps, k) ==>
              At(t, steps, k)[h].userCode == steps[c].userCode && At(t, steps, k)[h].expiresAt == steps[c].expiresAt
    decreases k
  {
    if c < k - 1 {
      CreatedCode(t, steps, h, c, k - 1);
      var s := steps[k - 1];
      assert !(s.Create? && s.hash == h);
      if PrunedBetween(steps, steps[c].expiresAt, c, k - 1) {
        var p :| c < p < k - 1 && steps[p].Prune? && steps[c].expiresAt < steps[p].now;
        assert PrunedBetween(steps, steps[c].expiresAt, c, k);
      } else if s.Prune? && steps[c].expiresAt < s.now {
        assert PrunedBetween(steps, steps[c].expiresAt, c, k);
      }
    }
  }

  /** What a code's row says about its history, while it is there. */
  lemma StatusTells(t: Table, steps: seq<Step>, h: CodeHash, k: nat)
    requires k <= |steps| && h !in t && FreshCode(steps, h) && h in At(t, steps, k)
    ensures var row, a, c := At(t, steps, k)[h], Approvals(t, steps, h, k), Claims(t, steps, h, k);
            && (row.status == Approved <==> |a| == 1 && c == []) && (row.status == Approved ==> row.bound == Some(a[0]))
  {
    HistoryOverRun(t, steps, h, k);
  }

  /**
   Exactly when a claim is granted: the code was approved and not yet claimed, the claim comes before the expiry the
   code was created with, and no prune past that expiry ran in between; it is then granted the approver's identity.
   */
  lemma ClaimIsGrantedIff(t: Table, steps: seq<Step>, h: CodeHash, c: nat, k: nat)
    requires c < k < |steps| && h !in t && FreshCode(steps, h) && CreatesAt(t, steps, h, c)
    requires steps[k].Claim? && steps[k].hash == h
    ensures ClaimWins(t, steps, h, k) <==>
              && |Approvals(t, steps, h, k)| == 1 && Claims(t, steps, h, k) == []
              && steps[k].now < steps[c].expiresAt && !PrunedBetween(steps, steps[c].expiresAt, c, k)
    ensures ClaimWins(t, steps, h, k) ==> At(t, steps, k)[h].bound == Some(Approvals(t, steps, h, k)[0])
  {
    CreatedCode(t, steps, h, c, k);
    if h in At(t, steps, k) {
      StatusTells(t, steps, h, k);
    }
  }

  /** Exactly when an approval binds the code: by its user code, before its expiry, and only once. */
  lemma ApprovalBindsIff(t: Table, steps: seq<Step>, h: CodeHash, c: nat, k: nat)
    requires c < k < |steps| && h !in t && FreshCode(steps, h) && CreatesAt(t, steps, h, c) && steps[k].Approve?
    ensures Approves(t, steps, h, k) <==>
              && steps[k].userCode == steps[c].userCode && steps[k].now < steps[c].expiresAt
              && Approvals(t, steps, h, k) == [] && !PrunedBetween(steps, steps[c].expiresAt, c, k)
  {
    CreatedCode(t, steps, h, c, k);
    HistoryOverRun(t, steps, h, k);
  }

  /** The claim's second statement explains a miss. */
  datatype DeviceClaim = Granted(identity: Option<Identity>) | StillPending | WasDenied | ExpiredOrUnknown

  class DeviceStore {
    var rows: Table

    constructor ()
      ensures rows == map[]
    {
      rows := map[];
    }

    /** A best-effort prune that may fail, then the insert; `between` is what other instances run in the gap. */
    method CreateDeviceAuthorization(hash: CodeHash, userCode: string, expiresAt: Time, now: Time, pruneOk: bool,
                                     between: seq<Step>)
      returns (ok: bool)
      modifies this
      ensures var pruned := if pruneOk then Apply(old(rows), Prune(now)) else old(rows);
              var found := At(pruned, between, |between|);
              && rows == Apply(found, Create(hash, userCode, expiresAt, now))
              && ok == Creatable(found, Create(hash, userCode, expiresAt, now))
              && (ok <==> hash !in found && forall h :: h in found ==> found[h].userCode != userCode)
              && rows == if ok then found[hash := Row(userCode, Pending, None, expiresAt, now)] else found
      ensures pruneOk && between == [] && ok ==>
                forall h :: h in rows && h != hash <==> h in old(rows) && now <= old(rows)[h].expiresAt
    {
      if pruneOk {
        var stale := set h | h in rows && rows[h].expiresAt < now;
        rows := rows - stale;
        assert rows == Apply(old(rows), Prune(now));
      }
      rows := At(rows, between, |between|);
      if hash in rows || exists h :: h in rows && rows[h].userCode == userCode {
        return false;
      }
      rows := rows[hash := Row(userCode, Pending, None, expiresAt, now)];
      return true;
    }

    method ApproveDeviceAuthorization(userCode: string, approver: Identity, now: Time) returns (approved: bool)
      modifies this
      ensures rows == Apply(old(rows), Approve(userCode, approver, now))
      ensures approved <==>
                exists h :: h in old(rows) && old(rows)[h].userCode == userCode && old(rows)[h].status == Pending && now < old(rows)[h].expiresAt
      ensures rows.Keys == old(rows).Keys
      ensures forall h :: h in rows ==>
                var was := old(rows)[h];
                rows[h] == if was.userCode == userCode && was.status == Pending && now < was.expiresAt
                           then was.(status := Approved, bound := Some(approver)) else was
    {
      var hits := set h | h in rows && rows[h].userCode == userCode && rows[h].status == Pending && now < rows[h].expiresAt;
      approved := hits != {};
      assert forall h :: h in hits <==> h in rows && Approvable(rows[h], Approve(userCode, approver, now));
      rows := map h | h in rows :: if h in hits then rows[h].(status := Approved, bound := Some(approver)) else rows[h];
    }

    /** The UPDATE, then a SELECT; `between` is what other instances run in the gap. */
    method ClaimDeviceAuthorization(hash: CodeHash, now: Time, between: seq<Step>) returns (outcome: DeviceClaim)
      modifies this
      ensures outcome.Granted? <==> hash in old(rows) && old(rows)[hash].status == Approved && now < old(rows)[hash].expiresAt
      ensures outcome.Granted? ==>
                && rows == Apply(old(rows), Claim(hash, now)) == old(rows)[hash := old(rows)[hash].(status := Claimed)]
                && outcome.identity == old(rows)[hash].bound
      ensures !outcome.Granted? ==> rows == At(old(rows), between, |between|)
      ensures outcome == StillPending ==> hash in rows && rows[hash].status == Pending && now < rows[hash].expiresAt
      ensures outcome == WasDenied ==> hash in rows && rows[hash].status == Denied && now < rows[hash].expiresAt
      ensures outcome == ExpiredOrUnknown ==>
                hash in rows && now < rows[hash].expiresAt ==> rows[hash].status == Approved || rows[hash].status == Claimed
    {
      if hash in rows && rows[hash].status == Approved && now < rows[hash].expiresAt {
        var row := rows[hash];
        rows := rows[hash := row.(status := Claimed)];
        return Granted(row.bound);
      }
      rows := At(rows, between, |between|);
      if hash !in rows || rows[hash].expiresAt <= now {
        return ExpiredOrUnknown;
      }
      match rows[hash].status {
        case Pending => return StillPending;
        case Denied => return WasDenied;
        case _ => return ExpiredOrUnknown;
      }
    }
  }
}
