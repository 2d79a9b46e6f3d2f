/**
 The `pending_approvals` table as a step system. Each SQL statement that any
 instance may issue is one `Step`, executed atomically; a run is any sequence of
 steps, so quantifying over runs quantifies over all interleavings of all
 instances. Times are integers: the stored timestamp texts compare like instants
 (module Timestamps).
 */
module Approvals {
  import opened Options

  type TxnId = string
  type Time = int

  datatype Status = Pending | Approved | Denied | Expired

  datatype TelegramMessage = TelegramMessage(chatId: string, messageId: int)
  datatype MatrixMessage = MatrixMessage(roomId: string, eventId: string, allowedApproversJson: string)

  datatype Row = Row(
    details: string,
    status: Status,
    resolvedBy: Option<string>,
    createdAt: Time,
    expiresAt: Time,
    team: Option<string>,
    requiredEndUser: Option<string>,
    telegram: Option<TelegramMessage>,
    matrix: Option<MatrixMessage>,
    challenge: Option<string>,
    approvalCount: nat,
    minApprovals: nat)

  type Table = map<TxnId, Row>

  /** Lifetime of a row that is inserted by anything but a save: 20 minutes, in seconds. */
  const FALLBACK_TTL := 20 * 60

  datatype Step =
    | Save(txn: TxnId, details: string, expiresAt: Time, team: Option<string>, endUser: Option<string>, now: Time)
    | Resolve(txn: TxnId, status: Status, resolver: Option<string>, now: Time)
    | ClaimForGrant(txn: TxnId, resolver: Option<string>)
    | ResolveAsEndUser(txn: TxnId, status: Status, extId: string, resolver: Option<string>)
    | Delete(txn: TxnId)
    | SetChallenge(txn: TxnId, challenge: string, now: Time)
    | TakeChallenge(txn: TxnId, now: Time)
    | SetTelegram(txn: TxnId, message: TelegramMessage, now: Time)
    | SetMatrix(txn: TxnId, room: MatrixMessage, min: nat, now: Time)
    | IncrementCount(txn: TxnId)
    | Cleanup(now: Time)

  /** The row an upsert inserts when the transaction has none: column defaults, '{}' details. */
  function NewRow(status: Status, now: Time): Row {
    Row("{}", status, None, now, now + FALLBACK_TTL, None, None, None, None, None, 0, 1)
  }

  predicate Purgeable(row: Row, now: Time) {
    row.expiresAt < now && row.status != Pending
  }

  /** The statements' WHERE clauses, evaluated against an existing row. */
  predicate Matches(row: Row, s: Step) {
    match s
    case Resolve(_, status, _, _) =>
      && (row.status == Pending || row.status == status)
      && (status != Approved || row.requiredEndUser.None?)
    case ClaimForGrant(_, _) => row.status == Pending && row.requiredEndUser.None?
    case ResolveAsEndUser(_, _, extId, _) => row.status == Pending && row.requiredEndUser == Some(extId)
    case SetChallenge(_, _, _) => row.status == Pending
    case TakeChallenge(_, now) => row.status == Pending && now < row.expiresAt && row.challenge.Some?
    case Cleanup(now) => Purgeable(row, now)
    case _ => true
  }

  /** What a statement writes into an existing row that its WHERE clause matches. */
  function Updated(row: Row, s: Step): Option<Row> {
    match s
    case Save(_, details, expiresAt, team, endUser, _) =>
      Some(row.(details := details,
                resolvedBy := if row.status == Pending then None else row.resolvedBy,
                expiresAt := expiresAt,
                team := Coalesce(team, row.team),
                requiredEndUser := Coalesce(endUser, row.requiredEndUser)))
    case Resolve(_, status, resolver, _) => Some(row.(status := status, resolvedBy := Coalesce(resolver, row.resolvedBy)))
    case ClaimForGrant(_, resolver) => Some(row.(status := Approved, resolvedBy := Coalesce(resolver, row.resolvedBy)))
    case ResolveAsEndUser(_, status, _, resolver) => Some(row.(status := status, resolvedBy := Coalesce(resolver, row.resolvedBy)))
    case Delete(_) => None
    case SetChallenge(_, challenge, now) => Some(row.(challenge := Some(challenge), expiresAt := now + FALLBACK_TTL))
    case TakeChallenge(_, _) => Some(row.(challenge := None))
    case SetTelegram(_, message, _) => Some(row.(telegram := Some(message)))
    case SetMatrix(_, room, min, _) => Some(row.(matrix := Some(room), minApprovals := min))
    case IncrementCount(_) => Some(row.(approvalCount := row.approvalCount + 1))
    case Cleanup(_) => None
  }

  /** What a statement inserts when the transaction has no row; plain UPDATEs insert nothing. */
  function Inserted(s: Step): Option<Row> {
    match s
    case Save(_, details, expiresAt, team, endUser, now) =>
      Some(NewRow(Pending, now).(details := details, expiresAt := expiresAt, team := team, requiredEndUser := endUser))
    case Resolve(_, status, resolver, now) => Some(NewRow(status, now).(resolvedBy := resolver))
    case SetChallenge(_, challenge, now) => Some(NewRow(Pending, now).(challenge := Some(challenge)))
    case SetTelegram(_, message, now) => Some(NewRow(Pending, now).(telegram := Some(message)))
    case SetMatrix(_, room, min, now) => Some(NewRow(Pending, now).(matrix := Some(room), minApprovals := min))
    case _ => None
  }

  predicate Concerns(s: Step, x: TxnId) {
    s.Cleanup? || s.txn == x
  }

  /** The effect of one statement on the row of transaction `x`, if it has one. */
  function RowStep(x: TxnId, r: Option<Row>, s: Step): Option<Row> {
    if !Concerns(s, x) then r
    else if r.None? then Inserted(s)
    else if Matches(r.value, s) then Updated(r.value, s)
    else r
  }

  function Lookup(t: Table, x: TxnId): Option<Row> {
    if x in t then Some(t[x]) else None
  }

  function Put(t: Table, x: TxnId, r: Option<Row>): Table {
    if r.Some? then t[x := r.value] else t - {x}
  }

  /** The table after one statement. */
  function Apply(t: Table, s: Step): Table {
    if s.Cleanup? then map x | x in t && !Purgeable(t[x], s.now) :: t[x]
    else Put(t, s.txn, RowStep(s.txn, Lookup(t, s.txn), s))
  }

  /** `rows_affected() > 0` of a statement on one transaction. */
  predicate Affects(t: Table, s: Step)
    requires !s.Cleanup?
  {
    match Lookup(t, s.txn)
    case None => Inserted(s).Some?
    case Some(row) => Matches(row, s)
  }

  function Run(t: Table, steps: seq<Step>): Table {
    if steps == [] then t else Apply(Run(t, steps[..|steps| - 1]), steps[|steps| - 1])
  }

  function RunRow(x: TxnId, r: Option<Row>, steps: seq<Step>): Option<Row> {
    if steps == [] then r else RowStep(x, RunRow(x, r, steps[..|steps| - 1]), steps[|steps| - 1])
  }

  lemma {:induction false} RunIsPerRow(t: Table, steps: seq<Step>, x: TxnId)
    ensures Lookup(Run(t, steps), x) == RunRow(x, Lookup(t, x), steps)
  {
    if steps != [] {
      RunIsPerRow(t, steps[..|steps| - 1], x);
    }
  }

  /** The state seen after the first `k` statements of a run. */
  function At(t: Table, steps: seq<Step>, k: nat): Table
    requires k <= |steps|
  {
    Run(t, steps[..k])
  }

  lemma AtNext(t: Table, steps: seq<Step>, k: nat)
    requires k < |steps|
    ensures At(t, steps, k + 1) == Apply(At(t, steps, k), steps[k])
  {
    assert steps[..k + 1][..k] == steps[..k];
  }

  lemma {:induction false} RunConcat(t: Table, a: seq<Step>, b: seq<Step>)
    ensures Run(t, a + b) == Run(Run(t, a), b)
  {
    if b == [] {
      assert a + b == a;
    } else {
      RunConcat(t, a, b[..|b| - 1]);
      assert (a + b)[..|a + b| - 1] == a + b[..|b| - 1];
    }
  }

  /** The row of `x` exists after every statement from the `i`-th to the `j`-th. */
  ghost predicate LivesFrom(t: Table, steps: seq<Step>, x: TxnId, i: nat, j: nat)
    requires i <= j <= |steps|
  {
    forall k {:trigger At(t, steps, k)} :: i <= k <= j ==> x in At(t, steps, k)
  }

  // ------------------------------------------------------------------
  // Terminal statuses are permanent for as long as the row exists.
  // ------------------------------------------------------------------

  /** No statement that leaves the row in place changes a terminal status or lifts a reservation. */
  lemma StepKeeps(t: Table, s: Step, x: TxnId)
    requires x in t && x in Apply(t, s)
    ensures t[x].status != Pending ==> Apply(t, s)[x].status == t[x].status
    ensures t[x].requiredEndUser.Some? ==> Apply(t, s)[x].requiredEndUser.Some?
  {
  }

  lemma {:induction false} TerminalIsPermanent(t: Table, steps: seq<Step>, x: TxnId, i: nat, j: nat)
    requires i <= j <= |steps| && LivesFrom(t, steps, x, i, j)
    requires At(t, steps, i)[x].status != Pending
    ensures At(t, steps, j)[x].status == At(t, steps, i)[x].status
    decreases j
  {
    hide Apply;
    if i < j {
      TerminalIsPermanent(t, steps, x, i, j - 1);
      AtNext(t, steps, j - 1);
      StepKeeps(At(t, steps, j - 1), steps[j - 1], x);
    }
  }

  /** Only an explicit delete ever removes a row that is still pending. */
  lemma PendingRowSurvives(t: Table, s: Step, x: TxnId)
    requires x in t && t[x].status == Pending && x !in Apply(t, s)
    ensures s == Delete(x)
  {
  }

  /** A statement moves a row out of 'pending' only by resolving it, and never back. */
  lemma StatusChange(t: Table, s: Step, x: TxnId)
    requires x in t && x in Apply(t, s) && Apply(t, s)[x].status != t[x].status
    ensures t[x].status == Pending && Concerns(s, x)
    ensures s.Resolve? || s.ClaimForGrant? || s.ResolveAsEndUser?
    ensures Apply(t, s)[x].status == if s.ClaimForGrant? then Approved else s.status
  {
  }

  // ------------------------------------------------------------------
  // The exclusive claim behind every grant.
  // ------------------------------------------------------------------

  predicate ClaimWins(t: Table, steps: seq<Step>, x: TxnId, k: nat)
    requires k < |steps|
  {
    steps[k].ClaimForGrant? && steps[k].txn == x && Affects(At(t, steps, k), steps[k])
  }

  /** Two winning claims on one transaction are separated by a removal of its row. */
  lemma ClaimWinsOncePerLifetime(t: Table, steps: seq<Step>, x: TxnId, i: nat, j: nat)
    requires i < j < |steps| && ClaimWins(t, steps, x, i) && ClaimWins(t, steps, x, j)
    ensures exists k {:trigger At(t, steps, k)} :: i < k < j && x !in At(t, steps, k)
  {
    AtNext(t, steps, i);
    if LivesFrom(t, steps, x, i + 1, j) {
      TerminalIsPermanent(t, steps, x, i + 1, j);
    }
  }

  /** After a winning claim the row is approved, and stays so while it exists. */
  lemma ClaimedRowStaysApproved(t: Table, steps: seq<Step>, x: TxnId, i: nat, j: nat)
    requires i < j <= |steps| && ClaimWins(t, steps, x, i) && LivesFrom(t, steps, x, i + 1, j)
    ensures At(t, steps, j)[x].status == Approved
  {
    AtNext(t, steps, i);
    TerminalIsPermanent(t, steps, x, i + 1, j);
  }

  // ------------------------------------------------------------------
  // The end-user gate.
  // ------------------------------------------------------------------

  /** Step `k` is the approval of `x` by the very end user its row is reserved for at that moment. */
  predicate EndUserApproves(t: Table, steps: seq<Step>, x: TxnId, k: nat)
    requires k < |steps|
  {
    && steps[k].ResolveAsEndUser? && steps[k].txn == x && steps[k].status == Approved
    && x in At(t, steps, k) && At(t, steps, k)[x].requiredEndUser == Some(steps[k].extId)
  }

  /** Nothing but row removal lifts a reservation: later saves may only hand it to someone else. */
  lemma {:induction false} ReservationIsSticky(t: Table, steps: seq<Step>, x: TxnId, i: nat, j: nat)
    requires i <= j <= |steps| && LivesFrom(t, steps, x, i, j)
    requires At(t, steps, i)[x].requiredEndUser.Some?
    ensures At(t, steps, j)[x].requiredEndUser.Some?
    decreases j
  {
    hide Apply;
    if i < j {
      ReservationIsSticky(t, steps, x, i, j - 1);
      AtNext(t, steps, j - 1);
      StepKeeps(At(t, steps, j - 1), steps[j - 1], x);
    }
  }

  /** One statement approves a reserved row only in the name of its end user. */
  lemma GateStep(t: Table, s: Step, x: TxnId)
    requires x in t && x in Apply(t, s) && t[x].requiredEndUser.Some?
    requires t[x].status != Approved && Apply(t, s)[x].status == Approved
    ensures s.ResolveAsEndUser? && s.txn == x && s.status == Approved && t[x].requiredEndUser == Some(s.extId)
  {
  }

  /** A reserved pending row that ends up approved was approved by its end user, whatever else ran. */
  lemma {:induction false} EndUserGate(t: Table, steps: seq<Step>, x: TxnId, i: nat, j: nat) returns (k: nat)
    requires i <= j <= |steps| && LivesFrom(t, steps, x, i, j)
    requires At(t, steps, i)[x].requiredEndUser.Some? && At(t, steps, i)[x].status == Pending
    requires At(t, steps, j)[x].status == Approved
    ensures i <= k < j && EndUserApproves(t, steps, x, k)
    decreases j
  {
    hide Apply;
    AtNext(t, steps, j - 1);
    if At(t, steps, j - 1)[x].status == Approved {
      k := EndUserGate(t, steps, x, i, j - 1);
    } else {
      ReservationIsSticky(t, steps, x, i, j - 1);
      GateStep(At(t, steps, j - 1), steps[j - 1], x);
      k := j - 1;
    }
  }

  /** Saves after the `i`-th statement never reserve `x` for anyone but `e`. */
  ghost predicate OnlyReservedFor(steps: seq<Step>, x: TxnId, e: string, i: nat) {
    forall k :: i <= k < |steps| && steps[k].Save? && steps[k].txn == x ==>
      steps[k].endUser.None? || steps[k].endUser == Some(e)
  }

  lemma StepKeepsEndUser(t: Table, s: Step, x: TxnId, e: string)
    requires x in t && x in Apply(t, s) && t[x].requiredEndUser == Some(e)
    requires s.Save? && s.txn == x ==> s.endUser.None? || s.endUser == Some(e)
    ensures Apply(t, s)[x].requiredEndUser == Some(e)
  {
  }

  lemma {:induction false} ReservationStaysWith(t: Table, steps: seq<Step>, x: TxnId, e: string, i: nat, j: nat)
    requires i <= j <= |steps| && LivesFrom(t, steps, x, i, j) && OnlyReservedFor(steps, x, e, i)
    requires At(t, steps, i)[x].requiredEndUser == Some(e)
    ensures At(t, steps, j)[x].requiredEndUser == Some(e)
    decreases j
  {
    hide Apply;
    if i < j {
      ReservationStaysWith(t, steps, x, e, i, j - 1);
      AtNext(t, steps, j - 1);
      StepKeepsEndUser(At(t, steps, j - 1), steps[j - 1], x, e);
    }
  }

  /** Without assuming that the row stays: it was approved by its end user, or there was a moment without the row. */
  lemma EndUserGateOrRemoval(t: Table, steps: seq<Step>, x: TxnId, i: nat, j: nat)
    requires i <= j <= |steps| && x in At(t, steps, i) && x in At(t, steps, j)
    requires At(t, steps, i)[x].requiredEndUser.Some? && At(t, steps, i)[x].status == Pending
    requires At(t, steps, j)[x].status == Approved
    ensures || (exists k :: i <= k < j && EndUserApproves(t, steps, x, k))
            || (exists k {:trigger At(t, steps, k)} :: i < k < j && x !in At(t, steps, k))
  {
    if LivesFrom(t, steps, x, i, j) {
      var k := EndUserGate(t, steps, x, i, j);
    }
  }

  /** A team approval leaves the transaction approved exactly when it finds no row, an approved row, or an open one. */
  lemma TeamApprovalIff(t: Table, x: TxnId, resolver: Option<string>, now: Time)
    ensures var end := Apply(t, Resolve(x, Approved, resolver, now));
            && x in end
            && (end[x].status == Approved <==>
                  x !in t || t[x].status == Approved || (t[x].status == Pending && t[x].requiredEndUser.None?))
  {
  }

  /** The gate ends with the row: after a cleanup, a team approval succeeds on every row that was purged. */
  lemma GateEndsWithTheRow(t: Table, x: TxnId, resolver: Option<string>, now: Time, later: Time)
    requires x in t
    ensures var end := Run(t, [Cleanup(now), Resolve(x, Approved, resolver, later)]);
            && x in end
            && (end[x].status == Approved <==>
                  Purgeable(t[x], now) || t[x].status == Approved || (t[x].status == Pending && t[x].requiredEndUser.None?))
  {
    var steps := [Cleanup(now), Resolve(x, Approved, resolver, later)];
    assert steps[..1] == [Cleanup(now)] && steps[..1][..0] == [];
    var cleaned := Apply(t, Cleanup(now));
    assert Run(t, steps[..1]) == cleaned;
    assert if Purgeable(t[x], now) then x !in cleaned else x in cleaned && cleaned[x] == t[x];
    TeamApprovalIff(cleaned, x, resolver, later);
  }

  /** Whom the last reserving save of `x` between the `i`-th and the `j`-th statement named, if there is one. */
  function LastReservation(steps: seq<Step>, x: TxnId, initial: Option<string>, i: nat, j: nat): Option<string>
    requires i <= j <= |steps|
    decreases j
  {
    if i == j then initial
    else if steps[j - 1].Save? && steps[j - 1].txn == x && steps[j - 1].endUser.Some? then steps[j - 1].endUser
    else LastReservation(steps, x, initial, i, j - 1)
  }

  lemma StepReserves(t: Table, s: Step, x: TxnId)
    requires x in t && x in Apply(t, s)
    ensures Apply(t, s)[x].requiredEndUser ==
              if s.Save? && s.txn == x && s.endUser.Some? then s.endUser else t[x].requiredEndUser
  {
  }

  /** While a row exists, its reservation is the one of the last save that reserved it. */
  lemma {:induction false} ReservationIsTheLastSaved(t: Table, steps: seq<Step>, x: TxnId, i: nat, j: nat)
    requires i <= j <= |steps| && LivesFrom(t, steps, x, i, j)
    ensures At(t, steps, j)[x].requiredEndUser == LastReservation(steps, x, At(t, steps, i)[x].requiredEndUser, i, j)
    decreases j
  {
    hide Apply;
    if i < j {
      ReservationIsTheLastSaved(t, steps, x, i, j - 1);
      AtNext(t, steps, j - 1);
      StepReserves(At(t, steps, j - 1), steps[j - 1], x);
    }
  }

  /** A further save moves a reservation exactly when it names someone else; a save that names no one keeps it. */
  lemma SaveMovesReservationIff(t: Table, s: Step)
    requires s.Save? && s.txn in t
    ensures s.txn in Apply(t, s)
    ensures Apply(t, s)[s.txn].requiredEndUser != t[s.txn].requiredEndUser <==>
              s.endUser.Some? && s.endUser != t[s.txn].requiredEndUser
    ensures Apply(t, s)[s.txn].status == t[s.txn].status
  {
  }
}
