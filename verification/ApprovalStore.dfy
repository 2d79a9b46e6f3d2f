/**
 The store methods over `pending_approvals`, statement by statement. Each method
 updates the shared rows in place and is proved to do what its `Step` says.
 */
module ApprovalStore {
  import opened Options
  import opened Approvals

  lemma RemovalCount<V>(t: map<TxnId, V>, doomed: set<TxnId>)
    requires doomed <= t.Keys
    ensures |t - doomed| == |t| - |doomed|
  {
    assert t.Keys == (t - doomed).Keys + doomed;
    assert |t - doomed| == |(t - doomed).Keys| && |t| == |t.Keys|;
  }

  class PendingApprovalStore {
    var rows: Table

    /** Expiry times of the `async_approvals` rows. */
    var asyncExpiry: map<TxnId, Time>

    constructor ()
      ensures rows == map[] && asyncExpiry == map[]
    {
      rows, asyncExpiry := map[], map[];
    }

    method SavePendingApprovalScoped(txn: TxnId, details: string, expiresAt: Time, team: Option<string>,
                                     endUser: Option<string>, now: Time)
      modifies this`rows
      ensures rows == Apply(old(rows), Save(txn, details, expiresAt, team, endUser, now))
      ensures txn !in old(rows) ==>
                rows == old(rows)[txn := Row(details, Pending, None, now, expiresAt, team, endUser, None, None, None, 0, 1)]
      ensures txn in old(rows) ==>
                var was := old(rows)[txn];
                rows == old(rows)[txn := was.(
                  details := details, expiresAt := expiresAt,
                  resolvedBy := if was.status == Pending then None else was.resolvedBy,
                  team := if team == None then was.team else team,
                  requiredEndUser := if endUser == None then was.requiredEndUser else endUser)]
    {
      if txn !in rows {
        rows := rows[txn := Row(details, Pending, None, now, expiresAt, team, endUser, None, None, None, 0, 1)];
        return;
      }
      var row := rows[txn];
      var keptTeam := if team.Some? then team else row.team;
      var keptEndUser := if endUser.Some? then endUser else row.requiredEndUser;
      if row.status == Pending {
        row := row.(resolvedBy := None);
      }
      rows := rows[txn := row.(details := details, expiresAt := expiresAt, team := keptTeam,
                               requiredEndUser := keptEndUser)];
    }

    method ResolvePendingApproval(txn: TxnId, status: Status, resolver: Option<string>, now: Time) returns (updated: bool)
      modifies this`rows
      ensures rows == Apply(old(rows), Resolve(txn, status, resolver, now))
      ensures updated == Affects(old(rows), Resolve(txn, status, resolver, now))
      ensures updated <==>
                || txn !in old(rows)
                || ((old(rows)[txn].status == Pending || old(rows)[txn].status == status) &&
                    !(status == Approved && old(rows)[txn].requiredEndUser.Some?))
      ensures !updated ==> rows == old(rows)
      ensures updated && txn !in old(rows) ==>
                rows == old(rows)[txn := Row("{}", status, resolver, now, now + 20 * 60, None, None, None, None, None, 0, 1)]
      ensures updated && txn in old(rows) ==>
                var was := old(rows)[txn];
                rows == old(rows)[txn := was.(status := status, resolvedBy := if resolver == None then was.resolvedBy else resolver)]
    {
      if txn !in rows {
        rows := rows[txn := NewRow(status, now).(resolvedBy := resolver)];
        return true;
      }
      var row := rows[txn];
      if row.status != Pending && row.status != status {
        return false;
      }
      if status == Approved && row.requiredEndUser.Some? {
        return false;
      }
      rows := rows[txn := row.(status := status, resolvedBy := if resolver.Some? then resolver else row.resolvedBy)];
      return true;
    }

    method ClaimPendingApprovalForGrant(txn: TxnId, resolver: Option<string>) returns (claimed: bool)
      modifies this`rows
      ensures rows == Apply(old(rows), ClaimForGrant(txn, resolver))
      ensures claimed == Affects(old(rows), ClaimForGrant(txn, resolver))
      ensures claimed <==> txn in old(rows) && old(rows)[txn].status == Pending && old(rows)[txn].requiredEndUser == None
      ensures !claimed ==> rows == old(rows)
      ensures claimed ==>
                var was := old(rows)[txn];
                rows == old(rows)[txn := was.(status := Approved, resolvedBy := if resolver == None then was.resolvedBy else resolver)]
    {
      if txn !in rows || rows[txn].status != Pending || rows[txn].requiredEndUser.Some? {
        assert txn in rows || Put(rows, txn, None) == rows;
        return false;
      }
      var row := rows[txn];
      rows := rows[txn := row.(status := Approved, resolvedBy := if resolver.Some? then resolver else row.resolvedBy)];
      return true;
    }

    method ResolvePendingApprovalAsEndUser(txn: TxnId, status: Status, extId: string, resolver: Option<string>)
      returns (updated: bool)
      modifies this`rows
      ensures rows == Apply(old(rows), ResolveAsEndUser(txn, status, extId, resolver))
      ensures updated == Affects(old(rows), ResolveAsEndUser(txn, status, extId, resolver))
      ensures updated <==>
                txn in old(rows) && old(rows)[txn].status == Pending && old(rows)[txn].requiredEndUser == Some(extId)
      ensures !updated ==> rows == old(rows)
      ensures updated ==>
                var was := old(rows)[txn];
                rows == old(rows)[txn := was.(status := status, resolvedBy := if resolver == None then was.resolvedBy else resolver)]
    {
      if txn !in rows || rows[txn].status != Pending || rows[txn].requiredEndUser != Some(extId) {
        assert txn in rows || Put(rows, txn, None) == rows;
        return false;
      }
      var row := rows[txn];
      rows := rows[txn := row.(status := status, resolvedBy := if resolver.Some? then resolver else row.resolvedBy)];
      return true;
    }

    method PurgePendingApprovals(now: Time) returns (purged: nat)
      modifies this`rows
      ensures rows == Apply(old(rows), Cleanup(now))
      ensures purged == |old(rows)| - |rows|
      ensures forall x :: x in rows <==> x in old(rows) && (old(rows)[x].status == Pending || now <= old(rows)[x].expiresAt)
      ensures forall x :: x in rows ==> rows[x] == old(rows)[x]
    {
      var doomed := set x | x in rows && Purgeable(rows[x], now);
      purged := |doomed|;
      RemovalCount(rows, doomed);
      rows := rows - doomed;
    }

    /** Two statements over two tables; `between` is what other instances run in the gap. */
    method CleanupExpiredRows(now: Time, between: seq<Step>) returns (pending: nat, responses: nat)
      modifies this`rows, this`asyncExpiry
      ensures rows == Run(Apply(old(rows), Cleanup(now)), between)
      ensures pending == |old(rows)| - |Apply(old(rows), Cleanup(now))|
      ensures asyncExpiry == map x | x in old(asyncExpiry) && now <= old(asyncExpiry)[x] :: old(asyncExpiry)[x]
      ensures responses == |old(asyncExpiry)| - |asyncExpiry|
    {
      hide Run, Apply;
      pending := PurgePendingApprovals(now);
      Interleave(between);
      var doomed := set x | x in asyncExpiry && asyncExpiry[x] < now;
      responses := |doomed|;
      RemovalCount(asyncExpiry, doomed);
      asyncExpiry := asyncExpiry - doomed;
    }

    method DeletePendingApproval(txn: TxnId)
      modifies this`rows
      ensures rows == Apply(old(rows), Delete(txn))
      ensures rows == old(rows) - {txn}
    {
      rows := rows - {txn};
    }

    method SetPendingApprovalChallenge(txn: TxnId, challenge: string, now: Time)
      modifies this`rows
      ensures rows == Apply(old(rows), SetChallenge(txn, challenge, now))
      ensures txn !in old(rows) ==>
                rows == old(rows)[txn := Row("{}", Pending, None, now, now + 20 * 60, None, None, None, None, Some(challenge), 0, 1)]
      ensures txn in old(rows) ==>
                var was := old(rows)[txn];
                rows == if was.status != Pending then old(rows)
                        else old(rows)[txn := was.(challenge := Some(challenge), expiresAt := now + 20 * 60)]
    {
      if txn !in rows {
        rows := rows[txn := NewRow(Pending, now).(challenge := Some(challenge))];
      } else if rows[txn].status == Pending {
        rows := rows[txn := rows[txn].(challenge := Some(challenge), expiresAt := now + FALLBACK_TTL)];
      }
    }

    /** Single use: whatever is returned has been cleared from the row by the same statement. */
    method TakePendingApprovalChallenge(txn: TxnId, now: Time) returns (taken: Option<string>)
      modifies this`rows
      ensures rows == Apply(old(rows), TakeChallenge(txn, now))
      ensures taken.Some? <==>
                && txn in old(rows) && old(rows)[txn].status == Pending
                && now < old(rows)[txn].expiresAt && old(rows)[txn].challenge.Some?
      ensures taken.Some? ==> taken == old(rows)[txn].challenge && rows == old(rows)[txn := old(rows)[txn].(challenge := None)]
      ensures taken == None ==> rows == old(rows)
    {
      taken := None;
      if txn in rows {
        var row := rows[txn];
        if row.status == Pending && now < row.expiresAt && row.challenge.Some? {
          taken := row.challenge;
          rows := rows[txn := row.(challenge := None)];
        }
      } else {
        assert Put(rows, txn, None) == rows;
      }
    }

    method SetPendingApprovalTelegramMessage(txn: TxnId, message: TelegramMessage, now: Time)
      modifies this`rows
      ensures rows == Apply(old(rows), SetTelegram(txn, message, now))
      ensures txn in old(rows) ==> rows == old(rows)[txn := old(rows)[txn].(telegram := Some(message))]
      ensures txn !in old(rows) ==>
                rows == old(rows)[txn := Row("{}", Pending, None, now, now + 20 * 60, None, None, Some(message), None, None, 0, 1)]
    {
      var row := if txn in rows then rows[txn] else NewRow(Pending, now);
      rows := rows[txn := row.(telegram := Some(message))];
    }

    method SetPendingApprovalMatrixData(txn: TxnId, room: MatrixMessage, min: nat, now: Time)
      modifies this`rows
      ensures rows == Apply(old(rows), SetMatrix(txn, room, min, now))
      ensures txn in old(rows) ==> rows == old(rows)[txn := old(rows)[txn].(matrix := Some(room), minApprovals := min)]
      ensures txn !in old(rows) ==>
                rows == old(rows)[txn := Row("{}", Pending, None, now, now + 20 * 60, None, None, None, Some(room), None, 0, min)]
    {
      var row := if txn in rows then rows[txn] else NewRow(Pending, now);
      rows := rows[txn := row.(matrix := Some(room), minApprovals := min)];
    }

    /** Two statements: the UPDATE, then a SELECT; `between` is what other instances run in the gap. */
    method IncrementPendingApprovalCount(txn: TxnId, between: seq<Step>) returns (counts: Option<(nat, nat)>)
      modifies this`rows
      ensures rows == Run(Apply(old(rows), IncrementCount(txn)), between)
      ensures counts == if txn in rows then Some((rows[txn].approvalCount, rows[txn].minApprovals)) else None
    {
      BumpCount(txn);
      Interleave(between);
      counts := if txn in rows then Some((rows[txn].approvalCount, rows[txn].minApprovals)) else None;
    }

    method BumpCount(txn: TxnId)
      modifies this`rows
      ensures rows == Apply(old(rows), IncrementCount(txn))
      ensures rows == if txn !in old(rows) then old(rows)
                      else old(rows)[txn := old(rows)[txn].(approvalCount := old(rows)[txn].approvalCount + 1)]
    {
      if txn in rows {
        rows := rows[txn := rows[txn].(approvalCount := rows[txn].approvalCount + 1)];
      } else {
        assert Put(rows, txn, None) == rows;
      }
    }

    /** Any one statement of the step system, issued by some instance. */
    method Execute(s: Step)
      modifies this`rows
      ensures rows == Apply(old(rows), s)
    {
      match s
      case Save(txn, details, expiresAt, team, endUser, now) =>
        SavePendingApprovalScoped(txn, details, expiresAt, team, endUser, now);
      case Resolve(txn, status, resolver, now) => var _ := ResolvePendingApproval(txn, status, resolver, now);
      case ClaimForGrant(txn, resolver) => var _ := ClaimPendingApprovalForGrant(txn, resolver);
      case ResolveAsEndUser(txn, status, extId, resolver) =>
        var _ := ResolvePendingApprovalAsEndUser(txn, status, extId, resolver);
      case Delete(txn) => DeletePendingApproval(txn);
      case SetChallenge(txn, challenge, now) => SetPendingApprovalChallenge(txn, challenge, now);
      case TakeChallenge(txn, now) => var _ := TakePendingApprovalChallenge(txn, now);
      case SetTelegram(txn, message, now) => SetPendingApprovalTelegramMessage(txn, message, now);
      case SetMatrix(txn, room, min, now) => SetPendingApprovalMatrixData(txn, room, min, now);
      case IncrementCount(txn) => BumpCount(txn);
      case Cleanup(now) => var _ := PurgePendingApprovals(now);
    }

    /** Statements of other instances that run between two statements of this one. */
    method Interleave(steps: seq<Step>)
      modifies this`rows
      ensures rows == Run(old(rows), steps)
    {
      for i := 0 to |steps|
        invariant rows == Run(old(rows), steps[..i])
      {
        Execute(steps[i]);
        assert steps[..i + 1][..i] == steps[..i];
      }
      assert steps[..|steps|] == steps;
    }
  }
}
