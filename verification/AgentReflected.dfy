/**
 The agent-reflected channel: it saves the pending row and then polls it once per
 tick until a decision is stored, the row is gone, or the deadline passes. Other
 instances' statements run between any two of its own.
 */
module AgentReflected {
  import opened Options
  import opened Replies
  import opened Approvals
  import opened ApprovalStore

  /**
   One turn of the poll loop: `others` run before the status read, which may fail;
   `late` run between a read that found no decision and the deadline's own resolution.
   */
  datatype Tick = Tick(now: Time, others: seq<Step>, readOk: bool, late: seq<Step>, expire: Reply)

  /** `Decided` is an `Ok` result; `RowMissing` and `Deadline` are both the ApprovalTimeout error. */
  datatype Outcome = Decided(status: Status) | RowMissing | Deadline(expire: Reply) | Waiting

  datatype WaitResult = WaitResult(outcome: Outcome, steps: seq<Step>)

  /** One turn of the loop; `Waiting` means that the loop goes on. */
  function Turn(x: TxnId, t: Table, deadline: Time, tick: Tick): WaitResult {
    var seen := Run(t, tick.others);
    if tick.readOk && x !in seen then WaitResult(RowMissing, tick.others)
    else if tick.readOk && seen[x].status != Pending then WaitResult(Decided(seen[x].status), tick.others)
    else if tick.now < deadline then WaitResult(Waiting, tick.others)
    else if tick.expire == Failed then WaitResult(Deadline(Failed), tick.others + tick.late)
    else WaitResult(Deadline(tick.expire), tick.others + tick.late + [Resolve(x, Expired, None, tick.now)])
  }

  /** The wait for `x`: its outcome and every statement executed until it returns. */
  function Wait(x: TxnId, t: Table, deadline: Time, ticks: seq<Tick>): WaitResult
    decreases |ticks|
  {
    if ticks == [] then WaitResult(Waiting, [])
    else
      var turn := Turn(x, t, deadline, ticks[0]);
      if turn.outcome != Waiting then turn
      else
        var rest := Wait(x, Run(t, turn.steps), deadline, ticks[1..]);
        WaitResult(rest.outcome, turn.steps + rest.steps)
  }

  /** The table after a wait is the table after its last turn. */
  lemma WaitTable(x: TxnId, t: Table, deadline: Time, ticks: seq<Tick>)
    requires ticks != [] && Turn(x, t, deadline, ticks[0]).outcome == Waiting
    ensures var seen := Run(t, ticks[0].others);
            Run(t, Wait(x, t, deadline, ticks).steps) == Run(seen, Wait(x, seen, deadline, ticks[1..]).steps)
  {
    var seen := Run(t, ticks[0].others);
    RunConcat(t, ticks[0].others, Wait(x, seen, deadline, ticks[1..]).steps);
  }

  // ------------------------------------------------------------------
  // When the wait ends, and how.
  // ------------------------------------------------------------------

  /** Everything that other instances ran before the status reads of these ticks. */
  function Others(ticks: seq<Tick>): seq<Step> {
    if ticks == [] then [] else ticks[0].others + Others(ticks[1..])
  }

  /** The table that the `k`-th status read sees, while the wait is still on. */
  function SeenAt(t: Table, ticks: seq<Tick>, k: nat): Table
    requires k < |ticks|
  {
    Run(t, Others(ticks[..k + 1]))
  }

  /** The `k`-th tick gives no reason to end: no read, or a row read as pending, and time left. */
  predicate GoesOn(x: TxnId, t: Table, deadline: Time, ticks: seq<Tick>, k: nat)
    requires k < |ticks|
  {
    var seen := SeenAt(t, ticks, k);
    (ticks[k].readOk ==> x in seen && seen[x].status == Pending) && ticks[k].now < deadline
  }

  /**
   The outcome that the `n`-th tick, the first that gives a reason to end, asks for: a row that was read as missing
   or decided ends the wait as such; otherwise the deadline has passed, and the wait itself expires the row.
   */
  predicate EndsAs(x: TxnId, t: Table, ticks: seq<Tick>, n: nat, w: WaitResult)
    requires n < |ticks|
  {
    var seen, tick, before := SeenAt(t, ticks, n), ticks[n], Others(ticks[..n + 1]);
    if tick.readOk && x !in seen then w == WaitResult(RowMissing, before)
    else if tick.readOk && seen[x].status != Pending then w == WaitResult(Decided(seen[x].status), before)
    else
      && w.outcome == Deadline(tick.expire)
      && w.steps == before + tick.late + if tick.expire == Failed then [] else [Resolve(x, Expired, None, tick.now)]
  }

  lemma SeenLater(t: Table, ticks: seq<Tick>, k: nat)
    requires 0 < k < |ticks|
    ensures SeenAt(t, ticks, k) == SeenAt(Run(t, ticks[0].others), ticks[1..], k - 1)
    ensures Others(ticks[..k + 1]) == ticks[0].others + Others(ticks[1..][..k])
  {
    assert ticks[..k + 1][1..] == ticks[1..][..k];
    RunConcat(t, ticks[0].others, Others(ticks[1..][..k]));
  }

  lemma SeenFirst(t: Table, ticks: seq<Tick>)
    requires ticks != []
    ensures Others(ticks[..1]) == ticks[0].others && SeenAt(t, ticks, 0) == Run(t, ticks[0].others)
  {
    assert ticks[..1] == [ticks[0]] && ticks[..1][1..] == [] && ticks[0].others + [] == ticks[0].others;
  }

  /** A longer wait that goes on past its first tick ends as its remainder does. */
  lemma EndsLater(x: TxnId, t: Table, ticks: seq<Tick>, n: nat, w: WaitResult)
    requires 0 < n < |ticks| && EndsAs(x, Run(t, ticks[0].others), ticks[1..], n - 1, w)
    ensures EndsAs(x, t, ticks, n, WaitResult(w.outcome, ticks[0].others + w.steps))
  {
    SeenLater(t, ticks, n);
    var a, b := ticks[0].others, Others(ticks[1..][..n]);
    if w.outcome.Deadline? {
      var c := ticks[n].late + if ticks[n].expire == Failed then [] else [Resolve(x, Expired, None, ticks[n].now)];
      assert a + w.steps == a + b + c;
    }
  }

  /** The first tick decides by itself whether the wait ends there, and how. */
  lemma FirstTurn(x: TxnId, t: Table, deadline: Time, ticks: seq<Tick>)
    requires ticks != []
    ensures var turn := Turn(x, t, deadline, ticks[0]);
            && (turn.outcome == Waiting <==> GoesOn(x, t, deadline, ticks, 0))
            && (turn.outcome != Waiting ==> EndsAs(x, t, ticks, 0, turn))
  {
    hide Run, SeenAt;
    SeenFirst(t, ticks);
    assert ticks[0].others + ticks[0].late + [] == ticks[0].others + ticks[0].late;
  }

  lemma GoesOnLater(x: TxnId, t: Table, deadline: Time, ticks: seq<Tick>, k: nat)
    requires 0 < k < |ticks|
    ensures GoesOn(x, t, deadline, ticks, k) <==> GoesOn(x, Run(t, ticks[0].others), deadline, ticks[1..], k - 1)
  {
    hide Run, SeenAt;
    SeenLater(t, ticks, k);
  }

  lemma WaitUnfolds(x: TxnId, t: Table, deadline: Time, ticks: seq<Tick>)
    requires ticks != []
    ensures var turn, seen := Turn(x, t, deadline, ticks[0]), Run(t, ticks[0].others);
            Wait(x, t, deadline, ticks) ==
              if turn.outcome != Waiting then turn
              else var rest := Wait(x, seen, deadline, ticks[1..]); WaitResult(rest.outcome, ticks[0].others + rest.steps)
  {
    hide Run;
  }

  /**
   The loop against its meaning, for all ticks: it ends at the first tick that reads the row as missing or decided or
   lies at or past the deadline, with the outcome that tick asks for, and goes on exactly as long as there is none.
   */
  lemma {:induction false} WaitEndsAtFirstReason(x: TxnId, t: Table, deadline: Time, ticks: seq<Tick>) returns (n: nat)
    ensures n <= |ticks| && forall k :: 0 <= k < n ==> GoesOn(x, t, deadline, ticks, k)
    ensures n == |ticks| <==> Wait(x, t, deadline, ticks).outcome == Waiting
    ensures n < |ticks| ==> !GoesOn(x, t, deadline, ticks, n) && EndsAs(x, t, ticks, n, Wait(x, t, deadline, ticks))
    decreases |ticks|
  {
    if ticks == [] {
      n := 0;
    } else {
      hide Wait, Turn, Run, GoesOn, EndsAs;
      FirstTurn(x, t, deadline, ticks);
      WaitUnfolds(x, t, deadline, ticks);
      if Turn(x, t, deadline, ticks[0]).outcome != Waiting {
        n := 0;
      } else {
        var seen := Run(t, ticks[0].others);
        var m := WaitEndsAtFirstReason(x, seen, deadline, ticks[1..]);
        n := m + 1;
        forall k | 0 < k < |ticks| ensures GoesOn(x, t, deadline, ticks, k) <==> GoesOn(x, seen, deadline, ticks[1..], k - 1) {
          GoesOnLater(x, t, deadline, ticks, k);
        }
        if n < |ticks| {
          EndsLater(x, t, ticks, n, Wait(x, seen, deadline, ticks[1..]));
        }
      }
    }
  }

  /** A wait times out by its deadline only at a tick at or past it, and outlasts no such tick. */
  lemma DeadlineIsKept(x: TxnId, t: Table, deadline: Time, ticks: seq<Tick>)
    ensures Wait(x, t, deadline, ticks).outcome.Deadline? ==> exists n :: 0 <= n < |ticks| && deadline <= ticks[n].now
    ensures (exists n :: 0 <= n < |ticks| && deadline <= ticks[n].now) ==> Wait(x, t, deadline, ticks).outcome != Waiting
  {
    hide Wait, SeenAt;
    var n := WaitEndsAtFirstReason(x, t, deadline, ticks);
    if Wait(x, t, deadline, ticks).outcome == Waiting {
      forall k | 0 <= k < |ticks| ensures ticks[k].now < deadline {
        assert GoesOn(x, t, deadline, ticks, k);
      }
    }
  }

  /** A decision the waiter returns is the decision the table holds at that moment. */
  lemma {:induction false} DecisionAgreesWithTable(x: TxnId, t: Table, deadline: Time, ticks: seq<Tick>)
    ensures var w := Wait(x, t, deadline, ticks);
            w.outcome.Decided? ==>
              w.outcome.status != Pending && x in Run(t, w.steps) && Run(t, w.steps)[x].status == w.outcome.status
    decreases |ticks|
  {
    if ticks != [] && Turn(x, t, deadline, ticks[0]).outcome == Waiting {
      DecisionAgreesWithTable(x, Run(t, ticks[0].others), deadline, ticks[1..]);
      WaitTable(x, t, deadline, ticks);
    }
  }

  /** A wait that ends at its deadline with a working store leaves a decided row behind. */
  lemma {:induction false} DeadlineLeavesDecidedRow(x: TxnId, t: Table, deadline: Time, ticks: seq<Tick>)
    ensures var w := Wait(x, t, deadline, ticks);
            w.outcome.Deadline? && w.outcome.expire != Failed ==>
              x in Run(t, w.steps) && Run(t, w.steps)[x].status != Pending
    decreases |ticks|
  {
    if ticks != [] {
      var tick := ticks[0];
      if Turn(x, t, deadline, tick).outcome == Waiting {
        DeadlineLeavesDecidedRow(x, Run(t, tick.others), deadline, ticks[1..]);
        WaitTable(x, t, deadline, ticks);
      } else {
        var expire := Resolve(x, Expired, None, tick.now);
        assert (tick.others + tick.late + [expire])[..|tick.others + tick.late|] == tick.others + tick.late;
      }
    }
  }

  /** ... and nothing that happens afterwards changes that row's status while it exists. */
  lemma NoDecisionAfterDeadline(x: TxnId, t: Table, deadline: Time, ticks: seq<Tick>, later: seq<Step>)
    requires var w := Wait(x, t, deadline, ticks);
             && w.outcome.Deadline? && w.outcome.expire != Failed
             && LivesFrom(Run(t, w.steps), later, x, 0, |later|)
    ensures var end := Run(t, Wait(x, t, deadline, ticks).steps);
            x in end && x in Run(end, later) && Run(end, later)[x].status == end[x].status != Pending
  {
    DeadlineLeavesDecidedRow(x, t, deadline, ticks);
    var end := Run(t, Wait(x, t, deadline, ticks).steps);
    TerminalIsPermanent(end, later, x, 0, |later|);
    assert later[..|later|] == later && later[..0] == [];
    assert At(end, later, |later|) == Run(end, later) && At(end, later, 0) == end;
  }

  /** The whole life of a reserved request: its first save, then everything until the wait returns. */
  function Lifetime(t: Table, save: Step, deadline: Time, ticks: seq<Tick>): seq<Step>
    requires save.Save?
  {
    [save] + Wait(save.txn, Apply(t, save), deadline, ticks).steps
  }

  /** The request's own end user approves it somewhere in the run. */
  ghost predicate ApprovedBy(steps: seq<Step>, x: TxnId, e: string) {
    exists s :: s in steps && s.ResolveAsEndUser? && s.txn == x && s.status == Approved && s.extId == e
  }

  /**
   The end-user gate over whole runs: a wait on a request reserved for `e` and never re-reserved
   for someone else returns Approved only if `e` approved it, or if there was a moment at which
   its row did not exist.
   */
  lemma EndUserGateOverWholeRun(t: Table, save: Step, e: string, deadline: Time, ticks: seq<Tick>)
    requires save.Save? && save.endUser == Some(e) && save.txn !in t
    requires Wait(save.txn, Apply(t, save), deadline, ticks).outcome == Decided(Approved)
    requires OnlyReservedFor(Lifetime(t, save, deadline, ticks), save.txn, e, 1)
    ensures var run := Lifetime(t, save, deadline, ticks);
            || ApprovedBy(Wait(save.txn, Apply(t, save), deadline, ticks).steps, save.txn, e)
            || exists k {:trigger At(t, run, k)} :: 1 < k < |run| && save.txn !in At(t, run, k)
  {
    var x, w := save.txn, Wait(save.txn, Apply(t, save), deadline, ticks);
    var run := Lifetime(t, save, deadline, ticks);
    DecisionAgreesWithTable(x, Apply(t, save), deadline, ticks);
    RunConcat(t, [save], w.steps);
    assert [save][..0] == [] && run[..1] == [save] && run[..|run|] == run;
    assert At(t, run, 1) == Apply(t, save) && At(t, run, |run|) == Run(Apply(t, save), w.steps);
    if LivesFrom(t, run, x, 1, |run|) {
      var k := EndUserGate(t, run, x, 1, |run|);
      ReservationStaysWith(t, run, x, e, 1, k);
      assert run[k] == w.steps[k - 1];
    }
  }

  class AgentReflectedChannel {
    const store: PendingApprovalStore
    const pendingTtl: nat

    constructor (store: PendingApprovalStore, pendingTtl: nat)
      ensures this.store == store && this.pendingTtl == pendingTtl
    {
      this.store := store;
      this.pendingTtl := pendingTtl;
    }

    /** The request is queued under its id, or the save's error is passed on. */
    method SendApprovalRequest(x: TxnId, details: string, team: string, endUser: Option<string>, now: Time, reply: Reply)
      returns (id: Option<TxnId>)
      modifies store
      ensures id == if reply == Done then Some(x) else None
      ensures store.rows ==
                if reply == Failed then old(store.rows)
                else Apply(old(store.rows), Save(x, details, now + pendingTtl, if team == "" then None else Some(team), endUser, now))
    {
      if reply != Failed {
        store.SavePendingApprovalScoped(x, details, now + pendingTtl, if team == "" then None else Some(team), endUser, now);
      }
      return if reply == Done then Some(x) else None;
    }

    /** One turn of the poll loop against the shared store. */
    method Poll(x: TxnId, deadline: Time, tick: Tick) returns (outcome: Outcome)
      modifies store
      ensures var turn := Turn(x, old(store.rows), deadline, tick);
              outcome == turn.outcome && store.rows == Run(old(store.rows), turn.steps)
      ensures var seen := Run(old(store.rows), tick.others);
              && (outcome == RowMissing <==> tick.readOk && x !in seen)
              && (outcome.Decided? <==> tick.readOk && x in seen && seen[x].status != Pending)
              && (outcome.Decided? ==> outcome.status == seen[x].status)
              && (outcome.Deadline? <==> (tick.readOk ==> x in seen && seen[x].status == Pending) && deadline <= tick.now)
    {
      store.Interleave(tick.others);
      if tick.readOk {
        if x !in store.rows {
          return RowMissing;
        }
        if store.rows[x].status != Pending {
          return Decided(store.rows[x].status);
        }
      }
      if tick.now < deadline {
        return Waiting;
      }
      store.Interleave(tick.late);
      RunConcat(old(store.rows), tick.others, tick.late);
      if tick.expire != Failed {
        ghost var expire := Resolve(x, Expired, None, tick.now);
        assert (tick.others + tick.late + [expire])[..|tick.others + tick.late|] == tick.others + tick.late;
        var _ := store.ResolvePendingApproval(x, Expired, None, tick.now);
      }
      return Deadline(tick.expire);
    }

    method WaitForDecision(x: TxnId, deadline: Time, ticks: seq<Tick>) returns (outcome: Outcome)
      modifies store
      ensures var w := Wait(x, old(store.rows), deadline, ticks);
              outcome == w.outcome && store.rows == Run(old(store.rows), w.steps)
    {
      ghost var whole := Wait(x, store.rows, deadline, ticks);
      ghost var start := store.rows;
      var i := 0;
      while i < |ticks|
        invariant 0 <= i <= |ticks|
        invariant whole.outcome == Wait(x, store.rows, deadline, ticks[i..]).outcome
        invariant Run(start, whole.steps) == Run(store.rows, Wait(x, store.rows, deadline, ticks[i..]).steps)
      {
        ghost var rest := ticks[i..];
        assert rest[0] == ticks[i] && rest[1..] == ticks[i + 1..];
        if Turn(x, store.rows, deadline, ticks[i]).outcome == Waiting {
          WaitTable(x, store.rows, deadline, rest);
        }
        outcome := Poll(x, deadline, ticks[i]);
        if outcome != Waiting {
          return;
        }
        i := i + 1;
      }
      outcome := Waiting;
    }
  }
}
