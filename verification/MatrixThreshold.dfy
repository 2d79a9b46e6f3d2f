/**
 N-of-M approval in the Matrix database fallback. An approving reaction that lands
 on an instance without the in-memory entry looks the row up, increments the stored
 count, reads it back in a second statement, and resolves the row when the count
 has reached the threshold. Reactions on any number of instances interleave freely
 with each other, with the periodic cleanup and with other statements.
 */
module MatrixThreshold {
  import opened Options
  import opened Replies
  import opened Approvals
  import opened ApprovalStore

  type ReactorId = nat

  /** `Passed` means that the handler goes on to resolve; `Refused` and the last three have ended. */
  datatype Stage = Reacted | Refused | LookedUp | Incremented | Passed | Ignored | Partial | Finished

  /** `counted` are the handlers whose increment hit the row. */
  datatype System = System(row: Option<Row>, reactors: map<ReactorId, Stage>, counted: set<ReactorId>)

  datatype Event =
    | React(id: ReactorId)
    | LookUp(id: ReactorId, ok: bool, user: Option<string>, allowed: seq<string>)
    | Increment(id: ReactorId, reply: Reply)
    | Read(id: ReactorId, ok: bool)
    | Conclude(id: ReactorId, resolver: Option<string>, now: Time, reply: Reply)
    | Statement(s: Step)

  predicate InStage(reactors: map<ReactorId, Stage>, id: ReactorId, stage: Stage) {
    id in reactors && reactors[id] == stage
  }

  function Move(sys: System, id: ReactorId, stage: Stage): System {
    sys.(reactors := sys.reactors[id := stage])
  }

  /** The look-up goes by Matrix event id, which only the row that was posted carries. */
  predicate Open(row: Option<Row>) {
    row.Some? && row.value.matrix.Some? && row.value.status == Pending
  }

  predicate Short(row: Option<Row>) {
    row.Some? && row.value.approvalCount < row.value.minApprovals
  }

  /** Whether a stored approver list admits a user: an empty list admits everyone, and so does an unidentified user. */
  predicate Permitted(user: Option<string>, allowed: seq<string>) {
    user.None? || allowed == [] || user.value in allowed
  }

  function Next(x: TxnId, sys: System, ev: Event): System {
    match ev
    case React(id) => if id in sys.reactors then sys else Move(sys, id, Reacted)
    case LookUp(id, ok, user, allowed) =>
      if !InStage(sys.reactors, id, Reacted) then sys
      else Move(sys, id, if !ok then Refused
                         else if !Open(sys.row) then Ignored
                         else if !Permitted(user, allowed) then Refused
                         else if sys.row.value.minApprovals > 1 then LookedUp
                         else Passed)
    case Increment(id, reply) =>
      if !InStage(sys.reactors, id, LookedUp) then sys
      else
        var hit := if reply == Failed then sys
                   else sys.(row := RowStep(x, sys.row, IncrementCount(x)),
                             counted := if sys.row.Some? then sys.counted + {id} else sys.counted);
        Move(hit, id, if reply == Done then Incremented else Passed)
    case Read(id, ok) =>
      if !InStage(sys.reactors, id, Incremented) then sys
      else Move(sys, id, if ok && Short(sys.row) then Partial else Passed)
    case Conclude(id, resolver, now, reply) =>
      if !InStage(sys.reactors, id, Passed) then sys
      else
        var resolved := if reply == Failed then sys
                        else sys.(row := RowStep(x, sys.row, Resolve(x, Approved, resolver, now)));
        Move(resolved, id, Finished)
    case Statement(s) => sys.(row := RowStep(x, sys.row, s))
  }

  function At(x: TxnId, sys: System, events: seq<Event>, k: nat): System
    requires k <= |events|
  {
    if k == 0 then sys else Next(x, At(x, sys, events, k - 1), events[k - 1])
  }

  // ------------------------------------------------------------------
  // The conditions on a run, all on its events.
  // ------------------------------------------------------------------

  /** Statements of others that neither decide, reserve, delete nor re-count this request; cleanup is one of them. */
  predicate Harmless(s: Step, x: TxnId) {
    || !Concerns(s, x)
    || (s.Save? && s.endUser.None?)
    || s.SetTelegram? || s.SetChallenge? || s.TakeChallenge? || s.Cleanup?
  }

  /** Increments and their read-backs are answered, and nobody else resolves. */
  predicate Regular(ev: Event, x: TxnId) {
    && (ev.Increment? ==> ev.reply == Done)
    && (ev.Read? ==> ev.ok)
    && (ev.Statement? ==> Harmless(ev.s, x))
  }

  ghost predicate RegularRun(x: TxnId, events: seq<Event>) {
    forall k :: 0 <= k < |events| ==> Regular(events[k], x)
  }

  /** No final resolution fails. */
  predicate Resolves(ev: Event) {
    ev.Conclude? ==> ev.reply != Failed
  }

  ghost predicate ResolvingRun(events: seq<Event>) {
    forall k :: 0 <= k < |events| ==> Resolves(events[k])
  }

  predicate Counted(stage: Stage) {
    stage == Incremented || stage == Passed || stage == Partial || stage == Finished
  }

  /** An approving reaction that was admitted and has run to its end. */
  predicate Completed(stage: Stage) {
    stage == Ignored || stage == Partial || stage == Finished
  }

  function PartialSet(reactors: map<ReactorId, Stage>): set<ReactorId> {
    set id | id in reactors && reactors[id] == Partial
  }

  function CompletedSet(reactors: map<ReactorId, Stage>): set<ReactorId> {
    set id | id in reactors && Completed(reactors[id])
  }

  /** A posted request waiting for `m` approvals of which none has been given. */
  predicate Fresh(sys: System, m: nat) {
    && Open(sys.row) && sys.row.value.requiredEndUser == None
    && sys.row.value.approvalCount == 0 && sys.row.value.minApprovals == m
    && sys.reactors == map[] && sys.counted == {}
  }

  // ------------------------------------------------------------------
  // The tally, for as long as the posted row exists.
  // ------------------------------------------------------------------

  /** The row's part: its count is the number of handlers that hit it, and an approval means `m` of them. */
  predicate RowTallied(row: Row, counted: set<ReactorId>, m: nat) {
    && row.minApprovals == m && row.requiredEndUser == None && row.matrix.Some?
    && row.approvalCount == |counted|
    && (row.status == Pending || row.status == Approved)
    && (row.status == Approved ==> m <= |counted|)
  }

  /** The handlers' part: what each stage knows about the count and the row. */
  predicate HandlerTallied(approved: bool, stage: Stage, hit: bool, enough: bool, resolving: bool) {
    && (hit <==> Counted(stage))
    && (stage == Passed ==> enough)
    && (stage == Ignored ==> approved)
    && (stage == Finished && resolving ==> approved)
  }

  ghost predicate HandlersTallied(sys: System, m: nat, resolving: bool)
    requires sys.row.Some?
  {
    && sys.counted <= sys.reactors.Keys
    && forall id :: id in sys.reactors ==>
         HandlerTallied(sys.row.value.status == Approved, sys.reactors[id], id in sys.counted, m <= |sys.counted|, resolving)
  }

  ghost predicate Tallied(sys: System, m: nat, resolving: bool) {
    && sys.row.Some? && RowTallied(sys.row.value, sys.counted, m)
    && HandlersTallied(sys, m, resolving)
    && |PartialSet(sys.reactors)| < m
  }

  lemma SubsetSize<T>(a: set<T>, b: set<T>)
    requires a <= b
    ensures |a| <= |b|
  {
    assert b == a + (b - a);
  }

  /** Moving a handler to a stage other than `Partial` gives up no more handlers. */
  lemma PartialMove(reactors: map<ReactorId, Stage>, id: ReactorId, stage: Stage)
    requires stage != Partial
    ensures |PartialSet(reactors[id := stage])| <= |PartialSet(reactors)|
  {
    assert PartialSet(reactors[id := stage]) == PartialSet(reactors) - {id};
  }

  lemma HarmlessRow(x: TxnId, row: Row, s: Step)
    requires Harmless(s, x)
    ensures var r := RowStep(x, Some(row), s);
            && (r.None? ==> row.status != Pending)
            && (r.Some? ==>
                  && r.value.status == row.status && r.value.approvalCount == row.approvalCount && r.value.matrix == row.matrix
                  && r.value.minApprovals == row.minApprovals && (row.requiredEndUser == None ==> r.value.requiredEndUser == None))
  {
  }

  lemma TalliedStatement(x: TxnId, sys: System, s: Step, m: nat, resolving: bool)
    requires Tallied(sys, m, resolving) && Harmless(s, x)
    ensures var after := Next(x, sys, Statement(s));
            if after.row.Some? then Tallied(after, m, resolving) else sys.row.value.status == Approved
  {
    HarmlessRow(x, sys.row.value, s);
  }

  /** A handler that moves without touching the row keeps the tally if its new stage is justified. */
  lemma TalliedMove(sys: System, id: ReactorId, stage: Stage, m: nat, resolving: bool)
    requires Tallied(sys, m, resolving) && stage != Partial
    requires HandlerTallied(sys.row.value.status == Approved, stage, id in sys.counted, m <= |sys.counted|, resolving)
    ensures Tallied(Move(sys, id, stage), m, resolving)
  {
    hide RowTallied, HandlerTallied;
    PartialMove(sys.reactors, id, stage);
  }

  lemma TalliedStart(x: TxnId, sys: System, ev: Event, m: nat, resolving: bool)
    requires 1 < m && Tallied(sys, m, resolving) && (ev.React? || ev.LookUp?)
    ensures Tallied(Next(x, sys, ev), m, resolving)
  {
    hide HandlersTallied;
    var after := Next(x, sys, ev);
    if after != sys {
      assert ev.id !in sys.counted by { NotYetCounted(sys, ev.id, m, resolving); }
      TalliedMove(sys, ev.id, after.reactors[ev.id], m, resolving);
    }
  }

  lemma NotYetCounted(sys: System, id: ReactorId, m: nat, resolving: bool)
    requires Tallied(sys, m, resolving) && (id in sys.reactors ==> !Counted(sys.reactors[id]))
    ensures id !in sys.counted
  {
  }

  /** One more hit: count, hits and stage move together. */
  lemma TalliedIncrement(x: TxnId, sys: System, id: ReactorId, m: nat, resolving: bool)
    requires Tallied(sys, m, resolving)
    ensures Tallied(Next(x, sys, Increment(id, Done)), m, resolving)
  {
    if InStage(sys.reactors, id, LookedUp) {
      NotYetCounted(sys, id, m, resolving);
      PartialMove(sys.reactors, id, Incremented);
      assert |sys.counted + {id}| == |sys.counted| + 1;
    }
  }

  /** A handler that gives up has read a count below `m`, so fewer than `m` handlers have given up. */
  lemma TalliedGiveUp(sys: System, id: ReactorId, m: nat, resolving: bool)
    requires Tallied(sys, m, resolving) && InStage(sys.reactors, id, Incremented) && |sys.counted| < m
    ensures Tallied(Move(sys, id, Partial), m, resolving)
  {
    var after := Move(sys, id, Partial);
    assert PartialSet(after.reactors) <= sys.counted;
    SubsetSize(PartialSet(after.reactors), sys.counted);
  }

  lemma TalliedRead(x: TxnId, sys: System, id: ReactorId, m: nat, resolving: bool)
    requires Tallied(sys, m, resolving)
    ensures Tallied(Next(x, sys, Read(id, true)), m, resolving)
  {
    if InStage(sys.reactors, id, Incremented) {
      if Short(sys.row) {
        TalliedGiveUp(sys, id, m, resolving);
      } else {
        TalliedMove(sys, id, Passed, m, resolving);
      }
    }
  }

  lemma TalliedConclude(x: TxnId, sys: System, ev: Event, m: nat, resolving: bool)
    requires Tallied(sys, m, resolving) && ev.Conclude? && (resolving ==> ev.reply != Failed)
    ensures Tallied(Next(x, sys, ev), m, resolving)
  {
    if InStage(sys.reactors, ev.id, Passed) {
      PartialMove(sys.reactors, ev.id, Finished);
    }
  }

  /** Every regular event keeps the tally, or removes a row that was already approved. */
  lemma TalliedStep(x: TxnId, sys: System, ev: Event, m: nat, resolving: bool)
    requires 1 < m && Tallied(sys, m, resolving) && Regular(ev, x) && (resolving ==> Resolves(ev))
    ensures var after := Next(x, sys, ev);
            if after.row.Some? then Tallied(after, m, resolving) else sys.row.value.status == Approved
  {
    hide Tallied, Next;
    match ev
    case Statement(s) => TalliedStatement(x, sys, s, m, resolving);
    case Increment(id, _) => TalliedIncrement(x, sys, id, m, resolving); RowOf(Next(x, sys, ev), m, resolving);
    case Read(id, _) => TalliedRead(x, sys, id, m, resolving); RowOf(Next(x, sys, ev), m, resolving);
    case Conclude(_, _, _, _) => TalliedConclude(x, sys, ev, m, resolving); RowOf(Next(x, sys, ev), m, resolving);
    case _ => TalliedStart(x, sys, ev, m, resolving); RowOf(Next(x, sys, ev), m, resolving);
  }

  lemma RowOf(sys: System, m: nat, resolving: bool)
    requires Tallied(sys, m, resolving)
    ensures sys.row.Some? && RowTallied(sys.row.value, sys.counted, m)
  {
  }

  lemma FreshIsTallied(sys: System, m: nat, resolving: bool)
    requires 1 < m && Fresh(sys, m)
    ensures Tallied(sys, m, resolving)
  {
    assert PartialSet(sys.reactors) == {};
  }

  /** The last tallied moment: the present one, or the one before the posted row was removed, approved. */
  lemma {:induction false} LastTallied(x: TxnId, sys: System, events: seq<Event>, m: nat, resolving: bool, k: nat) returns (h: nat)
    requires 1 < m && Fresh(sys, m) && RegularRun(x, events) && (resolving ==> ResolvingRun(events)) && k <= |events|
    ensures h <= k && Tallied(At(x, sys, events, h), m, resolving)
    ensures h < k ==> At(x, sys, events, h).row.value.status == Approved && At(x, sys, events, h + 1).row.None?
  {
    hide Next, Tallied, Regular, Resolves;
    if k == 0 {
      FreshIsTallied(sys, m, resolving);
      h := 0;
    } else {
      h := LastTallied(x, sys, events, m, resolving, k - 1);
      if h == k - 1 {
        RowOf(At(x, sys, events, h), m, resolving);
        TalliedStep(x, At(x, sys, events, h), events[h], m, resolving);
        h := if At(x, sys, events, k).row.Some? then k else h;
      }
    }
  }

  lemma {:induction false} HitsGrow(x: TxnId, sys: System, events: seq<Event>, i: nat, j: nat)
    requires i <= j <= |events|
    ensures At(x, sys, events, i).counted <= At(x, sys, events, j).counted
    decreases j
  {
    if i < j {
      HitsGrow(x, sys, events, i, j - 1);
    }
  }

  /**
   No early approval: in every run whose increments are answered, cleanup included, the
   transaction is approved only after increments of `m` different handlers hit its row.
   */
  lemma ApprovedOnlyAtThreshold(x: TxnId, sys: System, events: seq<Event>, m: nat)
    requires 1 < m && Fresh(sys, m) && RegularRun(x, events)
    ensures var end := At(x, sys, events, |events|);
            end.row.Some? && end.row.value.status == Approved ==> m <= |end.counted|
  {
    hide Next, Tallied;
    var h := LastTallied(x, sys, events, m, false, |events|);
    RowOf(At(x, sys, events, h), m, false);
    HitsGrow(x, sys, events, h, |events|);
    SubsetSize(At(x, sys, events, h).counted, At(x, sys, events, |events|).counted);
  }

  lemma CompletedMeansApproved(sys: System, m: nat)
    requires Tallied(sys, m, true) && m <= |CompletedSet(sys.reactors)|
    ensures sys.row.value.status == Approved
  {
    if sys.row.value.status != Approved {
      forall id | id in CompletedSet(sys.reactors) ensures id in PartialSet(sys.reactors) {
        assert id in sys.reactors;
      }
      SubsetSize(CompletedSet(sys.reactors), PartialSet(sys.reactors));
    }
  }

  /**
   No lost approval: once `m` admitted approving reactions have run to their end, the row is
   approved, or it was approved and then cleaned up, whatever the interleaving.
   */
  lemma ThresholdIsNeverLost(x: TxnId, sys: System, events: seq<Event>, m: nat) returns (h: nat)
    requires 1 < m && Fresh(sys, m) && RegularRun(x, events) && ResolvingRun(events)
    requires m <= |CompletedSet(At(x, sys, events, |events|).reactors)|
    ensures h <= |events| && At(x, sys, events, h).row.Some? && At(x, sys, events, h).row.value.status == Approved
    ensures h == |events| || At(x, sys, events, h + 1).row.None?
  {
    hide Next, Tallied, CompletedSet;
    h := LastTallied(x, sys, events, m, true, |events|);
    RowOf(At(x, sys, events, h), m, true);
    if h == |events| {
      CompletedMeansApproved(At(x, sys, events, h), m);
    }
  }

  // ------------------------------------------------------------------
  // Only approvers get past the look-up.
  // ------------------------------------------------------------------

  /** Past a look-up that found the request open. */
  predicate Admitted(sys: System, id: ReactorId) {
    id in sys.reactors && (sys.reactors[id] == LookedUp || Counted(sys.reactors[id]))
  }

  lemma AdmissionStep(x: TxnId, sys: System, ev: Event, id: ReactorId)
    requires Admitted(Next(x, sys, ev), id) && !Admitted(sys, id)
    ensures ev.LookUp? && ev.id == id && ev.ok && Open(sys.row)
    ensures ev.user.None? || ev.allowed == [] || ev.user.value in ev.allowed
  {
  }

  /**
   In every run, a handler that goes on, counts or resolves looked the request up while it was open, and its user
   was on the list that the look-up read, unless that list was empty or the user unidentified.
   */
  lemma {:induction false} AdmittedByTheList(x: TxnId, sys: System, events: seq<Event>, id: ReactorId, k: nat) returns (i: nat)
    requires k <= |events| && sys.reactors == map[] && Admitted(At(x, sys, events, k), id)
    ensures i < k && events[i].LookUp? && events[i].id == id && events[i].ok && Open(At(x, sys, events, i).row)
    ensures events[i].user.None? || events[i].allowed == [] || events[i].user.value in events[i].allowed
  {
    hide Next;
    if Admitted(At(x, sys, events, k - 1), id) {
      i := AdmittedByTheList(x, sys, events, id, k - 1);
    } else {
      AdmissionStep(x, At(x, sys, events, k - 1), events[k - 1], id);
      i := k - 1;
    }
  }

  // ------------------------------------------------------------------
  // Denials, expiries, deletions and reservations admitted.
  // ------------------------------------------------------------------

  /** Statements of others that neither approve this request nor change its count or threshold. */
  predicate NotApproving(s: Step, x: TxnId) {
    !Concerns(s, x) ||
    (match s
     case Resolve(_, status, _, _) => status != Approved
     case ResolveAsEndUser(_, status, _, _) => status != Approved
     case ClaimForGrant(_, _) => false
     case IncrementCount(_) => false
     case SetMatrix(_, _, _, _) => false
     case _ => true)
  }

  predicate Answered(ev: Event, x: TxnId) {
    && (ev.Increment? ==> ev.reply == Done)
    && (ev.Read? ==> ev.ok)
    && (ev.Statement? ==> NotApproving(ev.s, x))
  }

  ghost predicate AnsweredRun(x: TxnId, events: seq<Event>) {
    forall k :: 0 <= k < |events| ==> Answered(events[k], x)
  }

  /** The safety half of the tally, which does not care whether the row is pending, denied, expired or reserved. */
  ghost predicate Guarded(sys: System, m: nat) {
    && sys.row.Some? && sys.row.value.minApprovals == m && sys.row.value.approvalCount == |sys.counted|
    && (sys.row.value.status == Approved ==> m <= |sys.counted|)
    && sys.counted <= sys.reactors.Keys
    && (forall id :: id in sys.reactors ==> (id in sys.counted <==> Counted(sys.reactors[id])))
    && (forall id :: id in sys.reactors && sys.reactors[id] == Passed ==> m <= |sys.counted|)
  }

  lemma NotApprovingRow(x: TxnId, row: Row, s: Step)
    requires NotApproving(s, x) && RowStep(x, Some(row), s).Some?
    ensures var r := RowStep(x, Some(row), s).value;
            && r.approvalCount == row.approvalCount && r.minApprovals == row.minApprovals
            && (r.status == Approved ==> row.status == Approved)
  {
  }

  lemma GuardedIncrement(x: TxnId, sys: System, id: ReactorId, m: nat)
    requires Guarded(sys, m)
    ensures Guarded(Next(x, sys, Increment(id, Done)), m)
  {
    if InStage(sys.reactors, id, LookedUp) {
      assert id !in sys.counted;
      assert |sys.counted + {id}| == |sys.counted| + 1;
    }
  }

  lemma GuardedHandler(x: TxnId, sys: System, ev: Event, m: nat)
    requires 1 < m && Guarded(sys, m) && Answered(ev, x) && !ev.Statement?
    ensures Guarded(Next(x, sys, ev), m)
  {
    if ev.Increment? {
      GuardedIncrement(x, sys, ev.id, m);
    } else {
      assert Next(x, sys, ev).counted == sys.counted;
    }
  }

  lemma GuardedStep(x: TxnId, sys: System, ev: Event, m: nat)
    requires 1 < m && Guarded(sys, m) && Answered(ev, x) && Next(x, sys, ev).row.Some?
    ensures Guarded(Next(x, sys, ev), m)
  {
    if ev.Statement? {
      NotApprovingRow(x, sys.row.value, ev.s);
    } else {
      GuardedHandler(x, sys, ev, m);
    }
  }

  lemma {:induction false} GuardedUntilRemoved(x: TxnId, sys: System, events: seq<Event>, m: nat, k: nat)
    requires 1 < m && Fresh(sys, m) && AnsweredRun(x, events) && k <= |events|
    requires forall i :: 0 <= i <= k ==> At(x, sys, events, i).row.Some?
    ensures Guarded(At(x, sys, events, k), m)
  {
    if k > 0 {
      hide Next, Guarded;
      GuardedUntilRemoved(x, sys, events, m, k - 1);
      assert At(x, sys, events, k).row.Some?;
      GuardedStep(x, At(x, sys, events, k - 1), events[k - 1], m);
    }
  }

  /**
   Whatever others do short of approving, an approval of the transaction means that increments of `m`
   different handlers hit its row, or that there was a moment without the row.
   */
  lemma ApprovedOnlyAtThresholdOrRemoved(x: TxnId, sys: System, events: seq<Event>, m: nat)
    requires 1 < m && Fresh(sys, m) && AnsweredRun(x, events)
    requires var end := At(x, sys, events, |events|); end.row.Some? && end.row.value.status == Approved
    ensures m <= |At(x, sys, events, |events|).counted| || exists k :: 0 <= k < |events| && At(x, sys, events, k).row.None?
  {
    hide Next;
    var end := At(x, sys, events, |events|);
    if exists k :: 0 <= k < |events| && At(x, sys, events, k).row.None? {
      var k :| 0 <= k < |events| && At(x, sys, events, k).row.None?;
      assert At(x, sys, events, k).row.None?;
    } else {
      GuardedUntilRemoved(x, sys, events, m, |events|);
      assert m <= |end.counted|;
    }
  }

  // ------------------------------------------------------------------
  // The conditions are exact.
  // ------------------------------------------------------------------

  /** What lets a team approval through to the row: none there, one already approved, or an unreserved pending one. */
  predicate Approvable(row: Option<Row>) {
    row.None? || row.value.status == Approved || (row.value.status == Pending && row.value.requiredEndUser.None?)
  }

  predicate IsApproved(row: Option<Row>) {
    row.Some? && row.value.status == Approved
  }

  /**
   Exactly when a handler that has looked its row up and runs through leaves the transaction approved,
   from every state: the row is gone or approved already, or it is open and either the threshold is
   reached by this increment or the increment or its read-back was not answered.
   */
  lemma HandlerApprovesIff(x: TxnId, sys: System, id: ReactorId, reply: Reply, ok: bool, user: Option<string>, now: Time)
    requires InStage(sys.reactors, id, LookedUp)
    ensures var end := At(x, sys, [Increment(id, reply), Read(id, ok), Conclude(id, user, now, Done)], 3);
            var row := sys.row;
            IsApproved(end.row) <==>
              || row.None? || row.value.status == Approved
              || (row.value.status == Pending && row.value.requiredEndUser.None? &&
                  (reply != Done || !ok || row.value.minApprovals <= row.value.approvalCount + 1))
  {
    var events := [Increment(id, reply), Read(id, ok), Conclude(id, user, now, Done)];
    assert At(x, sys, events, 0) == sys;
    var one := At(x, sys, events, 1);
    assert InStage(one.reactors, id, if reply == Done then Incremented else Passed);
    var two := At(x, sys, events, 2);
    assert InStage(two.reactors, id, if reply == Done && ok && Short(one.row) then Partial else Passed);
    assert two.row == one.row;
  }

  /** In particular, below the threshold of an open row: exactly when the increment or its read-back was not answered. */
  lemma ApprovesBelowThresholdIffUnanswered(x: TxnId, sys: System, id: ReactorId, reply: Reply, ok: bool, user: Option<string>, now: Time)
    requires InStage(sys.reactors, id, LookedUp)
    requires Open(sys.row) && sys.row.value.requiredEndUser.None? && sys.row.value.approvalCount + 1 < sys.row.value.minApprovals
    ensures var end := At(x, sys, [Increment(id, reply), Read(id, ok), Conclude(id, user, now, Done)], 3);
            IsApproved(end.row) <==> reply != Done || !ok
  {
    HandlerApprovesIff(x, sys, id, reply, ok, user, now);
  }

  /** One reaction whose increment fails approves a fresh request, for every threshold. */
  lemma FailedIncrementApproves(x: TxnId, sys: System, m: nat)
    requires 1 < m && Fresh(sys, m)
    ensures var end := At(x, sys, [React(0), LookUp(0, true, None, []), Increment(0, Failed), Conclude(0, None, 0, Done)], 4);
            end.row.Some? && end.row.value.status == Approved && end.row.value.approvalCount == 0
  {
    var ev := [React(0), LookUp(0, true, None, []), Increment(0, Failed), Conclude(0, None, 0, Done)];
    assert InStage(At(x, sys, ev, 1).reactors, 0, Reacted);
    assert InStage(At(x, sys, ev, 2).reactors, 0, LookedUp);
    assert InStage(At(x, sys, ev, 3).reactors, 0, Passed);
  }

  // ------------------------------------------------------------------
  // One handler as a program, and as a run of the event system.
  // ------------------------------------------------------------------

  /** Who reacted, how each statement went, and what others ran before it. */
  datatype Reaction = Reaction(
    user: Option<string>,
    now: Time,
    lookUpOk: bool,
    beforeIncrement: seq<Step>,
    increment: Reply,
    beforeRead: seq<Step>,
    readOk: bool,
    beforeResolve: seq<Step>,
    resolve: Reply)

  /** The approver list that a row stores, as the handler reads it; `parse` yields the empty list for unreadable text. */
  function StoredList(row: Row, parse: string -> seq<string>): seq<string> {
    if row.matrix.None? then []
    else
      var json := row.matrix.value.allowedApproversJson;
      if json == "" || json == "[]" then [] else parse(json)
  }

  function Admission(t: Table, x: TxnId, parse: string -> seq<string>, r: Reaction): Stage {
    if !r.lookUpOk then Refused
    else if !Open(Lookup(t, x)) then Ignored
    else if !Permitted(r.user, StoredList(t[x], parse)) then Refused
    else if t[x].minApprovals > 1 then LookedUp
    else Passed
  }

  /** The table when an admitted handler decides whether to go on. */
  function CountedTable(t: Table, x: TxnId, counts: bool, r: Reaction): Table {
    var ready := Approvals.Run(t, r.beforeIncrement);
    Approvals.Run(if counts && r.increment != Failed then Apply(ready, IncrementCount(x)) else ready, r.beforeRead)
  }

  predicate GivesUp(t: Table, x: TxnId, r: Reaction) {
    r.increment == Done && r.readOk && Short(Lookup(t, x))
  }

  function ResolvedTable(t: Table, x: TxnId, r: Reaction): Table {
    var last := Approvals.Run(t, r.beforeResolve);
    if r.resolve == Failed then last else Apply(last, Resolve(x, Approved, r.user, r.now))
  }

  /** How a reaction ends, and the table it leaves. */
  function Handled(t: Table, x: TxnId, parse: string -> seq<string>, r: Reaction): (Stage, Table) {
    var admission := Admission(t, x, parse, r);
    if admission == Refused || admission == Ignored then (admission, t)
    else
      var counted := CountedTable(t, x, admission == LookedUp, r);
      if admission == LookedUp && GivesUp(counted, x, r) then (Partial, counted)
      else (Finished, ResolvedTable(counted, x, r))
  }

  function Statements(steps: seq<Step>): seq<Event> {
    seq(|steps|, i requires 0 <= i < |steps| => Statement(steps[i]))
  }

  function LookUpEvents(t: Table, x: TxnId, parse: string -> seq<string>, r: Reaction): seq<Event> {
    [React(0)] + [LookUp(0, r.lookUpOk, r.user, if x in t then StoredList(t[x], parse) else [])]
  }

  function CountEvents(r: Reaction): seq<Event> {
    Statements(r.beforeIncrement) + [Increment(0, r.increment)] + Statements(r.beforeRead) + [Read(0, r.readOk)]
  }

  function ResolveEvents(r: Reaction): seq<Event> {
    Statements(r.beforeResolve) + [Conclude(0, r.user, r.now, r.resolve)]
  }

  /** The events of a reaction up to the one that ends it. */
  function EventsOf(t: Table, x: TxnId, parse: string -> seq<string>, r: Reaction): seq<Event> {
    var stage := Handled(t, x, parse, r).0;
    LookUpEvents(t, x, parse, r)
    + (if stage == Partial || stage == Finished then CountEvents(r) else [])
    + (if stage == Finished then ResolveEvents(r) else [])
  }

  /** The system after a whole run. */
  function Run(x: TxnId, sys: System, events: seq<Event>): System {
    At(x, sys, events, |events|)
  }

  lemma {:induction false} PrefixDecides(x: TxnId, sys: System, a: seq<Event>, b: seq<Event>, k: nat)
    requires k <= |a|
    ensures At(x, sys, a + b, k) == At(x, sys, a, k)
  {
    hide Next;
    if k > 0 {
      PrefixDecides(x, sys, a, b, k - 1);
    }
  }

  lemma RunAppend(x: TxnId, sys: System, events: seq<Event>, ev: Event)
    ensures Run(x, sys, events + [ev]) == Next(x, Run(x, sys, events), ev)
  {
    hide Next;
    PrefixDecides(x, sys, events, [ev], |events|);
  }

  lemma {:induction false} RunConcat(x: TxnId, sys: System, a: seq<Event>, b: seq<Event>)
    ensures Run(x, sys, a + b) == Run(x, Run(x, sys, a), b)
  {
    hide Next;
    if b == [] {
      assert a + b == a;
    } else {
      var init, last := b[..|b| - 1], b[|b| - 1];
      RunConcat(x, sys, a, init);
      assert a + b == (a + init) + [last] && b == init + [last];
      RunAppend(x, sys, a + init, last);
      RunAppend(x, Run(x, sys, a), init, last);
    }
  }

  /** Statements of others act on the row as they do in the table. */
  lemma {:induction false} StatementsRun(x: TxnId, sys: System, steps: seq<Step>)
    ensures Run(x, sys, Statements(steps)) == sys.(row := RunRow(x, sys.row, steps))
  {
    if steps != [] {
      hide RowStep;
      var init, last := steps[..|steps| - 1], steps[|steps| - 1];
      StatementsRun(x, sys, init);
      assert Statements(steps) == Statements(init) + [Statement(last)];
      RunAppend(x, sys, Statements(init), Statement(last));
    }
  }

  lemma LookUpRun(t: Table, x: TxnId, parse: string -> seq<string>, r: Reaction)
    ensures Run(x, System(Lookup(t, x), map[], {}), LookUpEvents(t, x, parse, r)) ==
              System(Lookup(t, x), map[0 := Admission(t, x, parse, r)], {})
  {
    hide Run;
    var sys := System(Lookup(t, x), map[], {});
    var look := LookUp(0, r.lookUpOk, r.user, if x in t then StoredList(t[x], parse) else []);
    assert Run(x, sys, []) == sys by { NothingRun(x, sys); }
    RunAppend(x, sys, [], React(0));
    assert [] + [React(0)] == [React(0)];
    RunAppend(x, sys, [React(0)], look);
    assert map[0 := Reacted][0 := Admission(t, x, parse, r)] == map[0 := Admission(t, x, parse, r)];
  }

  lemma NothingRun(x: TxnId, sys: System)
    ensures Run(x, sys, []) == sys
  {
  }

  /** A statement on `x` and on the table agree. */
  lemma OneStatement(t: Table, s: Step, x: TxnId)
    ensures Lookup(Apply(t, s), x) == RowStep(x, Lookup(t, x), s)
  {
  }

  lemma CountRun(t: Table, x: TxnId, admission: Stage, r: Reaction)
    requires admission == LookedUp || admission == Passed
    ensures var end := Run(x, System(Lookup(t, x), map[0 := admission], {}), CountEvents(r));
            var counted := CountedTable(t, x, admission == LookedUp, r);
            && end.row == Lookup(counted, x)
            && end.reactors == map[0 := if admission == LookedUp && GivesUp(counted, x, r) then Partial else Passed]
  {
    hide Run, RowStep, RunRow, Approvals.Run, Apply;
    var sys := System(Lookup(t, x), map[0 := admission], {});
    var ready := Approvals.Run(t, r.beforeIncrement);
    RunIsPerRow(t, r.beforeIncrement, x);
    StatementsRun(x, sys, r.beforeIncrement);
    RunAppend(x, sys, Statements(r.beforeIncrement), Increment(0, r.increment));
    OneStatement(ready, IncrementCount(x), x);
    var first := Statements(r.beforeIncrement) + [Increment(0, r.increment)];
    var bumped := if admission == LookedUp && r.increment != Failed then Apply(ready, IncrementCount(x)) else ready;
    var stage := if admission == LookedUp && r.increment == Done then Incremented else Passed;
    assert Run(x, sys, first).row == Lookup(bumped, x) && Run(x, sys, first).reactors == map[0 := stage];
    RunConcat(x, sys, first, Statements(r.beforeRead));
    StatementsRun(x, Run(x, sys, first), r.beforeRead);
    RunIsPerRow(bumped, r.beforeRead, x);
    RunAppend(x, sys, first + Statements(r.beforeRead), Read(0, r.readOk));
  }

  lemma ResolveRun(t: Table, x: TxnId, sys: System, r: Reaction)
    requires sys.row == Lookup(t, x) && sys.reactors == map[0 := Passed]
    ensures var end := Run(x, sys, ResolveEvents(r));
            end.row == Lookup(ResolvedTable(t, x, r), x) && end.reactors == map[0 := Finished]
  {
    hide Run, RowStep, RunRow, Approvals.Run, Apply;
    var last := Approvals.Run(t, r.beforeResolve);
    StatementsRun(x, sys, r.beforeResolve);
    RunIsPerRow(t, r.beforeResolve, x);
    RunAppend(x, sys, Statements(r.beforeResolve), Conclude(0, r.user, r.now, r.resolve));
    OneStatement(last, Resolve(x, Approved, r.user, r.now), x);
  }

  /** What a reaction does to its row, and how it ends, is a run of the event system. */
  lemma HandledIsARun(t: Table, x: TxnId, parse: string -> seq<string>, r: Reaction)
    ensures var end := Run(x, System(Lookup(t, x), map[], {}), EventsOf(t, x, parse, r));
            var (stage, after) := Handled(t, x, parse, r);
            end.row == Lookup(after, x) && end.reactors == map[0 := stage]
  {
    hide Run, Permitted, StoredList, Approvals.Run, Apply, LookUpEvents, CountEvents, ResolveEvents, CountedTable, ResolvedTable, GivesUp;
    var sys := System(Lookup(t, x), map[], {});
    var admission := Admission(t, x, parse, r);
    var look, count := LookUpEvents(t, x, parse, r), CountEvents(r);
    LookUpRun(t, x, parse, r);
    var stage := Handled(t, x, parse, r).0;
    if stage == Refused || stage == Ignored {
      assert EventsOf(t, x, parse, r) == look;
    } else {
      CountRun(t, x, admission, r);
      RunConcat(x, sys, look, count);
      if stage == Partial {
        assert EventsOf(t, x, parse, r) == look + count;
      } else {
        ResolveRun(CountedTable(t, x, admission == LookedUp, r), x, Run(x, sys, look + count), r);
        RunConcat(x, sys, look + count, ResolveEvents(r));
      }
    }
  }

  /** A user whom the stored list leaves out is refused, and nothing changes. */
  lemma UnlistedUserIsRefused(t: Table, x: TxnId, parse: string -> seq<string>, r: Reaction)
    requires x in t && t[x].status == Pending && t[x].matrix.Some? && r.user.Some?
    requires var json := t[x].matrix.value.allowedApproversJson;
             json != "" && json != "[]" && parse(json) != [] && r.user.value !in parse(json)
    ensures Handled(t, x, parse, r) == (Refused, t)
  {
  }

  /** Nobody else is: with a working look-up of an open request, a refusal means that the stored list left the user out. */
  lemma OnlyUnlistedUsersAreRefused(t: Table, x: TxnId, parse: string -> seq<string>, r: Reaction)
    requires x in t && t[x].status == Pending && t[x].matrix.Some? && r.lookUpOk && Handled(t, x, parse, r).0 == Refused
    ensures var json := t[x].matrix.value.allowedApproversJson;
            r.user.Some? && json != "" && json != "[]" && parse(json) != [] && r.user.value !in parse(json)
  {
  }

  lemma ApprovedAfterResolve(t: Table, x: TxnId, r: Reaction)
    ensures IsApproved(Lookup(ResolvedTable(t, x, r), x)) <==>
              var last := Lookup(Approvals.Run(t, r.beforeResolve), x);
              if r.resolve == Failed then IsApproved(last) else Approvable(last)
  {
    hide Approvals.Run, Apply;
    var last := Approvals.Run(t, r.beforeResolve);
    TeamApprovalIff(last, x, r.user, r.now);
  }

  /**
   The same for a whole admitted reaction, with others' statements in every gap: it ends approved exactly
   when it found the threshold reached or no answer and then a row open to it, or found the row approved.
   */
  lemma ReactionApprovesIff(t: Table, x: TxnId, parse: string -> seq<string>, r: Reaction)
    requires Admission(t, x, parse, r) == LookedUp
    ensures var counted := CountedTable(t, x, true, r);
            var last := Lookup(Approvals.Run(counted, r.beforeResolve), x);
            IsApproved(Lookup(Handled(t, x, parse, r).1, x)) <==>
              if GivesUp(counted, x, r) then IsApproved(Lookup(counted, x))
              else if r.resolve == Failed then IsApproved(last)
              else Approvable(last)
  {
    hide Approvals.Run, Apply, CountedTable, ResolvedTable, GivesUp, StoredList;
    ApprovedAfterResolve(CountedTable(t, x, true, r), x, r);
  }

  /** A request that needs one approval is resolved by the first admitted reaction, without touching its count. */
  lemma SingleApprovalResolves(t: Table, x: TxnId, parse: string -> seq<string>, r: Reaction)
    requires x in t && t[x].status == Pending && t[x].matrix.Some? && t[x].minApprovals <= 1 && r.lookUpOk
    requires Handled(t, x, parse, r).0 != Refused && r.resolve != Failed
    requires r.beforeIncrement == [] && r.beforeRead == [] && r.beforeResolve == []
    ensures Handled(t, x, parse, r) == (Finished, Apply(t, Resolve(x, Approved, r.user, r.now)))
  {
  }

  /** A row that goes away under a handler is approved by it: nothing is found at the read, and the resolve inserts. */
  lemma RemovedRowIsApproved(t: Table, x: TxnId, parse: string -> seq<string>, r: Reaction)
    requires Admission(t, x, parse, r) == LookedUp && r.resolve != Failed
    requires r.beforeRead == [] && r.beforeResolve == [] && x !in Approvals.Run(t, r.beforeIncrement)
    ensures IsApproved(Lookup(Handled(t, x, parse, r).1, x))
  {
    hide StoredList;
    ReactionApprovesIff(t, x, parse, r);
    var gone := Approvals.Run(t, r.beforeIncrement);
    assert Apply(gone, IncrementCount(x)) == gone;
    assert CountedTable(t, x, true, r) == gone;
  }

  /** So a denied or timed-out request ends approved if it is cleaned up between a handler's look-up and its increment. */
  lemma PurgedDecisionIsApproved(t: Table, x: TxnId, parse: string -> seq<string>, r: Reaction, decide: Step, now: Time)
    requires Admission(t, x, parse, r) == LookedUp && r.resolve != Failed && t[x].expiresAt < now
    requires decide.Resolve? && decide.txn == x && (decide.status == Denied || decide.status == Expired)
    requires r.beforeIncrement == [decide, Cleanup(now)] && r.beforeRead == [] && r.beforeResolve == []
    ensures IsApproved(Lookup(Handled(t, x, parse, r).1, x))
  {
    hide StoredList, Handled;
    RunIsPerRow(t, r.beforeIncrement, x);
    assert r.beforeIncrement[..1] == [decide] && [decide][..0] == [];
    var decided := RunRow(x, Lookup(t, x), [decide]);
    assert decided == RowStep(x, RunRow(x, Lookup(t, x), []), decide);
    assert Lookup(t, x) == Some(t[x]) && t[x].status == Pending;
    assert RunRow(x, Lookup(t, x), []) == Lookup(t, x);
    assert Matches(t[x], decide);
    assert decided == Some(t[x].(status := decide.status, resolvedBy := Coalesce(decide.resolver, t[x].resolvedBy)));
    assert RunRow(x, Lookup(t, x), r.beforeIncrement) == RowStep(x, decided, Cleanup(now));
    RemovedRowIsApproved(t, x, parse, r);
  }

  /** ... and so does a request that is deleted there. */
  lemma DeletionBypassesThreshold(t: Table, x: TxnId, parse: string -> seq<string>, r: Reaction)
    requires Admission(t, x, parse, r) == LookedUp && r.resolve != Failed
    requires r.beforeIncrement == [Delete(x)] && r.beforeRead == [] && r.beforeResolve == []
    ensures IsApproved(Lookup(Handled(t, x, parse, r).1, x))
  {
    hide StoredList, Handled;
    RunIsPerRow(t, r.beforeIncrement, x);
    assert [Delete(x)][..0] == [];
    RemovedRowIsApproved(t, x, parse, r);
  }

  class MatrixChannel {
    const store: PendingApprovalStore

    constructor (store: PendingApprovalStore)
      ensures this.store == store
    {
      this.store := store;
    }

    /** The handler of one approving reaction, statement by statement. */
    method ApproveFromDatabase(x: TxnId, parse: string -> seq<string>, r: Reaction) returns (stage: Stage)
      modifies store
      ensures (stage, store.rows) == Handled(old(store.rows), x, parse, r)
      ensures stage == Refused || stage == Ignored ==> store.rows == old(store.rows)
      ensures r.lookUpOk ==>
                (stage == Ignored <==> !(x in old(store.rows) && old(store.rows)[x].status == Pending && old(store.rows)[x].matrix.Some?))
      ensures r.lookUpOk && stage != Ignored ==>
                var json := old(store.rows)[x].matrix.value.allowedApproversJson;
                stage == Refused <==>
                  r.user.Some? && json != "" && json != "[]" && parse(json) != [] && r.user.value !in parse(json)
    {
      if !r.lookUpOk {
        return Refused;
      }
      if x !in store.rows || store.rows[x].matrix.None? || store.rows[x].status != Pending {
        return Ignored;
      }
      var row := store.rows[x];
      if r.user.Some? && row.matrix.value.allowedApproversJson != "" && row.matrix.value.allowedApproversJson != "[]" {
        var allowed := parse(row.matrix.value.allowedApproversJson);
        if allowed != [] && r.user.value !in allowed {
          return Refused;
        }
      }
      store.Interleave(r.beforeIncrement);
      if row.minApprovals > 1 && r.increment != Failed {
        var counts := store.IncrementPendingApprovalCount(x, r.beforeRead);
        if r.increment == Done && r.readOk && counts.Some? && counts.value.0 < counts.value.1 {
          return Partial;
        }
      } else {
        store.Interleave(r.beforeRead);
      }
      store.Interleave(r.beforeResolve);
      if r.resolve != Failed {
        var _ := store.ResolvePendingApproval(x, Approved, r.user, r.now);
      }
      return Finished;
    }
  }
}
