/**
 The Telegram channel together with the stored row: after a callback has signalled its waiter
 it persists its decision, the waiter also polls the row, and any other statement may run on
 the table. A press that finds no entry in memory, because the request is held elsewhere or was
 just decided, is not counted against any threshold.
 */
module TelegramPersistence {
  import opened Options
  import opened Replies
  import opened TelegramWaiter
  import A = Approvals

  /**
   `unheld` are the approve callbacks that found no entry to count, `toPersist` those that have
   signalled and not yet persisted, and `elsewhere` the requests approved by other statements.
   */
  datatype Channel = Channel(
    sys: System,
    table: A.Table,
    unheld: set<CallbackId>,
    toPersist: set<CallbackId>,
    elsewhere: set<Id>)

  datatype Step =
    | Local(ev: Event)
    | Persist(callback: CallbackId, reply: Reply, now: A.Time)
    | Statement(s: A.Step)

  /** What polling the row tells: a missing or pending row is no decision. */
  function PersistedDecision(t: A.Table, id: Id): Option<Decision> {
    if id !in t then None
    else match t[id].status
      case Approved => Some(Approved)
      case Denied => Some(Denied)
      case Expired => Some(Timeout)
      case Pending => None
  }

  lemma PollTells(t: A.Table, id: Id)
    ensures PersistedDecision(t, id) == Some(Approved) <==> id in t && t[id].status == A.Approved
    ensures PersistedDecision(t, id) == Some(Denied) <==> id in t && t[id].status == A.Denied
    ensures PersistedDecision(t, id) == Some(Timeout) <==> id in t && t[id].status == A.Expired
  {
  }

  function Resolution(cb: Callback, now: A.Time): A.Step {
    A.Resolve(cb.id, if cb.action == Approve then A.Approved else A.Denied, cb.user, now)
  }

  predicate IsApproved(t: A.Table, id: Id) {
    id in t && t[id].status == A.Approved
  }

  function NewlyApproved(before: A.Table, after: A.Table): set<Id> {
    set id | id in after && IsApproved(after, id) && !IsApproved(before, id)
  }

  function LocalNext(c: Channel, ev: Event): Channel {
    if ev.EndOnStore? && PersistedDecision(c.table, ev.id) != Some(ev.decision) then c
    else c.(
      sys := Next(c.sys, ev),
      unheld := if ev.Count? && InStage(c.sys, ev.callback, Checked) && c.sys.callbacks[ev.callback].id !in c.sys.memory.pending
                then c.unheld + {ev.callback} else c.unheld,
      toPersist := if ev.Resolve? && InStage(c.sys, ev.callback, Passed) then c.toPersist + {ev.callback} else c.toPersist)
  }

  function Advance(c: Channel, step: Step): Channel {
    match step
    case Local(ev) => LocalNext(c, ev)
    case Persist(cb, reply, now) =>
      if cb !in c.toPersist || cb !in c.sys.callbacks then c
      else c.(table := if reply == Failed then c.table else A.Apply(c.table, Resolution(c.sys.callbacks[cb], now)),
              toPersist := c.toPersist - {cb})
    case Statement(s) =>
      var after := A.Apply(c.table, s);
      c.(table := after, elsewhere := c.elsewhere + NewlyApproved(c.table, after))
  }

  function ChannelAt(t: A.Table, steps: seq<Step>, k: nat): Channel
    requires k <= |steps|
  {
    if k == 0 then Channel(Run([]), t, {}, {}, NewlyApproved(map[], t))
    else Advance(ChannelAt(t, steps, k - 1), steps[k - 1])
  }

  // ------------------------------------------------------------------
  // Every approval has a reason.
  // ------------------------------------------------------------------

  /** The memory part keeps the invariants of the waiter. */
  ghost predicate MemoryInOrder(sys: System) {
    SentOnce(sys) && EntriesInStep(sys) && CallbacksInOrder(sys)
  }

  lemma MemoryStep(c: Channel, step: Step)
    requires MemoryInOrder(c.sys)
    ensures MemoryInOrder(Advance(c, step).sys)
  {
    hide Next, SentOnce, EntriesInStep, CallbacksInOrder;
    if step.Local? {
      SentOnceStep(c.sys, step.ev);
      EntriesInStepNext(c.sys, step.ev);
      CallbacksInOrderNext(c.sys, step.ev);
    }
  }

  /** An approve callback past the threshold block had enough accepted presses, or found no entry. */
  predicate Justified(c: Channel, cb: CallbackId)
    requires cb in c.sys.callbacks
  {
    Enough(c.sys, c.sys.callbacks[cb].id) || cb in c.unheld
  }

  predicate PastThreshold(c: Channel, cb: CallbackId) {
    cb in c.sys.callbacks && c.sys.callbacks[cb].action == Approve && (c.sys.callbacks[cb].stage == Passed || cb in c.toPersist)
  }

  ghost predicate PassesJustified(c: Channel) {
    forall cb :: PastThreshold(c, cb) ==> Justified(c, cb)
  }

  /** Callbacks are never forgotten, and a press stays what it was. */
  lemma CallbackIsFixed(sys: System, ev: Event, cb: CallbackId)
    requires cb in sys.callbacks
    ensures cb in Next(sys, ev).callbacks
    ensures Next(sys, ev).callbacks[cb].id == sys.callbacks[cb].id && Next(sys, ev).callbacks[cb].action == sys.callbacks[cb].action
  {
  }

  /** An approve callback passes only at its threshold block, with enough presses or without an entry. */
  lemma PassesAtThreshold(sys: System, ev: Event, cb: CallbackId)
    requires MemoryInOrder(sys) && InStage(Next(sys, ev), cb, Passed) && !InStage(sys, cb, Passed)
    requires Next(sys, ev).callbacks[cb].action == Approve
    ensures ev == Count(cb) && InStage(sys, cb, Checked)
    ensures sys.callbacks[cb].id in sys.memory.pending ==> Enough(Next(sys, ev), sys.callbacks[cb].id)
  {
    if cb in sys.callbacks {
      assert CallbackInOrder(sys, cb);
      var id := sys.callbacks[cb].id;
      if id in sys.memory.pending {
        assert EntryInStep(sys, id);
      }
    }
  }

  ghost predicate PersistsKnown(c: Channel) {
    c.toPersist <= c.sys.callbacks.Keys
  }

  lemma PersistsKnownStep(c: Channel, step: Step)
    requires PersistsKnown(c)
    ensures PersistsKnown(Advance(c, step))
  {
    hide Next;
    if step.Local? {
      forall cb | cb in c.sys.callbacks ensures cb in Next(c.sys, step.ev).callbacks {
        CallbackIsFixed(c.sys, step.ev, cb);
      }
    }
  }

  lemma LocalPassJustified(c: Channel, ev: Event, cb: CallbackId)
    requires MemoryInOrder(c.sys) && PassesJustified(c) && PersistsKnown(c) && PastThreshold(LocalNext(c, ev), cb)
    ensures Justified(LocalNext(c, ev), cb)
  {
    hide Next, MemoryInOrder, Enough;
    var after := LocalNext(c, ev);
    if after != c {
      if cb in c.sys.callbacks {
        CallbackIsFixed(c.sys, ev, cb);
        if Enough(c.sys, c.sys.callbacks[cb].id) {
          EnoughStays(c.sys, ev, c.sys.callbacks[cb].id);
        }
      }
      if !PastThreshold(c, cb) {
        assert InStage(after.sys, cb, Passed) && !InStage(c.sys, cb, Passed);
        PassesAtThreshold(c.sys, ev, cb);
      }
    }
  }

  lemma PassesJustifiedStep(c: Channel, step: Step)
    requires MemoryInOrder(c.sys) && PassesJustified(c) && PersistsKnown(c)
    ensures PassesJustified(Advance(c, step))
  {
    hide LocalNext, MemoryInOrder, Enough;
    forall cb | PastThreshold(Advance(c, step), cb) ensures Justified(Advance(c, step), cb) {
      if step.Local? {
        LocalPassJustified(c, step.ev, cb);
      } else {
        assert PastThreshold(c, cb);
      }
    }
  }

  /** Why a request may be approved in the table: another statement did it, or a justified press. */
  ghost predicate HasReason(c: Channel, id: Id) {
    id in c.elsewhere ||
    exists cb :: cb in c.sys.callbacks && c.sys.callbacks[cb].id == id && c.sys.callbacks[cb].action == Approve && Justified(c, cb)
  }

  lemma ReasonStays(c: Channel, step: Step, id: Id)
    requires HasReason(c, id)
    ensures HasReason(Advance(c, step), id)
  {
    hide Next, Enough, NewlyApproved;
    var after := Advance(c, step);
    if id !in c.elsewhere {
      var cb :| cb in c.sys.callbacks && c.sys.callbacks[cb].id == id && c.sys.callbacks[cb].action == Approve && Justified(c, cb);
      if step.Local? {
        CallbackIsFixed(c.sys, step.ev, cb);
        if Enough(c.sys, id) {
          EnoughStays(c.sys, step.ev, id);
        }
      }
      assert cb in after.sys.callbacks && after.sys.callbacks[cb].id == id && Justified(after, cb);
    }
  }

  ghost predicate ApprovalsHaveReasons(c: Channel) {
    && (forall id :: IsApproved(c.table, id) ==> HasReason(c, id))
    && (forall i :: 0 <= i < |c.sys.returned| && c.sys.returned[i].ending == FromStore(Approved) ==> HasReason(c, c.sys.returned[i].id))
  }

  /** A persisted decision approves only its own request, and only as an approval. */
  lemma PersistedApproval(t: A.Table, cb: Callback, now: A.Time, id: Id)
    requires IsApproved(A.Apply(t, Resolution(cb, now)), id) && !IsApproved(t, id)
    ensures id == cb.id && cb.action == Approve
  {
  }

  lemma RowReasonStep(c: Channel, step: Step, id: Id)
    requires PassesJustified(c) && PersistsKnown(c) && (forall x :: IsApproved(c.table, x) ==> HasReason(c, x))
    requires IsApproved(Advance(c, step).table, id)
    ensures HasReason(Advance(c, step), id)
  {
    hide Next, A.Apply, Enough, HasReason;
    if IsApproved(c.table, id) {
      ReasonStays(c, step, id);
    } else if step.Persist? {
      PersistReason(c, step, id);
    } else {
      StatementReason(c, step, id);
    }
  }

  lemma PersistReason(c: Channel, step: Step, id: Id)
    requires PassesJustified(c) && PersistsKnown(c) && step.Persist?
    requires IsApproved(Advance(c, step).table, id) && !IsApproved(c.table, id)
    ensures HasReason(Advance(c, step), id)
  {
    hide A.Apply, Enough;
    var cb := step.callback;
    PersistedApproval(c.table, c.sys.callbacks[cb], step.now, id);
    assert PastThreshold(c, cb);
    assert Justified(Advance(c, step), cb);
  }

  lemma StatementReason(c: Channel, step: Step, id: Id)
    requires !step.Persist? && IsApproved(Advance(c, step).table, id) && !IsApproved(c.table, id)
    ensures HasReason(Advance(c, step), id)
  {
    hide A.Apply, Next, Enough;
  }

  /** A wait ends on the store only with what the row says. */
  lemma ReturnedFromStore(c: Channel, step: Step, i: nat)
    requires i < |Advance(c, step).sys.returned| && Advance(c, step).sys.returned[i].ending == FromStore(Approved)
    ensures || (i < |c.sys.returned| && c.sys.returned[i] == Advance(c, step).sys.returned[i])
            || IsApproved(c.table, Advance(c, step).sys.returned[i].id)
  {
    hide A.Apply, NewlyApproved;
  }

  lemma ReasonsStep(c: Channel, step: Step)
    requires PassesJustified(c) && PersistsKnown(c) && ApprovalsHaveReasons(c)
    ensures ApprovalsHaveReasons(Advance(c, step))
  {
    hide Advance, HasReason, PassesJustified, PersistsKnown;
    var after := Advance(c, step);
    forall id | IsApproved(after.table, id) ensures HasReason(after, id) {
      RowReasonStep(c, step, id);
    }
    forall i | 0 <= i < |after.sys.returned| && after.sys.returned[i].ending == FromStore(Approved)
      ensures HasReason(after, after.sys.returned[i].id)
    {
      ReturnedFromStore(c, step, i);
      ReasonStays(c, step, after.sys.returned[i].id);
    }
  }

  ghost predicate InOrder(c: Channel) {
    MemoryInOrder(c.sys) && PassesJustified(c) && PersistsKnown(c) && ApprovalsHaveReasons(c)
  }

  lemma StartsInOrder(t: A.Table)
    ensures InOrder(ChannelAt(t, [], 0))
  {
  }

  lemma {:induction false} AlwaysInOrder(t: A.Table, steps: seq<Step>, k: nat)
    requires k <= |steps|
    ensures InOrder(ChannelAt(t, steps, k))
  {
    if k == 0 {
      StartsInOrder(t);
    } else {
      hide Advance, MemoryInOrder, PassesJustified, PersistsKnown, ApprovalsHaveReasons;
      AlwaysInOrder(t, steps, k - 1);
      var c := ChannelAt(t, steps, k - 1);
      MemoryStep(c, steps[k - 1]);
      PassesJustifiedStep(c, steps[k - 1]);
      PersistsKnownStep(c, steps[k - 1]);
      ReasonsStep(c, steps[k - 1]);
    }
  }

  /**
   A wait that returns Approved from the store: the row was approved by some other statement, or by an
   approve press that had the posted number of accepted presses behind it or found no entry to count.
   */
  lemma StoreApprovalHasReason(t: A.Table, steps: seq<Step>, i: nat)
    requires var sys := ChannelAt(t, steps, |steps|).sys;
             i < |sys.returned| && sys.returned[i].ending == FromStore(Approved)
    ensures var c := ChannelAt(t, steps, |steps|); HasReason(c, c.sys.returned[i].id)
  {
    hide Advance, MemoryInOrder, PassesJustified, PersistsKnown, HasReason;
    AlwaysInOrder(t, steps, |steps|);
  }

  // ------------------------------------------------------------------
  // A press without an entry.
  // ------------------------------------------------------------------

  /**
   An approve press that finds no entry is never partial, whatever threshold was posted: it persists an
   approval, and the row ends approved exactly when it was missing, approved, or pending and unreserved.
   */
  lemma UnheldPressApprovesIff(c: Channel, cb: CallbackId, now: A.Time)
    requires InStage(c.sys, cb, Checked) && c.sys.callbacks[cb].action == Approve
    requires c.sys.callbacks[cb].id !in c.sys.memory.pending
    ensures var end := Advance(Advance(Advance(c, Local(Count(cb))), Local(Resolve(cb))), Persist(cb, Done, now));
            var id := c.sys.callbacks[cb].id;
            IsApproved(end.table, id) <==>
              || id !in c.table || c.table[id].status == A.Approved
              || (c.table[id].status == A.Pending && c.table[id].requiredEndUser.None?)
    ensures !StillPartial(Counted(c.sys.memory, c.sys.callbacks[cb].id), c.sys.callbacks[cb].id)
  {
    hide A.Apply;
    var call := c.sys.callbacks[cb];
    var counted := Advance(c, Local(Count(cb)));
    assert InStage(counted.sys, cb, Passed) && counted.table == c.table && counted.sys.callbacks[cb] == call.(stage := Passed);
    var signalled := Advance(counted, Local(Resolve(cb)));
    assert cb in signalled.toPersist && signalled.table == c.table && signalled.sys.callbacks[cb] == call.(stage := Stopped);
    A.TeamApprovalIff(c.table, call.id, call.user, now);
  }
}
