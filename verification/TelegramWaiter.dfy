/**
 The Telegram channel on the instance that holds a request: the `pending` and
 `receivers` maps, each lock-protected block of the callback handler as one atomic
 step, and the one-shot channel to the waiter. Callbacks interleave at lock boundaries.
 */
module TelegramWaiter {
  import opened Options
  import opened Replies
  import A = Approvals
  import S = ApprovalStore

  type Id = string
  type CallbackId = nat

  datatype Decision = Approved | Denied | Timeout

  datatype Entry = Entry(allowedApprovers: seq<string>, approvalCount: nat, minApprovals: nat)

  /** Which resolver sent a decision: an approve or deny button, the grant button, or another surface. */
  datatype Cause = Button | GrantButton | Bridge
  datatype Sent = Sent(id: Id, decision: Decision, cause: Cause)

  /** `mailbox` holds what was sent on a request's one-shot channel. */
  datatype Memory = Memory(pending: map<Id, Entry>, receivers: set<Id>, mailbox: map<Id, Sent>)

  // ------------------------------------------------------------------
  // The lock-protected blocks.
  // ------------------------------------------------------------------

  function Registered(m: Memory, id: Id): Memory {
    m.(pending := m.pending[id := Entry([], 0, 1)], receivers := m.receivers + {id})
  }

  function Configured(m: Memory, id: Id, allowed: seq<string>, min: nat): Memory {
    if id !in m.pending then m
    else
      var e := m.pending[id];
      m.(pending := m.pending[id := e.(allowedApprovers := if allowed == [] then e.allowedApprovers else allowed,
                                       minApprovals := if min > 1 then min else e.minApprovals)])
  }

  predicate Unauthorized(m: Memory, id: Id, user: Option<string>) {
    user.Some? && id in m.pending && m.pending[id].allowedApprovers != [] && user.value !in m.pending[id].allowedApprovers
  }

  function Counted(m: Memory, id: Id): Memory {
    if id in m.pending && m.pending[id].minApprovals > 1
    then m.(pending := m.pending[id := m.pending[id].(approvalCount := m.pending[id].approvalCount + 1)])
    else m
  }

  /** The approval just counted is not yet enough. */
  predicate StillPartial(m: Memory, id: Id) {
    id in m.pending && m.pending[id].minApprovals > 1 && m.pending[id].approvalCount < m.pending[id].minApprovals
  }

  function Delivered(m: Memory, s: Sent): Memory {
    if s.id in m.pending then m.(pending := m.pending - {s.id}, mailbox := m.mailbox[s.id := s]) else m
  }

  function Cleaned(m: Memory, id: Id): Memory {
    m.(pending := m.pending - {id}, receivers := m.receivers - {id})
  }

  // ------------------------------------------------------------------
  // The step system.
  // ------------------------------------------------------------------

  datatype Action = Approve | Deny
  datatype Stage = Pressed | Checked | Passed | Stopped
  datatype Callback = Callback(id: Id, action: Action, user: Option<string>, stage: Stage)

  /** How a wait ended: on its one-shot channel, on a decision polled from the store, or at its deadline. */
  datatype Ending = FromChannel(sent: Sent) | FromStore(decision: Decision) | AtDeadline
  datatype Return = Return(id: Id, ending: Ending)

  /** What a posted request demands of its approvers. */
  datatype Terms = Terms(allowedApprovers: seq<string>, minApprovals: nat)

  /**
   `posted` maps a request whose message is out to its terms; `accepted` lists who pressed
   the approve callbacks that passed authorization and found the request still held.
   */
  datatype System = System(
    memory: Memory,
    known: set<Id>,
    posted: map<Id, Terms>,
    callbacks: map<CallbackId, Callback>,
    accepted: map<Id, seq<Option<string>>>,
    sent: seq<Sent>,
    waiting: set<Id>,
    returned: seq<Return>)

  datatype Event =
    | Register(id: Id)
    | Configure(id: Id, allowed: seq<string>, min: nat)
    | Post(id: Id)
    | Abort(id: Id)
    | Press(callback: CallbackId, id: Id, action: Action, user: Option<string>)
    | Check(callback: CallbackId)
    | Count(callback: CallbackId)
    | Resolve(callback: CallbackId)
    | Signal(id: Id, decision: Decision, cause: Cause)
    | StartWait(id: Id)
    | EndOnChannel(id: Id)
    | EndOnStore(id: Id, decision: Decision)
    | EndAtDeadline(id: Id)

  function Accepted(sys: System, id: Id): seq<Option<string>> {
    if id in sys.accepted then sys.accepted[id] else []
  }

  function TermsOf(e: Entry): Terms {
    Terms(e.allowedApprovers, e.minApprovals)
  }

  predicate InStage(sys: System, c: CallbackId, stage: Stage) {
    c in sys.callbacks && sys.callbacks[c].stage == stage
  }

  function Move(sys: System, c: CallbackId, stage: Stage): System
    requires c in sys.callbacks
  {
    sys.(callbacks := sys.callbacks[c := sys.callbacks[c].(stage := stage)])
  }

  function Send(sys: System, s: Sent): System {
    sys.(memory := Delivered(sys.memory, s), sent := if s.id in sys.memory.pending then sys.sent + [s] else sys.sent)
  }

  function Finish(sys: System, id: Id, ending: Ending): System {
    sys.(waiting := sys.waiting - {id}, returned := sys.returned + [Return(id, ending)])
  }

  /** One event; ids are fresh, routing precedes the message, and buttons exist only once it is out. */
  function Next(sys: System, ev: Event): System {
    match ev
    case Register(id) =>
      if id in sys.known then sys else sys.(memory := Registered(sys.memory, id), known := sys.known + {id})
    case Configure(id, allowed, min) =>
      if id in sys.posted then sys else sys.(memory := Configured(sys.memory, id, allowed, min))
    case Post(id) =>
      if id in sys.posted || id !in sys.memory.pending then sys
      else sys.(posted := sys.posted[id := TermsOf(sys.memory.pending[id])])
    case Abort(id) => sys.(memory := Cleaned(sys.memory, id))
    case Press(c, id, action, user) =>
      if c in sys.callbacks || id !in sys.posted then sys
      else sys.(callbacks := sys.callbacks[c := Callback(id, action, user, Pressed)])
    case Check(c) =>
      if !InStage(sys, c, Pressed) then sys
      else if Unauthorized(sys.memory, sys.callbacks[c].id, sys.callbacks[c].user) then Move(sys, c, Stopped)
      else Move(sys, c, if sys.callbacks[c].action == Approve then Checked else Passed)
    case Count(c) =>
      if !InStage(sys, c, Checked) then sys
      else
        var id := sys.callbacks[c].id;
        var m := Counted(sys.memory, id);
        var counted := sys.(memory := m,
                            accepted := if id !in m.pending then sys.accepted
                                        else sys.accepted[id := Accepted(sys, id) + [sys.callbacks[c].user]]);
        Move(counted, c, if StillPartial(m, id) then Stopped else Passed)
    case Resolve(c) =>
      if !InStage(sys, c, Passed) then sys
      else
        var cb := sys.callbacks[c];
        Send(Move(sys, c, Stopped), Sent(cb.id, if cb.action == Approve then Approved else Denied, Button))
    case Signal(id, decision, cause) => if cause == Button then sys else Send(sys, Sent(id, decision, cause))
    case StartWait(id) =>
      if id !in sys.memory.receivers then sys
      else sys.(memory := sys.memory.(receivers := sys.memory.receivers - {id}), waiting := sys.waiting + {id})
    case EndOnChannel(id) =>
      if id !in sys.waiting || id !in sys.memory.mailbox then sys
      else Finish(sys, id, FromChannel(sys.memory.mailbox[id]))
    case EndOnStore(id, decision) =>
      if id !in sys.waiting then sys
      else Finish(sys.(memory := Cleaned(sys.memory, id)), id, FromStore(decision))
    case EndAtDeadline(id) =>
      if id !in sys.waiting then sys
      else Finish(sys.(memory := Cleaned(sys.memory, id)), id, AtDeadline)
  }

  function Run(events: seq<Event>): System {
    if events == [] then System(Memory(map[], {}, map[]), {}, map[], map[], map[], [], {}, [])
    else Next(Run(events[..|events| - 1]), events[|events| - 1])
  }

  // ------------------------------------------------------------------
  // At most one decision per registered request.
  // ------------------------------------------------------------------

  /** Everything that was sent concerns a request that is no longer held, each once. */
  ghost predicate SentOnce(sys: System) {
    && sys.memory.pending.Keys <= sys.known
    && (forall i :: 0 <= i < |sys.sent| ==> sys.sent[i].id in sys.known && sys.sent[i].id !in sys.memory.pending)
    && (forall i, j :: 0 <= i < j < |sys.sent| ==> sys.sent[i].id != sys.sent[j].id)
    && (forall id :: id in sys.memory.mailbox ==> sys.memory.mailbox[id].id == id && sys.memory.mailbox[id] in sys.sent)
  }

  lemma SentOnceSend(sys: System, s: Sent)
    requires SentOnce(sys)
    ensures SentOnce(Send(sys, s))
  {
  }

  lemma SentOnceQuiet(sys: System, ev: Event)
    requires SentOnce(sys) && !ev.Resolve? && !ev.Signal?
    ensures SentOnce(Next(sys, ev))
  {
  }

  lemma SentOnceStep(sys: System, ev: Event)
    requires SentOnce(sys)
    ensures SentOnce(Next(sys, ev))
  {
    if ev.Resolve? || ev.Signal? {
      hide Send;
      if ev.Signal? {
        SentOnceSend(sys, Sent(ev.id, ev.decision, ev.cause));
      } else if InStage(sys, ev.callback, Passed) {
        var cb := sys.callbacks[ev.callback];
        SentOnceSend(Move(sys, ev.callback, Stopped), Sent(cb.id, if cb.action == Approve then Approved else Denied, Button));
      }
    } else {
      SentOnceQuiet(sys, ev);
    }
  }

  /** A request is unwaited, waited for, or returned: never two of these. */
  ghost predicate ReturnedOnce(sys: System) {
    && sys.memory.receivers <= sys.known && sys.waiting <= sys.known && sys.waiting !! sys.memory.receivers
    && (forall i :: 0 <= i < |sys.returned| ==>
          sys.returned[i].id in sys.known && sys.returned[i].id !in sys.waiting + sys.memory.receivers)
    && (forall i, j :: 0 <= i < j < |sys.returned| ==> sys.returned[i].id != sys.returned[j].id)
    && (forall i :: 0 <= i < |sys.returned| && sys.returned[i].ending.FromChannel? ==>
          sys.returned[i].ending.sent in sys.sent && sys.returned[i].ending.sent.id == sys.returned[i].id)
  }

  predicate EndsWait(ev: Event) {
    ev.EndOnChannel? || ev.EndOnStore? || ev.EndAtDeadline?
  }

  lemma ReturnedOnceEnd(sys: System, ev: Event)
    requires SentOnce(sys) && ReturnedOnce(sys) && EndsWait(ev)
    ensures ReturnedOnce(Next(sys, ev))
  {
  }

  lemma ReturnedOnceQuiet(sys: System, ev: Event)
    requires ReturnedOnce(sys) && !EndsWait(ev)
    ensures ReturnedOnce(Next(sys, ev))
  {
    assert Next(sys, ev).returned == sys.returned;
  }

  lemma ReturnedOnceStep(sys: System, ev: Event)
    requires SentOnce(sys) && ReturnedOnce(sys)
    ensures ReturnedOnce(Next(sys, ev))
  {
    hide Next, SentOnce, ReturnedOnce;
    if EndsWait(ev) {
      ReturnedOnceEnd(sys, ev);
    } else {
      ReturnedOnceQuiet(sys, ev);
    }
  }

  lemma {:induction false} OneDecisionPerRequest(events: seq<Event>)
    ensures SentOnce(Run(events)) && ReturnedOnce(Run(events))
  {
    if events != [] {
      OneDecisionPerRequest(events[..|events| - 1]);
      SentOnceStep(Run(events[..|events| - 1]), events[|events| - 1]);
      ReturnedOnceStep(Run(events[..|events| - 1]), events[|events| - 1]);
    }
  }

  // ------------------------------------------------------------------
  // Button approvals respect the threshold.
  // ------------------------------------------------------------------

  /** An identified user is on the approver list, when there is one. */
  predicate MayApprove(terms: Terms, user: Option<string>) {
    user.None? || terms.allowedApprovers == [] || user.value in terms.allowedApprovers
  }

  /** At least the required number of approvals was accepted. */
  predicate Enough(sys: System, id: Id) {
    id in sys.posted && sys.posted[id].minApprovals <= |Accepted(sys, id)|
  }

  /** A held entry keeps its posted terms and counts no more than was accepted. */
  predicate EntryInStep(sys: System, id: Id)
    requires id in sys.memory.pending
  {
    var e := sys.memory.pending[id];
    && 1 <= e.minApprovals && e.approvalCount <= |Accepted(sys, id)|
    && (id in sys.posted ==> TermsOf(e) == sys.posted[id])
  }

  ghost predicate EntriesInStep(sys: System) {
    && sys.posted.Keys <= sys.known
    && (forall id :: id in sys.memory.pending ==> EntryInStep(sys, id))
  }

  lemma OneEntry(sys: System, ev: Event, id: Id)
    requires sys.posted.Keys <= sys.known && id in Next(sys, ev).memory.pending
    requires id in sys.memory.pending ==> EntryInStep(sys, id)
    ensures EntryInStep(Next(sys, ev), id)
  {
  }

  lemma EntriesInStepNext(sys: System, ev: Event)
    requires SentOnce(sys) && EntriesInStep(sys)
    ensures EntriesInStep(Next(sys, ev))
  {
    forall id | id in Next(sys, ev).memory.pending ensures EntryInStep(Next(sys, ev), id) {
      OneEntry(sys, ev, id);
    }
  }

  /** A callback past its checks belongs to a held request only with the right user and count. */
  predicate CallbackInOrder(sys: System, c: CallbackId)
    requires c in sys.callbacks
  {
    var cb := sys.callbacks[c];
    && cb.id in sys.posted && (cb.stage == Checked ==> cb.action == Approve)
    && (cb.id in sys.memory.pending && cb.action == Approve ==>
          && (cb.stage == Checked ==> MayApprove(sys.posted[cb.id], cb.user))
          && (cb.stage == Passed ==> Enough(sys, cb.id)))
  }

  ghost predicate CallbacksInOrder(sys: System) {
    forall c :: c in sys.callbacks ==> CallbackInOrder(sys, c)
  }

  lemma CallbacksInOrderNext(sys: System, ev: Event)
    requires SentOnce(sys) && EntriesInStep(sys) && CallbacksInOrder(sys)
    ensures CallbacksInOrder(Next(sys, ev))
  {
    var after := Next(sys, ev);
    forall c | c in after.callbacks ensures CallbackInOrder(after, c) {
      assert c in sys.callbacks ==> CallbackInOrder(sys, c);
      OneCallback(sys, ev, c);
    }
  }

  lemma OneCallback(sys: System, ev: Event, c: CallbackId)
    requires sys.memory.pending.Keys <= sys.known && EntriesInStep(sys) && c in Next(sys, ev).callbacks
    requires c in sys.callbacks ==> CallbackInOrder(sys, c)
    ensures CallbackInOrder(Next(sys, ev), c)
  {
    if ev.Check? || ev.Count? {
      CallbackOnCheckOrCount(sys, ev, c);
    } else if ev.Register? || ev.Configure? || ev.Post? || ev.Abort? || ev.Press? {
      CallbackOnSetup(sys, ev, c);
    } else {
      CallbackOnEnd(sys, ev, c);
    }
  }

  lemma CallbackOnCheckOrCount(sys: System, ev: Event, c: CallbackId)
    requires sys.memory.pending.Keys <= sys.known && EntriesInStep(sys) && c in Next(sys, ev).callbacks
    requires c in sys.callbacks ==> CallbackInOrder(sys, c)
    requires ev.Check? || ev.Count?
    ensures CallbackInOrder(Next(sys, ev), c)
  {
  }

  lemma CallbackOnSetup(sys: System, ev: Event, c: CallbackId)
    requires sys.memory.pending.Keys <= sys.known && EntriesInStep(sys) && c in Next(sys, ev).callbacks
    requires c in sys.callbacks ==> CallbackInOrder(sys, c)
    requires ev.Register? || ev.Configure? || ev.Post? || ev.Abort? || ev.Press?
    ensures CallbackInOrder(Next(sys, ev), c)
  {
  }

  lemma CallbackOnEnd(sys: System, ev: Event, c: CallbackId)
    requires sys.memory.pending.Keys <= sys.known && EntriesInStep(sys) && c in Next(sys, ev).callbacks
    requires c in sys.callbacks ==> CallbackInOrder(sys, c)
    requires ev.Resolve? || ev.Signal? || ev.StartWait? || ev.EndOnChannel? || ev.EndOnStore? || ev.EndAtDeadline?
    ensures CallbackInOrder(Next(sys, ev), c)
  {
  }

  /** Accepted approvals came from approvers. */
  ghost predicate AcceptedAllowed(sys: System) {
    forall id, u :: id in sys.accepted && u in sys.accepted[id] ==> id in sys.posted && MayApprove(sys.posted[id], u)
  }

  lemma AcceptedAllowedNext(sys: System, ev: Event)
    requires CallbacksInOrder(sys) && AcceptedAllowed(sys)
    ensures AcceptedAllowed(Next(sys, ev))
  {
    var after := Next(sys, ev);
    if ev.Count? && InStage(sys, ev.callback, Checked) {
      var cb := sys.callbacks[ev.callback];
      assert CallbackInOrder(sys, ev.callback);
      forall id, u | id in after.accepted && u in after.accepted[id]
        ensures id in after.posted && MayApprove(after.posted[id], u)
      {
        if !(id in sys.accepted && u in sys.accepted[id]) {
          assert id == cb.id && u == cb.user && id in sys.memory.pending;
        }
      }
    } else {
      assert after.accepted == sys.accepted;
    }
  }

  /** Approvals sent by a button had enough accepted presses. */
  ghost predicate SentJustified(sys: System) {
    forall s :: s in sys.sent && s.cause == Button && s.decision == Approved ==> Enough(sys, s.id)
  }

  lemma EnoughStays(sys: System, ev: Event, id: Id)
    requires Enough(sys, id)
    ensures Enough(Next(sys, ev), id)
  {
  }

  lemma SentJustifiedNext(sys: System, ev: Event)
    requires CallbacksInOrder(sys) && SentJustified(sys)
    ensures SentJustified(Next(sys, ev))
  {
    var after := Next(sys, ev);
    forall s | s in after.sent && s.cause == Button && s.decision == Approved ensures Enough(after, s.id) {
      if s !in sys.sent {
        assert CallbackInOrder(sys, ev.callback);
      }
      EnoughStays(sys, ev, s.id);
    }
  }

  lemma {:induction false} ThresholdsOverRun(events: seq<Event>)
    ensures var sys := Run(events); EntriesInStep(sys) && CallbacksInOrder(sys) && AcceptedAllowed(sys) && SentJustified(sys)
  {
    if events != [] {
      var before, ev := Run(events[..|events| - 1]), events[|events| - 1];
      OneDecisionPerRequest(events[..|events| - 1]);
      ThresholdsOverRun(events[..|events| - 1]);
      EntriesInStepNext(before, ev);
      CallbacksInOrderNext(before, ev);
      AcceptedAllowedNext(before, ev);
      SentJustifiedNext(before, ev);
    }
  }

  /**
   A wait that returns an Approved which an approve button sent on its channel returns only
   after the posted number of accepted presses, all by allowed approvers. What a wait may read
   from the store is the subject of module TelegramPersistence.
   */
  lemma ButtonApprovalMeetsThreshold(events: seq<Event>, i: nat)
    requires var sys := Run(events);
             i < |sys.returned| && sys.returned[i].ending == FromChannel(Sent(sys.returned[i].id, Approved, Button))
    ensures var sys := Run(events);
            var id := sys.returned[i].id;
            && id in sys.posted && sys.posted[id].minApprovals <= |Accepted(sys, id)|
            && forall u :: u in Accepted(sys, id) ==> MayApprove(sys.posted[id], u)
  {
    OneDecisionPerRequest(events);
    ThresholdsOverRun(events);
    var sys := Run(events);
    assert sys.returned[i].ending.sent in sys.sent;
    assert Enough(sys, sys.returned[i].id);
  }

  /** A press that runs through undisturbed: refused, counted as partial, or delivered. */
  lemma CallbackRunsThrough(sys: System, c: CallbackId)
    requires InStage(sys, c, Pressed)
    ensures var cb := sys.callbacks[c];
            var end := Next(Next(Next(sys, Check(c)), Count(c)), Resolve(c));
            var held := cb.id in sys.memory.pending;
            var refused := cb.user.Some? && held && sys.memory.pending[cb.id].allowedApprovers != [] &&
                           cb.user.value !in sys.memory.pending[cb.id].allowedApprovers;
            var partial := cb.action == Approve && held && sys.memory.pending[cb.id].minApprovals > 1 &&
                           sys.memory.pending[cb.id].approvalCount + 1 < sys.memory.pending[cb.id].minApprovals;
            if refused then end.memory == sys.memory && end.sent == sys.sent
            else if partial then
              end.sent == sys.sent && end.memory.mailbox == sys.memory.mailbox && end.memory.pending ==
                sys.memory.pending[cb.id := sys.memory.pending[cb.id].(approvalCount := sys.memory.pending[cb.id].approvalCount + 1)]
            else
              var s := Sent(cb.id, if cb.action == Approve then Approved else Denied, Button);
              && end.memory.pending == sys.memory.pending - {cb.id}
              && end.sent == (if held then sys.sent + [s] else sys.sent)
              && end.memory.mailbox == (if held then sys.memory.mailbox[cb.id := s] else sys.memory.mailbox)
  {
    var checked := Next(sys, Check(c));
    var counted := Next(checked, Count(c));
    assert c in checked.callbacks && c in counted.callbacks;
  }

  /** How a wait ends: with what was sent to it, with what it read from the store, or at its deadline; the last two let go. */
  lemma WaitReturns(sys: System, id: Id, decision: Decision)
    requires id in sys.waiting
    ensures id in sys.memory.mailbox ==>
              Next(sys, EndOnChannel(id)).returned == sys.returned + [Return(id, FromChannel(sys.memory.mailbox[id]))]
    ensures var end := Next(sys, EndOnStore(id, decision));
            && end.returned == sys.returned + [Return(id, FromStore(decision))] && id !in end.waiting
            && id !in end.memory.pending && id !in end.memory.receivers
    ensures var end := Next(sys, EndAtDeadline(id));
            && end.returned == sys.returned + [Return(id, AtDeadline)] && id !in end.waiting
            && id !in end.memory.pending && id !in end.memory.receivers
  {
  }

  /** The text before and after the first ':'. */
  function SplitOnce(data: string): (r: Option<(string, string)>)
    ensures r.None? <==> ':' !in data
    ensures r.Some? ==> data == r.value.0 + ":" + r.value.1 && ':' !in r.value.0
  {
    if data == "" then None
    else if data[0] == ':' then Some(("", data[1..]))
    else
      var rest := SplitOnce(data[1..]);
      assert data == [data[0]] + data[1..];
      if rest.None? then None else Some(([data[0]] + rest.value.0, rest.value.1))
  }

  datatype Button = ApprovePress | DenyPress | GrantPress

  function ButtonOf(data: string): Option<Button> {
    match SplitOnce(data)
    case None => None
    case Some((action, _)) =>
      if action == "approve" then Some(ApprovePress)
      else if action == "deny" then Some(DenyPress)
      else if action == "grant" then Some(GrantPress)
      else None
  }

  lemma PrefixByParts(a: string, b: string)
    requires a != "" && b != ""
    ensures a <= b <==> a[0] == b[0] && a[1..] <= b[1..]
  {
    assert a == [a[0]] + a[1..] && b == [b[0]] + b[1..];
  }

  /** The action is what stands before the first ':'. */
  lemma {:induction false} ActionIs(data: string, word: string)
    requires ':' !in word
    ensures (SplitOnce(data).Some? && SplitOnce(data).value.0 == word) <==> word + ":" <= data
  {
    if data != "" {
      PrefixByParts(word + ":", data);
      if word != "" {
        assert word[0] in word && (word + ":")[1..] == word[1..] + ":" && word == [word[0]] + word[1..];
        ActionIs(data[1..], word[1..]);
      } else {
        assert (word + ":")[1..] == "";
      }
    }
  }

  /** Which texts are which press, by their beginning. */
  lemma ButtonIs(data: string)
    ensures ButtonOf(data) == Some(ApprovePress) <==> "approve:" <= data
    ensures ButtonOf(data) == Some(DenyPress) <==> "deny:" <= data
    ensures ButtonOf(data) == Some(GrantPress) <==> "grant:" <= data
  {
    assert "approve" + ":" == "approve:" && "deny" + ":" == "deny:" && "grant" + ":" == "grant:";
    ActionIs(data, "approve");
    ActionIs(data, "deny");
    ActionIs(data, "grant");
    hide SplitOnce;
  }

  datatype CallbackResult = Malformed | NotAuthorized | GrantRequested | StillWaiting | Recorded | NotRecorded

  class TelegramChannel {
    const store: S.PendingApprovalStore
    var pending: map<Id, Entry>
    var receivers: set<Id>
    var mailbox: map<Id, Sent>

    ghost function State(): Memory
      reads this
    {
      Memory(pending, receivers, mailbox)
    }

    constructor (store: S.PendingApprovalStore)
      ensures this.store == store && State() == Memory(map[], {}, map[])
    {
      this.store := store;
      pending, receivers, mailbox := map[], {}, map[];
    }

    method RegisterPending(id: Id)
      modifies this
      ensures State() == Registered(old(State()), id)
      ensures pending == old(pending)[id := Entry([], 0, 1)] && receivers == old(receivers) + {id} && mailbox == old(mailbox)
    {
      pending := pending[id := Entry([], 0, 1)];
      receivers := receivers + {id};
    }

    method ApplyRouting(id: Id, allowed: seq<string>, min: nat)
      modifies this
      ensures State() == Configured(old(State()), id, allowed, min)
      ensures receivers == old(receivers) && mailbox == old(mailbox)
      ensures id !in old(pending) ==> pending == old(pending)
      ensures id in old(pending) ==>
                var was := old(pending)[id];
                pending == old(pending)[id := Entry(if allowed == [] then was.allowedApprovers else allowed, was.approvalCount,
                                                    if min > 1 then min else was.minApprovals)]
    {
      if id in pending {
        var entry := pending[id];
        if allowed != [] {
          entry := entry.(allowedApprovers := allowed);
        }
        if min > 1 {
          entry := entry.(minApprovals := min);
        }
        pending := pending[id := entry];
      }
    }

    /** The threshold block of an approve callback. */
    method CountApproval(id: Id) returns (partial: bool)
      modifies this
      ensures State() == Counted(old(State()), id) && partial == StillPartial(State(), id)
      ensures receivers == old(receivers) && mailbox == old(mailbox)
      ensures partial <==>
                id in old(pending) && old(pending)[id].minApprovals > 1 && old(pending)[id].approvalCount + 1 < old(pending)[id].minApprovals
      ensures pending == if id in old(pending) && old(pending)[id].minApprovals > 1
                         then old(pending)[id := old(pending)[id].(approvalCount := old(pending)[id].approvalCount + 1)]
                         else old(pending)
    {
      if id in pending && pending[id].minApprovals > 1 {
        var count := pending[id].approvalCount + 1;
        pending := pending[id := pending[id].(approvalCount := count)];
        return count < pending[id].minApprovals;
      }
      return false;
    }

    /** Taking the entry out and sending on its channel is one locked block. */
    method Signal(s: Sent) returns (sent: bool)
      modifies this
      ensures State() == Delivered(old(State()), s) && sent == (s.id in old(pending))
      ensures pending == old(pending) - {s.id} && receivers == old(receivers)
      ensures mailbox == if sent then old(mailbox)[s.id := s] else old(mailbox)
    {
      sent := s.id in pending;
      if sent {
        pending := pending - {s.id};
        mailbox := mailbox[s.id := s];
      }
    }

    method CleanupPendingRequest(id: Id)
      modifies this
      ensures State() == Cleaned(old(State()), id)
      ensures pending == old(pending) - {id} && receivers == old(receivers) - {id} && mailbox == old(mailbox)
    {
      pending := pending - {id};
      receivers := receivers - {id};
    }

    /**
     A callback whose lock-protected blocks are not disturbed. Unknown data and refused users
     change nothing, a grant press goes to its own handler, a partial approval only raises the
     count, and anything else sends and lets go, then persists the decision; `between` is what
     other instances run in the database meanwhile. The press counts as recorded when a live
     waiter was told or the database changed; without a database the reply is `Failed`.
     */
    method HandleCallback(data: string, user: Option<string>, listening: bool, between: seq<A.Step>, reply: Reply, now: A.Time)
      returns (result: CallbackResult)
      modifies this, store
      ensures result == Malformed <==> ButtonOf(data).None?
      ensures ButtonOf(data).Some? ==>
                var id := SplitOnce(data).value.1;
                var approve := ButtonOf(data) == Some(ApprovePress);
                var counted := if approve then Counted(old(State()), id) else old(State());
                var refused := user.Some? && id in old(pending) && old(pending)[id].allowedApprovers != [] &&
                               user.value !in old(pending)[id].allowedApprovers;
                && (result == NotAuthorized <==> refused)
                && (result == GrantRequested <==> !refused && ButtonOf(data) == Some(GrantPress))
                && (result == StillWaiting <==>
                      && !refused && approve && id in old(pending) && old(pending)[id].minApprovals > 1
                      && old(pending)[id].approvalCount + 1 < old(pending)[id].minApprovals)
                && (result == StillWaiting ==> State() == counted)
                && (result == Recorded || result == NotRecorded ==>
                      var gap := A.Run(old(store.rows), between);
                      var s := A.Resolve(id, if approve then A.Approved else A.Denied, user, now);
                      && State() == Delivered(counted, Sent(id, if approve then Approved else Denied, Button))
                      && id !in pending
                      && store.rows == (if reply == Failed then gap else A.Apply(gap, s))
                      && (result == Recorded <==>
                            (id in old(pending) && listening) || (reply == Done && A.Affects(gap, s))))
      ensures result != Recorded && result != NotRecorded ==> store.rows == old(store.rows)
      ensures result == Malformed || result == NotAuthorized || result == GrantRequested ==> State() == old(State())
    {
      var parts := SplitOnce(data);
      if parts.None? || !(parts.value.0 == "approve" || parts.value.0 == "deny" || parts.value.0 == "grant") {
        return Malformed;
      }
      var action, id := parts.value.0, parts.value.1;
      if user.Some? && id in pending {
        var allowed := pending[id].allowedApprovers;
        if allowed != [] && user.value !in allowed {
          return NotAuthorized;
        }
      }
      if action == "grant" {
        return GrantRequested;
      }
      if action == "approve" {
        var partial := CountApproval(id);
        if partial {
          return StillWaiting;
        }
      }
      var told := Signal(Sent(id, if action == "approve" then Approved else Denied, Button));
      store.Interleave(between);
      var updated := false;
      if reply != Failed {
        updated := store.ResolvePendingApproval(id, if action == "approve" then A.Approved else A.Denied, user, now);
      }
      return if (told && listening) || (reply == Done && updated) then Recorded else NotRecorded;
    }
  }
}
