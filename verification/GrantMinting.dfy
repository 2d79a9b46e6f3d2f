/**
 "Approve for 30 minutes" clicks on Telegram buttons, Matrix reactions and the
 dashboard. A click loads the pending request, claims its row, and mints a grant
 only after its own claim won. Any number of clicks on any number of instances
 interleave with each other and with every other statement on the table.
 */
module GrantMinting {
  import opened Options
  import opened Approvals
  import opened Replies
  import opened ApprovalStore
  import G = Grants

  type ClickId = nat

  /** `Spent`: the claim won but the grant was refused or could not be stored. */
  datatype Stage = Clicked | Loaded | Claimed | Minted | Spent | Refused
  datatype Click = Click(txn: TxnId, stage: Stage)
  datatype Grant = Grant(click: ClickId, txn: TxnId)
  datatype System = System(table: Table, clicks: map<ClickId, Click>, grants: seq<Grant>)

  /** `Statement` is any statement of any other actor; the rest are the click handler's own steps. */
  datatype Event =
    | Statement(s: Step)
    | Press(id: ClickId, txn: TxnId)
    | Load(id: ClickId, now: Time, mayGrant: bool)
    | Claim(id: ClickId, resolver: string, reply: Reply)
    | Mint(id: ClickId, stored: bool)

  function SetStage(sys: System, id: ClickId, stage: Stage): System
    requires id in sys.clicks
  {
    sys.(clicks := sys.clicks[id := sys.clicks[id].(stage := stage)])
  }

  predicate Readable(t: Table, x: TxnId, now: Time) {
    x in t && t[x].status == Pending && now < t[x].expiresAt
  }

  function Next(sys: System, ev: Event): System {
    match ev
    case Statement(s) => sys.(table := Apply(sys.table, s))
    case Press(id, txn) => if id in sys.clicks then sys else sys.(clicks := sys.clicks[id := Click(txn, Clicked)])
    case Load(id, now, mayGrant) =>
      if id !in sys.clicks || sys.clicks[id].stage != Clicked then sys
      else SetStage(sys, id, if mayGrant && Readable(sys.table, sys.clicks[id].txn, now) then Loaded else Refused)
    case Claim(id, resolver, reply) =>
      if id !in sys.clicks || sys.clicks[id].stage != Loaded then sys
      else
        var s := ClaimForGrant(sys.clicks[id].txn, Some(resolver));
        if reply == Failed then SetStage(sys, id, Refused)
        else
          var won := reply == Done && Affects(sys.table, s);
          SetStage(sys, id, if won then Claimed else Refused).(table := Apply(sys.table, s))
    case Mint(id, stored) =>
      if id !in sys.clicks || sys.clicks[id].stage != Claimed then sys
      else if stored then
        SetStage(sys, id, Minted).(grants := sys.grants + [Grant(id, sys.clicks[id].txn)])
      else SetStage(sys, id, Spent)
  }

  function Start(t: Table): System {
    System(t, map[], [])
  }

  /** Click `c` is on `x` and its claim won. */
  predicate WonOn(sys: System, c: ClickId, x: TxnId) {
    c in sys.clicks && sys.clicks[c].txn == x &&
    (sys.clicks[c].stage == Claimed || sys.clicks[c].stage == Minted || sys.clicks[c].stage == Spent)
  }

  /** Every grant was minted by its own click. */
  ghost predicate GrantsHaveOwners(sys: System) {
    && (forall i :: 0 <= i < |sys.grants| ==>
          && sys.grants[i].click in sys.clicks
          && sys.clicks[sys.grants[i].click] == Click(sys.grants[i].txn, Minted))
    && (forall i, j :: 0 <= i < j < |sys.grants| ==> sys.grants[i].click != sys.grants[j].click)
  }

  lemma GrantsHaveOwnersStep(sys: System, ev: Event)
    requires GrantsHaveOwners(sys)
    ensures GrantsHaveOwners(Next(sys, ev))
  {
    if ev.Mint? && ev.id in sys.clicks && sys.clicks[ev.id].stage == Claimed {
      assert forall i :: 0 <= i < |sys.grants| ==> sys.grants[i].click != ev.id;
    }
  }

  /** The system after the first `k` events of a run. */
  function SystemAt(t: Table, events: seq<Event>, k: nat): System
    requires k <= |events|
  {
    if k == 0 then Start(t) else Next(SystemAt(t, events, k - 1), events[k - 1])
  }

  lemma {:induction false} GrantsHaveOwnersOverRun(t: Table, events: seq<Event>, k: nat)
    requires k <= |events|
    ensures GrantsHaveOwners(SystemAt(t, events, k))
  {
    if k > 0 {
      GrantsHaveOwnersOverRun(t, events, k - 1);
      GrantsHaveOwnersStep(SystemAt(t, events, k - 1), events[k - 1]);
    }
  }

  /** The `k`-th event is the winning claim of click `c` on `x`. */
  predicate WinsAt(t: Table, events: seq<Event>, c: ClickId, x: TxnId, k: nat)
    requires k < |events|
  {
    events[k].Claim? && events[k].id == c && !WonOn(SystemAt(t, events, k), c, x) && WonOn(SystemAt(t, events, k + 1), c, x)
  }

  /** A click becomes a winner only by its own claim, which finds the row pending and leaves it approved. */
  lemma WinStep(sys: System, ev: Event, c: ClickId, x: TxnId)
    requires !WonOn(sys, c, x) && WonOn(Next(sys, ev), c, x)
    ensures ev.Claim? && ev.id == c
    ensures x in sys.table && sys.table[x].status == Pending
    ensures x in Next(sys, ev).table && Next(sys, ev).table[x].status == Approved
  {
  }

  lemma WinMoment(t: Table, events: seq<Event>, c: ClickId, x: TxnId, k: nat)
    requires k < |events| && WinsAt(t, events, c, x, k)
    ensures x in SystemAt(t, events, k).table && SystemAt(t, events, k).table[x].status == Pending
    ensures x in SystemAt(t, events, k + 1).table && SystemAt(t, events, k + 1).table[x].status == Approved
  {
    hide Next;
    WinStep(SystemAt(t, events, k), events[k], c, x);
  }

  /** Every winner won at some event. */
  lemma {:induction false} FindWin(t: Table, events: seq<Event>, c: ClickId, x: TxnId, k: nat) returns (a: nat)
    requires k <= |events| && WonOn(SystemAt(t, events, k), c, x)
    ensures a < k && WinsAt(t, events, c, x, a)
  {
    hide Next;
    if WonOn(SystemAt(t, events, k - 1), c, x) {
      a := FindWin(t, events, c, x, k - 1);
    } else {
      WinStep(SystemAt(t, events, k - 1), events[k - 1], c, x);
      a := k - 1;
    }
  }

  lemma ApprovedStep(sys: System, ev: Event, x: TxnId)
    requires x in sys.table && sys.table[x].status == Approved && x in Next(sys, ev).table
    ensures Next(sys, ev).table[x].status == Approved
  {
  }

  /** The row of `x` is there after every event from the `i`-th to the `j`-th. */
  ghost predicate RowLives(t: Table, events: seq<Event>, x: TxnId, i: nat, j: nat)
    requires i <= j <= |events|
  {
    forall m {:trigger SystemAt(t, events, m)} :: i <= m <= j ==> x in SystemAt(t, events, m).table
  }

  lemma {:induction false} StaysApproved(t: Table, events: seq<Event>, x: TxnId, i: nat, j: nat)
    requires i <= j <= |events| && RowLives(t, events, x, i, j) && SystemAt(t, events, i).table[x].status == Approved
    ensures SystemAt(t, events, j).table[x].status == Approved
    decreases j
  {
    hide Next;
    if i < j {
      StaysApproved(t, events, x, i, j - 1);
      assert x in SystemAt(t, events, j).table;
      ApprovedStep(SystemAt(t, events, j - 1), events[j - 1], x);
    }
  }

  /** Two winning claims on one transaction are separated by a moment without its row. */
  lemma WinsAreSeparated(t: Table, events: seq<Event>, x: TxnId, c: ClickId, d: ClickId, a: nat, b: nat) returns (m: nat)
    requires a < b < |events| && WinsAt(t, events, c, x, a) && WinsAt(t, events, d, x, b)
    ensures a < m < b && x !in SystemAt(t, events, m).table
  {
    hide SystemAt, WinsAt;
    WinMoment(t, events, c, x, a);
    WinMoment(t, events, d, x, b);
    if RowLives(t, events, x, a + 1, b) {
      StaysApproved(t, events, x, a + 1, b);
    }
    m :| a + 1 <= m <= b && x !in SystemAt(t, events, m).table;
  }

  /** Between the claims of two grants' clicks there was a moment without the row of `x`. */
  ghost predicate SeparateLifetimes(t: Table, events: seq<Event>, x: TxnId, c: ClickId, d: ClickId) {
    exists a, b, m {:trigger WinsAt(t, events, c, x, a), WinsAt(t, events, d, x, b), SystemAt(t, events, m)} ::
      && 0 <= a < |events| && 0 <= b < |events| && 0 <= m <= |events| && (a < m < b || b < m < a)
      && WinsAt(t, events, c, x, a) && WinsAt(t, events, d, x, b) && x !in SystemAt(t, events, m).table
  }

  /** Two clicks that have both won on one transaction won in different lifetimes of its row. */
  lemma WinnersAreSeparated(t: Table, events: seq<Event>, x: TxnId, c: ClickId, d: ClickId)
    requires c != d && WonOn(SystemAt(t, events, |events|), c, x) && WonOn(SystemAt(t, events, |events|), d, x)
    ensures SeparateLifetimes(t, events, x, c, d)
  {
    hide Next;
    var a := FindWin(t, events, c, x, |events|);
    var b := FindWin(t, events, d, x, |events|);
    if a < b {
      var m := WinsAreSeparated(t, events, x, c, d, a, b);
    } else {
      var m := WinsAreSeparated(t, events, x, d, c, b, a);
    }
  }

  /**
   At most one grant per lifetime of an approval row, in every run whatsoever: whenever two
   grants exist for one transaction, the claims behind them fall into different lifetimes.
   */
  lemma OneGrantPerLifetime(t: Table, events: seq<Event>, x: TxnId, i: nat, j: nat)
    requires var grants := SystemAt(t, events, |events|).grants;
             i < j < |grants| && grants[i].txn == x == grants[j].txn
    ensures var grants := SystemAt(t, events, |events|).grants;
            SeparateLifetimes(t, events, x, grants[i].click, grants[j].click)
  {
    hide Next;
    GrantsHaveOwnersOverRun(t, events, |events|);
    var grants := SystemAt(t, events, |events|).grants;
    WinnersAreSeparated(t, events, x, grants[i].click, grants[j].click);
  }

  /** A grant's row was approved by the claim behind it, and is approved for as long as it exists after that. */
  lemma GrantedRowIsApproved(t: Table, events: seq<Event>, i: nat) returns (a: nat)
    requires i < |SystemAt(t, events, |events|).grants|
    ensures var g := SystemAt(t, events, |events|).grants[i];
            && a < |events| && WinsAt(t, events, g.click, g.txn, a)
            && forall m :: a < m <= |events| && RowLives(t, events, g.txn, a + 1, m) ==>
                 SystemAt(t, events, m).table[g.txn].status == Approved
  {
    hide Next;
    GrantsHaveOwnersOverRun(t, events, |events|);
    var g := SystemAt(t, events, |events|).grants[i];
    a := FindWin(t, events, g.click, g.txn, |events|);
    WinMoment(t, events, g.click, g.txn, a);
    forall m | a < m <= |events| && RowLives(t, events, g.txn, a + 1, m)
      ensures SystemAt(t, events, m).table[g.txn].status == Approved
    {
      StaysApproved(t, events, g.txn, a + 1, m);
    }
  }

  /** No event of the run removes the row of `x`. */
  ghost predicate NeverRemoved(t: Table, events: seq<Event>, x: TxnId) {
    forall k {:trigger SystemAt(t, events, k)} :: 0 <= k < |events| ==>
      x in SystemAt(t, events, k).table ==> x in SystemAt(t, events, k + 1).table
  }

  lemma {:induction false} OneLifetime(t: Table, events: seq<Event>, x: TxnId, i: nat, j: nat)
    requires i <= j <= |events| && NeverRemoved(t, events, x) && x in SystemAt(t, events, i).table
    ensures x in SystemAt(t, events, j).table
    decreases j
  {
    hide Next;
    if i < j {
      OneLifetime(t, events, x, i, j - 1);
    }
  }

  lemma OneLifetimeIsNotSeparate(t: Table, events: seq<Event>, x: TxnId, c: ClickId, d: ClickId)
    requires NeverRemoved(t, events, x)
    ensures !SeparateLifetimes(t, events, x, c, d)
  {
    hide SystemAt, WinsAt, NeverRemoved;
    forall a: nat, e, m | a < m <= |events| && WinsAt(t, events, e, x, a) ensures x in SystemAt(t, events, m).table {
      WinMoment(t, events, e, x, a);
      OneLifetime(t, events, x, a + 1, m);
    }
  }

  /** In particular a row that is never removed yields at most one grant, and then it is approved. */
  lemma OneGrantPerApproval(t: Table, events: seq<Event>, x: TxnId, i: nat, j: nat)
    requires NeverRemoved(t, events, x)
    requires var grants := SystemAt(t, events, |events|).grants;
             i < |grants| && j < |grants| && grants[i].txn == x == grants[j].txn
    ensures i == j
    ensures var sys := SystemAt(t, events, |events|); x in sys.table && sys.table[x].status == Approved
  {
    hide SystemAt, WinsAt, SeparateLifetimes, NeverRemoved;
    var grants := SystemAt(t, events, |events|).grants;
    var a := GrantedRowIsApproved(t, events, i);
    WinMoment(t, events, grants[i].click, x, a);
    forall m | a + 1 <= m <= |events| ensures x in SystemAt(t, events, m).table {
      OneLifetime(t, events, x, a + 1, m);
    }
    if i != j {
      var lo, hi := if i < j then i else j, if i < j then j else i;
      OneGrantPerLifetime(t, events, x, lo, hi);
      OneLifetimeIsNotSeparate(t, events, x, grants[lo].click, grants[hi].click);
    }
  }

  // ------------------------------------------------------------------
  // One click handler as a program, and as a run of the step system.
  // ------------------------------------------------------------------

  function Statements(steps: seq<Step>): seq<Event> {
    seq(|steps|, i requires 0 <= i < |steps| => Statement(steps[i]))
  }

  /** The system after a whole run. */
  function RunSystem(t: Table, events: seq<Event>): System {
    SystemAt(t, events, |events|)
  }

  lemma {:induction false} PrefixDecides(t: Table, a: seq<Event>, b: seq<Event>, k: nat)
    requires k <= |a|
    ensures SystemAt(t, a + b, k) == SystemAt(t, a, k)
  {
    hide Next;
    if k > 0 {
      PrefixDecides(t, a, b, k - 1);
    }
  }

  lemma RunAppend(t: Table, events: seq<Event>, ev: Event)
    ensures RunSystem(t, events + [ev]) == Next(RunSystem(t, events), ev)
  {
    hide Next;
    PrefixDecides(t, events, [ev], |events|);
  }

  /** Statements of others change nothing but the table. */
  lemma {:induction false} StatementsRun(t: Table, events: seq<Event>, steps: seq<Step>)
    ensures RunSystem(t, events + Statements(steps)) ==
              var s := RunSystem(t, events); s.(table := Run(s.table, steps))
  {
    if steps == [] {
      assert events + Statements(steps) == events;
    } else {
      hide Apply, RunSystem;
      var init, last := steps[..|steps| - 1], steps[|steps| - 1];
      StatementsRun(t, events, init);
      assert events + Statements(steps) == events + Statements(init) + [Statement(last)];
      RunAppend(t, events + Statements(init), Statement(last));
    }
  }

  /** A press and its load, what others run meanwhile, then the claim and the mint. */
  function ClickRun(t: Table, x: TxnId, now: Time, mayGrant: bool, between: seq<Step>, user: string, reply: Reply, stored: bool): System {
    RunSystem(t, [Press(0, x)] + [Load(0, now, mayGrant)] + Statements(between) + [Claim(0, user, reply)] + [Mint(0, stored)])
  }

  lemma ClickRunEnds(t: Table, x: TxnId, now: Time, mayGrant: bool, between: seq<Step>, user: string, reply: Reply, stored: bool)
    ensures var gap, claim := Run(t, between), ClaimForGrant(x, Some(user));
            var loaded := mayGrant && x in t && t[x].status == Pending && now < t[x].expiresAt;
            var end := ClickRun(t, x, now, mayGrant, between, user, reply, stored);
            && end.table == (if loaded && reply != Failed then Apply(gap, claim) else gap)
            && end.grants == if loaded && reply == Done && Affects(gap, claim) && stored then [Grant(0, x)] else []
  {
    hide Apply, Affects, Run, RunSystem;
    var press, load := [Press(0, x)], [Load(0, now, mayGrant)];
    NothingRun(t);
    RunAppend(t, [], Press(0, x));
    assert [] + press == press;
    RunAppend(t, press, Load(0, now, mayGrant));
    StatementsRun(t, press + load, between);
    RunAppend(t, press + load + Statements(between), Claim(0, user, reply));
    RunAppend(t, press + load + Statements(between) + [Claim(0, user, reply)], Mint(0, stored));
  }

  lemma NothingRun(t: Table)
    ensures RunSystem(t, []) == Start(t)
  {
  }

  /** The reviewed request, as parsed from the pending row's details. */
  datatype Reviewed = Reviewed(team: string, credential: string, verb: string, target: Option<G.Target>)

  class GrantSurface {
    const approvals: PendingApprovalStore
    const grants: G.GrantStore

    constructor (approvals: PendingApprovalStore, grants: G.GrantStore)
      ensures this.approvals == approvals && this.grants == grants
    {
      this.approvals := approvals;
      this.grants := grants;
    }

    /**
     The handler of one grant click on an open request. `parse` reads the stored details and
     fails when a field is missing. What the handler does to the approval row is a run of the
     step system that mints exactly when it stores a grant; the grant is for the request whose
     details the row held when it was loaded, and its window opens when it is minted.
     */
    method HandleGrantClick(x: TxnId, user: string, email: string, mayGrant: bool, parse: string -> Option<Reviewed>,
                            loadedAt: Time, between: seq<Step>, reply: Reply, mintedAt: Time, id: G.GrantId, policy: G.PolicyRead)
      returns (minted: Option<G.Grant>)
      modifies approvals, grants
      ensures x in old(approvals.rows) && old(approvals.rows)[x].status == Pending && loadedAt < old(approvals.rows)[x].expiresAt &&
              parse(old(approvals.rows)[x].details).Some? && mayGrant ==>
                var run := ClickRun(old(approvals.rows), x, loadedAt, mayGrant, between, user, reply, minted.Some?);
                approvals.rows == run.table && (minted.Some? <==> run.grants == [Grant(0, x)])
      ensures !(x in old(approvals.rows) && old(approvals.rows)[x].status == Pending && loadedAt < old(approvals.rows)[x].expiresAt &&
                parse(old(approvals.rows)[x].details).Some? && mayGrant) ==>
                minted.None? && approvals.rows == old(approvals.rows)
      ensures minted.Some? <==>
                && x in old(approvals.rows) && old(approvals.rows)[x].status == Pending && loadedAt < old(approvals.rows)[x].expiresAt
                && parse(old(approvals.rows)[x].details).Some? && mayGrant && reply == Done
                && (var gap := Run(old(approvals.rows), between);
                    x in gap && gap[x].status == Pending && gap[x].requiredEndUser == None)
                && (var r := parse(old(approvals.rows)[x].details).value;
                    var grant := G.GrantFor(id, r.team, r.credential, r.verb, r.target, email, 30, None, policy, mintedAt);
                    grant.Some? && id !in old(grants.rows) && (r.team, r.credential) in old(grants.credentials))
      ensures minted.None? ==> grants.State() == old(grants.State())
      ensures minted.Some? ==>
                var request := parse(old(approvals.rows)[x].details).value;
                && x in approvals.rows && approvals.rows[x].status == Approved
                && id !in old(grants.rows) && grants.rows == old(grants.rows)[id := minted.value]
                && minted.value.team == request.team && minted.value.credential == request.credential
                && minted.value.methods == [request.verb] && minted.value.grantedBy == email
                && |minted.value.routeScope| == 1 && G.ScopeFromTarget(request.target) == Some(minted.value.routeScope[0])
                && minted.value.expiresAt == mintedAt + G.GRANT_DEFAULT_TTL_MINUTES * G.SECONDS_PER_MINUTE
    {
      minted := None;
      if !mayGrant || x !in approvals.rows || approvals.rows[x].status != Pending || approvals.rows[x].expiresAt <= loadedAt {
        return;
      }
      var request := parse(approvals.rows[x].details);
      if request.None? {
        return;
      }
      approvals.Interleave(between);
      var claimed := false;
      if reply != Failed {
        claimed := approvals.ClaimPendingApprovalForGrant(x, Some(user));
      }
      if claimed && reply == Done {
        var minting := grants.CreateGrantForRequest(id, request.value.team, request.value.credential, request.value.verb,
                                                    request.value.target, email, G.GRANT_DEFAULT_TTL_MINUTES, None, policy, mintedAt);
        if minting.Ok? {
          minted := Some(minting.grant);
        }
      }
      ClickRunEnds(old(approvals.rows), x, loadedAt, mayGrant, between, user, reply, minted.Some?);
    }
  }
}
