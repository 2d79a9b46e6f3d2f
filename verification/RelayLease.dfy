/**
 The `relay_sessions` lease: at most one process may hold the live connection of a
 session. A holder keeps its lease by claiming or heartbeating again within the
 ttl; a stale lease may be taken over by anyone.
 */
module RelayLease {
  import opened Options

  type Millis = int
  type Session = string
  type Holder = string

  datatype Lease = Lease(holder: Holder, connectedAt: Millis, lastHeartbeat: Millis)
  type Table = map<Session, Lease>

  datatype Step =
    | Claim(session: Session, holder: Holder, ttlSecs: int, now: Millis)
    | Heartbeat(session: Session, holder: Holder, now: Millis)
    | Release(session: Session, holder: Holder)

  function StaleBefore(now: Millis, ttlSecs: int): Millis {
    now - ttlSecs * 1000
  }

  predicate Succeeds(t: Table, s: Step) {
    match s
    case Claim(x, h, ttl, now) => x !in t || t[x].holder == h || t[x].lastHeartbeat < StaleBefore(now, ttl)
    case Heartbeat(x, h, _) => x in t && t[x].holder == h
    case Release(x, h) => x in t && t[x].holder == h
  }

  function Apply(t: Table, s: Step): Table {
    if !Succeeds(t, s) then t
    else match s
      case Claim(x, h, _, now) => t[x := Lease(h, now, now)]
      case Heartbeat(x, _, now) => t[x := t[x].(lastHeartbeat := now)]
      case Release(x, _) => t - {x}
  }

  function At(t: Table, steps: seq<Step>, k: nat): Table
    requires k <= |steps|
  {
    if k == 0 then t else Apply(At(t, steps, k - 1), steps[k - 1])
  }

  function LiveHolder(t: Table, x: Session, ttlSecs: int, now: Millis): Option<Holder> {
    if x in t && t[x].lastHeartbeat >= StaleBefore(now, ttlSecs) then Some(t[x].holder) else None
  }

  /** Someone else's claim succeeds exactly when no live holder would be reported at that moment. */
  lemma ForeignClaimIffNoLiveHolder(t: Table, x: Session, h: Holder, ttlSecs: int, now: Millis)
    requires x in t ==> t[x].holder != h
    ensures Succeeds(t, Claim(x, h, ttlSecs, now)) <==> LiveHolder(t, x, ttlSecs, now).None?
    ensures Succeeds(t, Claim(x, h, ttlSecs, now)) <==> x in Apply(t, Claim(x, h, ttlSecs, now)) && Apply(t, Claim(x, h, ttlSecs, now))[x].holder == h
  {
  }

  /** The `k`-th statement is a successful claim or heartbeat of `x` by `h`. */
  predicate Refreshes(t: Table, steps: seq<Step>, x: Session, h: Holder, k: nat)
    requires k < |steps|
  {
    !steps[k].Release? && steps[k].session == x && steps[k].holder == h && Succeeds(At(t, steps, k), steps[k])
  }

  ghost predicate OneClock(steps: seq<Step>) {
    forall i, j :: 0 <= i < j < |steps| && !steps[i].Release? && !steps[j].Release? ==> steps[i].now <= steps[j].now
  }

  /** Nobody takes over sooner than `ttlSecs` after the last sign of life. */
  ghost predicate PatientClaims(steps: seq<Step>, x: Session, ttlSecs: int) {
    forall k :: 0 <= k < |steps| && steps[k].Claim? && steps[k].session == x ==> ttlSecs <= steps[k].ttlSecs
  }

  ghost predicate ReleasedBetween(steps: seq<Step>, x: Session, h: Holder, i: nat, j: nat) {
    exists k :: i < k < j && k < |steps| && steps[k] == Release(x, h)
  }

  /** Within the ttl of a refresh, and without a release, the lease stays with its holder. */
  lemma {:induction false} LeaseIsKept(t: Table, steps: seq<Step>, x: Session, h: Holder, ttlSecs: int, i: nat, j: nat)
    requires i < j <= |steps| && Refreshes(t, steps, x, h, i) && OneClock(steps) && PatientClaims(steps, x, ttlSecs)
    requires !ReleasedBetween(steps, x, h, i, j)
    requires forall k :: i < k < j && !steps[k].Release? ==> steps[k].now <= steps[i].now + ttlSecs * 1000
    ensures x in At(t, steps, j) && At(t, steps, j)[x].holder == h && At(t, steps, j)[x].lastHeartbeat >= steps[i].now
    decreases j
  {
    if i < j - 1 {
      LeaseIsKept(t, steps, x, h, ttlSecs, i, j - 1);
    }
  }

  /**
   Mutual exclusion: when two different holders refresh one session, the earlier one
   released it in between or its lease had already run out.
   */
  lemma LeasesNeverOverlap(t: Table, steps: seq<Step>, x: Session, g: Holder, h: Holder, ttlSecs: int, i: nat, j: nat)
    requires i < j < |steps| && g != h && OneClock(steps) && PatientClaims(steps, x, ttlSecs)
    requires Refreshes(t, steps, x, g, i) && Refreshes(t, steps, x, h, j)
    ensures ReleasedBetween(steps, x, g, i, j) || steps[i].now + ttlSecs * 1000 < steps[j].now
  {
    if !ReleasedBetween(steps, x, g, i, j) && steps[j].now <= steps[i].now + ttlSecs * 1000 {
      LeaseIsKept(t, steps, x, g, ttlSecs, i, j);
    }
  }

  /**
   Exactly when someone else can take a lease over while it still runs: some claim with ttl `b`
   made within `a` seconds of the holder's last sign of life succeeds if and only if b < a.
   */
  lemma TakeoverInsideLeaseIff(t: Table, x: Session, h: Holder, a: int, b: int)
    requires x in t && t[x].holder != h
    ensures (exists now :: now <= t[x].lastHeartbeat + a * 1000 && Succeeds(t, Claim(x, h, b, now))) <==> b < a
    ensures 0 <= a ==>
              ((exists now :: t[x].lastHeartbeat <= now <= t[x].lastHeartbeat + a * 1000 && Succeeds(t, Claim(x, h, b, now))) <==> b < a)
  {
    if b < a {
      assert Succeeds(t, Claim(x, h, b, t[x].lastHeartbeat + a * 1000));
    }
  }

  /** So one shared ttl is needed: with any shorter one there is a run in which two leases overlap. */
  lemma ImpatientClaimOverlaps(x: Session, g: Holder, h: Holder, a: nat, b: int)
    requires g != h && b < a
    ensures var steps := [Claim(x, g, a, 0), Claim(x, h, b, a * 1000)];
            && OneClock(steps) && Refreshes(map[], steps, x, g, 0) && Refreshes(map[], steps, x, h, 1)
            && steps[1].now <= steps[0].now + a * 1000 && !ReleasedBetween(steps, x, g, 0, 1)
  {
    var steps := [Claim(x, g, a, 0), Claim(x, h, b, a * 1000)];
    assert At(map[], steps, 0) == map[];
    assert At(map[], steps, 1) == Apply(map[], steps[0]);
  }

  class RelayStore {
    var rows: Table

    constructor ()
      ensures rows == map[]
    {
      rows := map[];
    }

    method ClaimRelaySession(x: Session, holder: Holder, ttlSecs: int, now: Millis) returns (held: bool)
      modifies this
      ensures held == Succeeds(old(rows), Claim(x, holder, ttlSecs, now))
      ensures rows == Apply(old(rows), Claim(x, holder, ttlSecs, now))
      ensures held <==>
                x !in old(rows) || old(rows)[x].holder == holder || old(rows)[x].lastHeartbeat + ttlSecs * 1000 < now
      ensures rows == if held then old(rows)[x := Lease(holder, now, now)] else old(rows)
    {
      var staleBefore := now - ttlSecs * 1000;
      if x in rows && rows[x].holder != holder && rows[x].lastHeartbeat >= staleBefore {
        return false;
      }
      rows := rows[x := Lease(holder, now, now)];
      return true;
    }

    method LiveRelayHolder(x: Session, ttlSecs: int, now: Millis) returns (holder: Option<Holder>)
      ensures holder == LiveHolder(rows, x, ttlSecs, now)
      ensures holder == if x in rows && now <= rows[x].lastHeartbeat + ttlSecs * 1000 then Some(rows[x].holder) else None
    {
      var staleBefore := now - ttlSecs * 1000;
      return if x in rows && rows[x].lastHeartbeat >= staleBefore then Some(rows[x].holder) else None;
    }

    method HeartbeatRelaySession(x: Session, holder: Holder, now: Millis) returns (held: bool)
      modifies this
      ensures held == Succeeds(old(rows), Heartbeat(x, holder, now))
      ensures rows == Apply(old(rows), Heartbeat(x, holder, now))
      ensures held <==> x in old(rows) && old(rows)[x].holder == holder
      ensures rows == if held then old(rows)[x := Lease(holder, old(rows)[x].connectedAt, now)] else old(rows)
    {
      if x !in rows || rows[x].holder != holder {
        return false;
      }
      rows := rows[x := Lease(holder, rows[x].connectedAt, now)];
      return true;
    }

    method ReleaseRelaySession(x: Session, holder: Holder)
      modifies this
      ensures rows == Apply(old(rows), Release(x, holder))
      ensures rows == if x in old(rows) && old(rows)[x].holder == holder then old(rows) - {x} else old(rows)
    {
      if x in rows && rows[x].holder == holder {
        rows := rows - {x};
      }
    }
  }
}
