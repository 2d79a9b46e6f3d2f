/**
 The migration over every history of boots: any number of instances boot one after
 another or at once, stop anywhere, and pass over tolerated statement failures. What
 reaches the database is one sequence of executed statements, and what the migration
 leaves is a function of that sequence.
 */
module MigrationRuns {
  import opened Options
  import opened IdentityMigration

  /** The number of a statement in its boot. */
  type Index = i: nat | i < STATEMENT_COUNT

  const SESSIONS_REPOINT: Index := 2
  const SESSIONS_DROP: Index := 3
  const APPROVERS: Index := 4 + 2 * REF_TABLES
  const DROP_ADMINS: Index := STATEMENT_COUNT - 1

  /** The executed statements of all boots, in the order the database saw them. */
  function RunTrace(db: Db, trace: seq<Index>): Db {
    if trace == [] then db else Advance(RunTrace(db, trace[..|trace| - 1]), trace[|trace| - 1])
  }

  /** The two inserts are not tolerated to fail, so whatever follows them in a boot follows them in the database. */
  ghost predicate Legal(trace: seq<Index>) {
    forall p :: 0 <= p < |trace| ==> (0 < trace[p] ==> 0 in trace[..p]) && (1 < trace[p] ==> 1 in trace[..p])
  }

  /** Statement `i` was executed before any of `stops`. */
  predicate Took(trace: seq<Index>, i: Index, stops: set<Index>) {
    trace != [] &&
    (Took(trace[..|trace| - 1], i, stops) ||
     (trace[|trace| - 1] == i && forall s :: s in stops ==> s !in trace[..|trace| - 1]))
  }

  lemma {:induction false} TookWhileUnstopped(trace: seq<Index>, i: Index, stops: set<Index>)
    ensures Took(trace, i, stops) ==> i in trace
    ensures (forall s :: s in stops ==> s !in trace) ==> (Took(trace, i, stops) <==> i in trace)
  {
    if trace != [] {
      var init := trace[..|trace| - 1];
      TookWhileUnstopped(init, i, stops);
      assert trace == init + [trace[|trace| - 1]];
    }
  }

  lemma LegalPrefix(trace: seq<Index>)
    requires Legal(trace) && trace != []
    ensures var init, last := trace[..|trace| - 1], trace[|trace| - 1];
            Legal(init) && (0 < last ==> 0 in init) && (1 < last ==> 1 in init)
  {
    var init := trace[..|trace| - 1];
    assert forall p :: 0 <= p <= |init| ==> init[..p] == trace[..p];
  }

  /** The admins table is dropped only after both inserts. */
  lemma {:induction false} DroppedAfterInserts(trace: seq<Index>)
    requires Legal(trace) && DROP_ADMINS in trace
    ensures 0 in trace && 1 in trace
  {
    var p :| 0 <= p < |trace| && trace[p] == DROP_ADMINS;
    assert 0 in trace[..p] && 1 in trace[..p];
  }

  // ------------------------------------------------------------------
  // Each table after a history.
  // ------------------------------------------------------------------

  ghost predicate CoreAfter(db: Db, s: Db, trace: seq<Index>)
    requires db.admins.Some?
  {
    && s.admins == (if DROP_ADMINS in trace then None else db.admins)
    && |s.refs| == REF_TABLES
    && s.users == (if 0 in trace then Users(db) else map[])
    && s.memberships == (if 1 in trace then WithMemberships(db.admins.value, Users(db), {}) else {})
  }

  lemma InAppend(init: seq<Index>, i: Index)
    ensures forall j :: j in init + [i] <==> j in init || j == i
  {
  }

  lemma CoreStep(db: Db, s: Db, init: seq<Index>, i: Index)
    requires Unmigrated(db) && Legal(init) && CoreAfter(db, s, init) && (0 < i ==> 0 in init) && (1 < i ==> 1 in init)
    ensures CoreAfter(db, Advance(s, i), init + [i])
  {
    hide Exec, StatementAt, Users, WithUsers, WithMemberships, Legal;
    InAppend(init, i);
    if DROP_ADMINS in init {
      DroppedAfterInserts(init);
    } else {
      ExecWritesOneTable(s, i);
      InsertsSettle(db);
    }
  }

  lemma {:induction false} CoreHolds(db: Db, trace: seq<Index>)
    requires Unmigrated(db) && Legal(trace)
    ensures CoreAfter(db, RunTrace(db, trace), trace)
  {
    if trace != [] {
      hide Advance, CoreAfter, Legal, RunTrace;
      var init, i := trace[..|trace| - 1], trace[|trace| - 1];
      LegalPrefix(trace);
      CoreHolds(db, init);
      RunLast(db, trace);
      CoreStep(db, RunTrace(db, init), init, i);
      Snoc(trace);
    }
  }

  lemma Snoc(trace: seq<Index>)
    requires trace != []
    ensures trace[..|trace| - 1] + [trace[|trace| - 1]] == trace
  {
  }

  lemma InsertsSettle(db: Db)
    requires db.admins.Some?
    ensures var admins := db.admins.value;
            && WithUsers(admins, map[]) == Users(db) && WithUsers(admins, Users(db)) == Users(db)
            && var ms := WithMemberships(admins, Users(db), {}); WithMemberships(admins, Users(db), ms) == ms
  {
    hide WithUsers, WithMemberships, UsersAreCanonical;
    CanonicalUsers(db);
    UsersSettle(db.admins.value, Users(db));
    MembershipsSettle(db.admins.value, Users(db));
  }

  /** A reference table by whether its repoint took effect and whether its column was dropped. */
  function Kept(admins: Admins, users: map<string, User>, t: RefTable, withTeam: bool, repointed: bool, dropped: bool): RefTable {
    var r := if repointed then RepointTable(admins, users, t, withTeam) else t;
    if dropped then DropAdminColumn(r) else r
  }

  lemma KeptSteps(admins: Admins, users: map<string, User>, t: RefTable, withTeam: bool, repointed: bool, dropped: bool)
    ensures var k := Kept(admins, users, t, withTeam, repointed, dropped);
            && RepointTable(admins, users, k, withTeam) == Kept(admins, users, t, withTeam, repointed || !dropped, dropped)
            && DropAdminColumn(k) == Kept(admins, users, t, withTeam, repointed, true)
  {
    RepointSettles(admins, users, t, withTeam);
    RepointAfterDrop(admins, users, t, withTeam);
    hide RepointTable, DropAdminColumn;
    DropSettles(t);
    DropSettles(RepointTable(admins, users, t, withTeam));
  }

  lemma RepointAfterDrop(admins: Admins, users: map<string, User>, t: RefTable, withTeam: bool)
    ensures RepointTable(admins, users, DropAdminColumn(t), withTeam) == DropAdminColumn(t)
  {
  }

  /** A statement extends what a history took: unless the admins table is gone, and the repoint unless it came too late. */
  lemma TookStep(trace: seq<Index>, repoint: Index, drop: Index)
    requires trace != [] && repoint != drop && repoint != DROP_ADMINS && drop != DROP_ADMINS
    ensures var init, last := trace[..|trace| - 1], trace[|trace| - 1];
            var before, after := Took(init, repoint, {drop, DROP_ADMINS}), Took(trace, repoint, {drop, DROP_ADMINS});
            var gone, dropped := DROP_ADMINS in init, Took(init, drop, {DROP_ADMINS});
            && (gone ==> after == before && Took(trace, drop, {DROP_ADMINS}) == dropped)
            && (!gone ==>
                  && after == (before || (last == repoint && !dropped))
                  && Took(trace, drop, {DROP_ADMINS}) == (dropped || last == drop))
  {
    var init := trace[..|trace| - 1];
    TookWhileUnstopped(init, drop, {DROP_ADMINS});
    TookWhileUnstopped(init, repoint, {drop, DROP_ADMINS});
  }

  lemma {:induction false} SessionsHold(db: Db, trace: seq<Index>)
    requires Unmigrated(db) && Legal(trace)
    ensures RunTrace(db, trace).sessions ==
              Kept(db.admins.value, Users(db), db.sessions, true,
                   Took(trace, SESSIONS_REPOINT, {SESSIONS_DROP, DROP_ADMINS}), Took(trace, SESSIONS_DROP, {DROP_ADMINS}))
  {
    hide Exec, StatementAt, Users, Kept, RepointTable, DropAdminColumn, WithUsers, WithMemberships;
    if trace == [] {
      KeptAtFirst(db.admins.value, Users(db), db.sessions, true);
    } else {
      var init, i := trace[..|trace| - 1], trace[|trace| - 1];
      LegalPrefix(trace);
      SessionsHold(db, init);
      CoreHolds(db, init);
      TookStep(trace, SESSIONS_REPOINT, SESSIONS_DROP);
      hide Took;
      if DROP_ADMINS !in init {
        ExecWritesOneTable(RunTrace(db, init), i);
        KeptSteps(db.admins.value, Users(db), db.sessions, true,
                  Took(init, SESSIONS_REPOINT, {SESSIONS_DROP, DROP_ADMINS}), Took(init, SESSIONS_DROP, {DROP_ADMINS}));
      }
    }
  }

  lemma KeptAtFirst(admins: Admins, users: map<string, User>, t: RefTable, withTeam: bool)
    ensures Kept(admins, users, t, withTeam, false, false) == t
  {
  }

  lemma RefsStep(db: Db, s: Db, init: seq<Index>, i: Index, j: nat, repoint: Index, drop: Index, repointed: bool, dropped: bool)
    requires Unmigrated(db) && CoreAfter(db, s, init) && DROP_ADMINS !in init && (1 < i ==> 0 in init)
    requires j < REF_TABLES && repoint == 4 + 2 * j && drop == 5 + 2 * j
    requires s.refs[j] == Kept(db.admins.value, Users(db), db.refs[j], false, repointed, dropped)
    ensures var t := Advance(s, i);
            && |t.refs| == REF_TABLES
            && t.refs[j] == Kept(db.admins.value, Users(db), db.refs[j], false,
                                 repointed || (i == repoint && !dropped), dropped || i == drop)
  {
    hide Exec, StatementAt, Users, Kept, RepointTable, DropAdminColumn, WithUsers, WithMemberships;
    ExecWritesOneRefTable(s, i, j);
    KeptSteps(db.admins.value, Users(db), db.refs[j], false, repointed, dropped);
  }

  lemma {:induction false} RefsHold(db: Db, trace: seq<Index>, j: nat, repoint: Index, drop: Index)
    requires Unmigrated(db) && Legal(trace) && j < REF_TABLES && repoint == 4 + 2 * j && drop == 5 + 2 * j
    ensures |RunTrace(db, trace).refs| == REF_TABLES
    ensures RunTrace(db, trace).refs[j] ==
              Kept(db.admins.value, Users(db), db.refs[j], false,
                   Took(trace, repoint, {drop, DROP_ADMINS}), Took(trace, drop, {DROP_ADMINS}))
  {
    hide Users, Kept, Legal, RunTrace;
    if trace == [] {
      KeptAtFirst(db.admins.value, Users(db), db.refs[j], false);
      NothingRun(db);
    } else {
      var init, i := trace[..|trace| - 1], trace[|trace| - 1];
      LegalPrefix(trace);
      RefsHold(db, init, j, repoint, drop);
      CoreHolds(db, init);
      TookStep(trace, repoint, drop);
      RunLast(db, trace);
      hide Took, Advance;
      if DROP_ADMINS in init {
        GoneStays(db, RunTrace(db, init), init, i);
      } else {
        RefsStep(db, RunTrace(db, init), init, i, j, repoint, drop,
                 Took(init, repoint, {drop, DROP_ADMINS}), Took(init, drop, {DROP_ADMINS}));
      }
    }
  }

  lemma NothingRun(db: Db)
    ensures RunTrace(db, []) == db
  {
  }

  lemma RunLast(db: Db, trace: seq<Index>)
    requires trace != []
    ensures RunTrace(db, trace) == Advance(RunTrace(db, trace[..|trace| - 1]), trace[|trace| - 1])
  {
  }

  lemma GoneStays(db: Db, s: Db, init: seq<Index>, i: Index)
    requires db.admins.Some? && CoreAfter(db, s, init) && DROP_ADMINS in init
    ensures Advance(s, i) == s
  {
  }

  lemma {:induction false} ApproversHold(db: Db, trace: seq<Index>)
    requires Unmigrated(db) && Legal(trace)
    ensures RunTrace(db, trace).approvers ==
              if Took(trace, APPROVERS, {DROP_ADMINS}) then RepointApprovers(db.admins.value, Users(db), db.approvers) else db.approvers
  {
    hide Exec, StatementAt, Users, RepointApprovers, WithUsers, WithMemberships;
    if trace != [] {
      var init, i := trace[..|trace| - 1], trace[|trace| - 1];
      LegalPrefix(trace);
      ApproversHold(db, init);
      CoreHolds(db, init);
      TookWhileUnstopped(init, APPROVERS, {DROP_ADMINS});
      if DROP_ADMINS !in init {
        ExecWritesOneTable(RunTrace(db, init), i);
        CanonicalUsers(db);
        ApproversSettle(db.admins.value, Users(db), db.approvers);
      }
    }
  }

  // ------------------------------------------------------------------
  // What references mean after a history.
  // ------------------------------------------------------------------

  /** The validating join depends on users, memberships and the one session row. */
  lemma SameJoin(a: Db, b: Db, token: string)
    requires a.users == b.users && a.memberships == b.memberships
    requires token in a.sessions.rows && token in b.sessions.rows
    requires a.sessions.rows[token].user == b.sessions.rows[token].user && a.sessions.rows[token].team == b.sessions.rows[token].team
    ensures ResolveSession(a, token) == ResolveSession(b, token)
  {
  }

  lemma UnpointedResolvesToNobody(db: Db, token: string)
    requires token in db.sessions.rows && db.sessions.rows[token].user == None
    ensures ResolveSession(db, token) == {}
  {
  }

  lemma {:induction false} TookAfterInserts(trace: seq<Index>, i: Index, stops: set<Index>)
    requires Legal(trace) && 1 < i && Took(trace, i, stops)
    ensures 0 in trace && 1 in trace
  {
    LegalPrefix(trace);
    var init := trace[..|trace| - 1];
    if Took(init, i, stops) {
      TookAfterInserts(init, i, stops);
    }
  }

  /**
   After any history a session resolves to exactly the member it resolved to before if some boot executed
   the session repoint before any boot dropped the column or the admins table; otherwise to nobody.
   */
  lemma SessionKeptIffRepointedFirst(db: Db, trace: seq<Index>, token: string)
    requires Legacy(db) && Legal(trace) && token in db.sessions.rows
    ensures ResolveSession(RunTrace(db, trace), token) ==
              if Took(trace, SESSIONS_REPOINT, {SESSIONS_DROP, DROP_ADMINS}) then {LegacyMember(db, token)} else {}
  {
    hide BootWith, RunTrace, Users, RepointTable, DropAdminColumn, UsersAreCanonical, LegacyRefs, WithMemberships, ResolveSession, Took;
    var end := RunTrace(db, trace);
    var took := Took(trace, SESSIONS_REPOINT, {SESSIONS_DROP, DROP_ADMINS});
    var dropped := Took(trace, SESSIONS_DROP, {DROP_ADMINS});
    CoreHolds(db, trace);
    SessionsHold(db, trace);
    CanonicalUsers(db);
    if took {
      TookAfterInserts(trace, SESSIONS_REPOINT, {SESSIONS_DROP, DROP_ADMINS});
      RepointedRow(db.admins.value, Users(db), db.sessions, true, dropped, token);
      CoreAt(db, STATEMENT_COUNT, {});
      SessionIsRepointed(db, {}, token);
      SameJoin(end, FullBoot(db, {}), token);
      SessionsKeepTheirMeaning(db, {}, token);
    } else {
      UnrepointedRow(db.admins.value, db.sessions, dropped, token);
      UnpointedResolvesToNobody(end, token);
    }
  }

  /** The same for every other reference: it ends at its person's user, or at nobody. */
  lemma RefKeptIffRepointedFirst(db: Db, trace: seq<Index>, j: nat, key: string)
    requires Legacy(db) && Legal(trace) && j < REF_TABLES && key in db.refs[j].rows
    ensures var end := RunTrace(db, trace);
            var email := db.admins.value[db.refs[j].rows[key].admin.value].email;
            && j < |end.refs| && key in end.refs[j].rows
            && (if Took(trace, 4 + 2 * j, {5 + 2 * j, DROP_ADMINS})
                then email in end.users && end.refs[j].rows[key].user == Some(end.users[email].id)
                else end.refs[j].rows[key].user == None)
  {
    hide RunTrace, Users, RepointTable, DropAdminColumn, UsersAreCanonical, LegacyRefs, WithMemberships, Took;
    var dropped := Took(trace, 5 + 2 * j, {DROP_ADMINS});
    CoreHolds(db, trace);
    RefsHold(db, trace, j, 4 + 2 * j, 5 + 2 * j);
    CanonicalUsers(db);
    if Took(trace, 4 + 2 * j, {5 + 2 * j, DROP_ADMINS}) {
      TookAfterInserts(trace, 4 + 2 * j, {5 + 2 * j, DROP_ADMINS});
      RepointedRow(db.admins.value, Users(db), db.refs[j], false, dropped, key);
    } else {
      UnrepointedRow(db.admins.value, db.refs[j], dropped, key);
    }
  }

  // ------------------------------------------------------------------
  // Boots one after another.
  // ------------------------------------------------------------------

  /** A boot that stops after `stop` statements and passes over those in `failed`. */
  datatype BootRun = BootRun(stop: nat, failed: set<nat>)

  type ProperBoot = b: BootRun | b.stop <= STATEMENT_COUNT && Tolerated(b.failed) witness BootRun(0, {})

  predicate Executes(b: BootRun, i: Index) {
    i < b.stop && i !in b.failed
  }

  function BootTrace(stop: nat, failed: set<nat>): seq<Index>
    requires stop <= STATEMENT_COUNT
  {
    if stop == 0 then []
    else if stop - 1 in failed then BootTrace(stop - 1, failed)
    else BootTrace(stop - 1, failed) + [stop - 1]
  }

  function HistoryOf(boots: seq<ProperBoot>): seq<Index>
  {
    if boots == [] then []
    else
      var last := boots[|boots| - 1];
      HistoryOf(boots[..|boots| - 1]) + BootTrace(last.stop, last.failed)
  }

  /** The database after all boots. */
  function BootsRun(db: Db, boots: seq<ProperBoot>): Db
  {
    if boots == [] then db
    else
      var last := boots[|boots| - 1];
      BootWith(BootsRun(db, boots[..|boots| - 1]), last.stop, last.failed)
  }

  lemma RunAppend(db: Db, trace: seq<Index>, i: Index)
    ensures RunTrace(db, trace + [i]) == Advance(RunTrace(db, trace), i)
  {
    assert (trace + [i])[..|trace|] == trace;
  }

  lemma AppendLast(a: seq<Index>, b: seq<Index>, i: Index)
    ensures a + (b + [i]) == (a + b) + [i]
  {
  }

  lemma RunOneMore(db: Db, a: seq<Index>, b: seq<Index>, i: Index)
    ensures RunTrace(db, a + (b + [i])) == Advance(RunTrace(db, a + b), i)
  {
    hide RunTrace, Advance;
    AppendLast(a, b, i);
    RunAppend(db, a + b, i);
  }

  lemma BootTraceLast(stop: nat, failed: set<nat>)
    requires 0 < stop <= STATEMENT_COUNT
    ensures BootTrace(stop, failed) ==
              if stop - 1 in failed then BootTrace(stop - 1, failed) else BootTrace(stop - 1, failed) + [stop - 1]
  {
  }

  lemma BootLast(db: Db, stop: nat, failed: set<nat>)
    requires 0 < stop <= STATEMENT_COUNT
    ensures BootWith(db, stop, failed) ==
              if stop - 1 in failed then BootWith(db, stop - 1, failed) else Advance(BootWith(db, stop - 1, failed), stop - 1)
  {
  }

  lemma BootNothing(db: Db, failed: set<nat>)
    ensures BootWith(db, 0, failed) == db
  {
  }

  lemma {:induction false} BootIsATrace(db: Db, trace: seq<Index>, stop: nat, failed: set<nat>)
    requires stop <= STATEMENT_COUNT
    ensures BootWith(RunTrace(db, trace), stop, failed) == RunTrace(db, trace + BootTrace(stop, failed))
  {
    hide Advance, RunTrace, BootTrace, BootWith;
    if stop == 0 {
      BootNothing(RunTrace(db, trace), failed);
      TraceOfNothing(failed);
      assert trace + [] == trace;
    } else {
      BootIsATrace(db, trace, stop - 1, failed);
      BootTraceLast(stop, failed);
      BootLast(RunTrace(db, trace), stop, failed);
      if stop - 1 !in failed {
        RunOneMore(db, trace, BootTrace(stop - 1, failed), stop - 1);
      }
    }
  }

  lemma {:induction false} BootsAreATrace(db: Db, boots: seq<ProperBoot>)
    ensures BootsRun(db, boots) == RunTrace(db, HistoryOf(boots))
  {
    if boots != [] {
      var init, last := boots[..|boots| - 1], boots[|boots| - 1];
      BootsAreATrace(db, init);
      BootIsATrace(db, HistoryOf(init), last.stop, last.failed);
    }
  }

  /** The statements of a boot. */
  lemma {:induction false} BootTraceHas(stop: nat, failed: set<nat>, i: Index)
    requires stop <= STATEMENT_COUNT
    ensures i in BootTrace(stop, failed) <==> i < stop && i !in failed
  {
    if stop > 0 {
      BootTraceHas(stop - 1, failed, i);
    }
  }

  /** None of the inserts is missing. */
  lemma {:induction false} BootTraceIsLegal(stop: nat, failed: set<nat>)
    requires stop <= STATEMENT_COUNT && Tolerated(failed)
    ensures Legal(BootTrace(stop, failed))
  {
    hide Legal;
    if stop == 0 {
      LegalNothing();
    } else {
      BootTraceIsLegal(stop - 1, failed);
      BootTraceHas(stop - 1, failed, 0);
      BootTraceHas(stop - 1, failed, 1);
      if stop - 1 !in failed {
        LegalAppend(BootTrace(stop - 1, failed), stop - 1);
      }
    }
  }

  lemma LegalNothing()
    ensures Legal([])
  {
  }

  lemma LegalAppend(trace: seq<Index>, i: Index)
    requires Legal(trace) && (0 < i ==> 0 in trace) && (1 < i ==> 1 in trace)
    ensures Legal(trace + [i])
  {
    var t := trace + [i];
    assert forall p :: 0 <= p <= |trace| ==> t[..p] == trace[..p];
    assert trace[..|trace|] == trace;
  }

  lemma LegalConcat(a: seq<Index>, b: seq<Index>)
    requires Legal(a) && Legal(b)
    ensures Legal(a + b)
  {
    var t := a + b;
    forall p | 0 <= p < |t| ensures (0 < t[p] ==> 0 in t[..p]) && (1 < t[p] ==> 1 in t[..p]) {
      if p < |a| {
        assert t[..p] == a[..p];
      } else {
        assert t[..p] == a + b[..p - |a|];
      }
    }
  }

  lemma {:induction false} HistoryIsLegal(boots: seq<ProperBoot>)
    ensures Legal(HistoryOf(boots))
  {
    if boots != [] {
      var init, last := boots[..|boots| - 1], boots[|boots| - 1];
      HistoryIsLegal(init);
      BootTraceIsLegal(last.stop, last.failed);
      LegalConcat(HistoryOf(init), BootTrace(last.stop, last.failed));
    }
  }

  predicate Executed(boots: seq<ProperBoot>, i: Index) {
    exists b :: b in boots && Executes(b, i)
  }

  /** Some boot executed `i` and no earlier boot executed any of `stops`. */
  predicate TookInBoots(boots: seq<ProperBoot>, i: Index, stops: set<Index>) {
    boots != [] &&
    (TookInBoots(boots[..|boots| - 1], i, stops) ||
     (Executes(boots[|boots| - 1], i) && forall s :: s in stops ==> !Executed(boots[..|boots| - 1], s)))
  }

  lemma TookAppend(trace: seq<Index>, last: Index, i: Index, stops: set<Index>)
    ensures Took(trace + [last], i, stops) <==> Took(trace, i, stops) || (last == i && forall s :: s in stops ==> s !in trace)
  {
    assert (trace + [last])[..|trace|] == trace;
  }

  lemma NoneOfTheLater(trace: seq<Index>, stop: nat, failed: set<nat>, stops: set<Index>)
    requires stop <= STATEMENT_COUNT && Tolerated(failed) && forall s :: s in stops ==> stop < s
    ensures (forall s :: s in stops ==> s !in trace + BootTrace(stop, failed)) <==> (forall s :: s in stops ==> s !in trace)
  {
    forall s | s in stops ensures s !in BootTrace(stop, failed) {
      BootTraceHas(stop, failed, s);
    }
    hide BootTrace;
  }

  /** Within one boot, appended to a history: `i` comes before the later statements `stops`. */
  lemma {:induction false} TookInOneBoot(trace: seq<Index>, stop: nat, failed: set<nat>, i: Index, stops: set<Index>)
    requires stop <= STATEMENT_COUNT && Tolerated(failed) && forall s :: s in stops ==> i < s
    ensures Took(trace + BootTrace(stop, failed), i, stops) <==>
              Took(trace, i, stops) || (i < stop && i !in failed && forall s :: s in stops ==> s !in trace)
  {
    hide Took, Tolerated, BootTrace;
    if stop == 0 {
      TraceOfNothing(failed);
      assert trace + [] == trace;
    } else {
      TookInOneBoot(trace, stop - 1, failed, i, stops);
      BootTraceLast(stop, failed);
      if stop - 1 !in failed {
        var before := BootTrace(stop - 1, failed);
        AppendLast(trace, before, stop - 1);
        TookAppend(trace + before, stop - 1, i, stops);
        if stop - 1 == i {
          NoneOfTheLater(trace, stop - 1, failed, stops);
        }
      }
    }
  }

  lemma TraceOfNothing(failed: set<nat>)
    ensures BootTrace(0, failed) == []
  {
  }

  lemma ExecutedLast(boots: seq<ProperBoot>, i: Index)
    requires boots != []
    ensures Executed(boots, i) <==> Executed(boots[..|boots| - 1], i) || Executes(boots[|boots| - 1], i)
  {
    var init, last := boots[..|boots| - 1], boots[|boots| - 1];
    assert last in boots && boots == init + [last];
  }

  lemma {:induction false} HistoryHas(boots: seq<ProperBoot>, i: Index)
    ensures i in HistoryOf(boots) <==> Executed(boots, i)
  {
    if boots != [] {
      var init, last := boots[..|boots| - 1], boots[|boots| - 1];
      HistoryHas(init, i);
      ExecutedLast(boots, i);
      BootTraceHas(last.stop, last.failed, i);
      hide Executed, BootTrace;
    }
  }

  lemma {:induction false} TookByBoots(boots: seq<ProperBoot>, i: Index, stops: set<Index>)
    requires forall s :: s in stops ==> i < s
    ensures Took(HistoryOf(boots), i, stops) <==> TookInBoots(boots, i, stops)
  {
    if boots != [] {
      hide Took, Executed, BootTrace;
      var init, last := boots[..|boots| - 1], boots[|boots| - 1];
      TookByBoots(init, i, stops);
      TookInOneBoot(HistoryOf(init), last.stop, last.failed, i, stops);
      forall s | s in stops ensures s in HistoryOf(init) <==> Executed(init, s) {
        HistoryHas(init, s);
      }
    }
  }

  /**
   Any sequence of boots, each stopped anywhere and passing over any tolerated failures: a session keeps its
   meaning if and only if some boot executed the session repoint and no earlier boot executed the column drop
   or finished; otherwise it resolves to nobody.
   */
  lemma BootsKeepSessionIff(db: Db, boots: seq<ProperBoot>, token: string)
    requires Legacy(db) && token in db.sessions.rows
    ensures ResolveSession(BootsRun(db, boots), token) ==
              if TookInBoots(boots, SESSIONS_REPOINT, {SESSIONS_DROP, DROP_ADMINS}) then {LegacyMember(db, token)} else {}
  {
    hide BootsRun, RunTrace, HistoryOf, Took, TookInBoots, ResolveSession, Legacy;
    BootsAreATrace(db, boots);
    HistoryIsLegal(boots);
    SessionKeptIffRepointedFirst(db, HistoryOf(boots), token);
    TookByBoots(boots, SESSIONS_REPOINT, {SESSIONS_DROP, DROP_ADMINS});
  }

  /** The same per reference table. */
  lemma BootsKeepRefIff(db: Db, boots: seq<ProperBoot>, j: nat, key: string)
    requires Legacy(db) && j < REF_TABLES && key in db.refs[j].rows
    ensures var end := BootsRun(db, boots);
            var email := db.admins.value[db.refs[j].rows[key].admin.value].email;
            && j < |end.refs| && key in end.refs[j].rows
            && (if TookInBoots(boots, 4 + 2 * j, {5 + 2 * j, DROP_ADMINS})
                then email in end.users && end.refs[j].rows[key].user == Some(end.users[email].id)
                else end.refs[j].rows[key].user == None)
  {
    hide BootsRun, RunTrace, HistoryOf, Took, TookInBoots;
    BootsAreATrace(db, boots);
    HistoryIsLegal(boots);
    RefKeptIffRepointedFirst(db, HistoryOf(boots), j, key);
    TookByBoots(boots, 4 + 2 * j, {5 + 2 * j, DROP_ADMINS});
  }

  // ------------------------------------------------------------------
  // Boots of several instances at once.
  // ------------------------------------------------------------------

  /** A boot begins, or issues its next statement, which is executed or fails. */
  datatype InstanceEvent = Begin(boot: nat) | Issue(boot: nat, ok: bool)

  datatype Instances = Instances(db: Db, progress: map<nat, nat>, trace: seq<Index>)

  /** A tolerated failure is passed over; any other ends its boot. */
  function InstancesNext(f: Instances, ev: InstanceEvent): Instances {
    var b := ev.boot;
    if ev.Begin? then (if b in f.progress then f else f.(progress := f.progress[b := 0]))
    else if b !in f.progress || f.progress[b] >= STATEMENT_COUNT then f
    else
      var i := f.progress[b];
      if ev.ok then Instances(Advance(f.db, i), f.progress[b := i + 1], f.trace + [i])
      else if Tolerated({i}) then f.(progress := f.progress[b := i + 1])
      else f.(progress := f.progress - {b})
  }

  function InstancesAt(db: Db, events: seq<InstanceEvent>, n: nat): Instances
    requires n <= |events|
  {
    if n == 0 then Instances(db, map[], []) else InstancesNext(InstancesAt(db, events, n - 1), events[n - 1])
  }

  /** No boot is past an insert that the database has not seen. */
  ghost predicate InOrder(f: Instances) {
    && Legal(f.trace)
    && forall b :: b in f.progress ==> (0 < f.progress[b] ==> 0 in f.trace) && (1 < f.progress[b] ==> 1 in f.trace)
  }

  lemma InOrderStep(f: Instances, ev: InstanceEvent)
    requires InOrder(f)
    ensures InOrder(InstancesNext(f, ev))
  {
    hide Advance, Legal;
    var b := ev.boot;
    if ev.Issue? && b in f.progress && f.progress[b] < STATEMENT_COUNT {
      var i := f.progress[b];
      if ev.ok {
        LegalAppend(f.trace, i);
        assert forall x :: x in f.trace + [i] <==> x in f.trace || x == i;
      } else {
        assert i < 2 ==> i in {i};
      }
    }
  }

  /** Whatever interleaving, stops and failures: the database is the result of a legal history. */
  lemma {:induction false} InstancesRunATrace(db: Db, events: seq<InstanceEvent>, n: nat)
    requires n <= |events|
    ensures var f := InstancesAt(db, events, n); InOrder(f) && f.db == RunTrace(db, f.trace)
  {
    if n > 0 {
      InstancesRunATrace(db, events, n - 1);
      var f, ev := InstancesAt(db, events, n - 1), events[n - 1];
      InOrderStep(f, ev);
      hide Advance, InOrder;
      if ev.Issue? && ev.ok && ev.boot in f.progress && f.progress[ev.boot] < STATEMENT_COUNT {
        RunAppend(db, f.trace, f.progress[ev.boot]);
      }
    }
  }

  /** So concurrent boots keep a session exactly when its repoint was executed before any column or table drop. */
  lemma InstancesKeepSessionIff(db: Db, events: seq<InstanceEvent>, token: string)
    requires Legacy(db) && token in db.sessions.rows
    ensures var f := InstancesAt(db, events, |events|);
            ResolveSession(f.db, token) ==
              if Took(f.trace, SESSIONS_REPOINT, {SESSIONS_DROP, DROP_ADMINS}) then {LegacyMember(db, token)} else {}
  {
    hide InstancesAt, RunTrace, Took, ResolveSession, Legacy;
    InstancesRunATrace(db, events, |events|);
    SessionKeptIffRepointedFirst(db, InstancesAt(db, events, |events|).trace, token);
  }

  lemma InstancesKeepRefIff(db: Db, events: seq<InstanceEvent>, j: nat, key: string)
    requires Legacy(db) && j < REF_TABLES && key in db.refs[j].rows
    ensures var f := InstancesAt(db, events, |events|);
            var email := db.admins.value[db.refs[j].rows[key].admin.value].email;
            && j < |f.db.refs| && key in f.db.refs[j].rows
            && (if Took(f.trace, 4 + 2 * j, {5 + 2 * j, DROP_ADMINS})
                then email in f.db.users && f.db.refs[j].rows[key].user == Some(f.db.users[email].id)
                else f.db.refs[j].rows[key].user == None)
  {
    hide InstancesAt, RunTrace, Took;
    InstancesRunATrace(db, events, |events|);
    RefKeptIffRepointedFirst(db, InstancesAt(db, events, |events|).trace, j, key);
  }

  /** Once some boot has dropped the admins table, no boot changes the database any more, whatever fails. */
  lemma {:induction false} FinishedIsFinal(db: Db, events: seq<InstanceEvent>, n: nat, m: nat)
    requires n <= m <= |events| && InstancesAt(db, events, n).db.admins.None?
    ensures InstancesAt(db, events, m).db == InstancesAt(db, events, n).db
    decreases m
  {
    if n < m {
      FinishedIsFinal(db, events, n, m - 1);
    }
  }

  /** Two histories that took the same statements in time leave the same database. */
  ghost predicate SameTakes(a: seq<Index>, b: seq<Index>) {
    && (0 in a <==> 0 in b) && (1 in a <==> 1 in b) && (DROP_ADMINS in a <==> DROP_ADMINS in b)
    && forall i: Index, d: Index :: Took(a, i, {d, DROP_ADMINS}) <==> Took(b, i, {d, DROP_ADMINS})
  }

  /** The generalized agreement of boots: the database depends only on which statements took effect in time. */
  lemma HistoriesAgree(db: Db, a: seq<Index>, b: seq<Index>)
    requires Unmigrated(db) && Legal(a) && Legal(b) && SameTakes(a, b)
    ensures RunTrace(db, a) == RunTrace(db, b)
  {
    hide RunTrace, Kept, Took, Users, WithMemberships, RepointApprovers, Legal;
    var x, y := RunTrace(db, a), RunTrace(db, b);
    assert forall i: Index :: {i, i} == {i};
    assert {DROP_ADMINS, DROP_ADMINS} == {DROP_ADMINS};
    CoreHolds(db, a);
    CoreHolds(db, b);
    SessionsHold(db, a);
    SessionsHold(db, b);
    ApproversHold(db, a);
    ApproversHold(db, b);
    assert Took(a, SESSIONS_DROP, {DROP_ADMINS, DROP_ADMINS}) <==> Took(b, SESSIONS_DROP, {DROP_ADMINS, DROP_ADMINS});
    assert Took(a, APPROVERS, {DROP_ADMINS, DROP_ADMINS}) <==> Took(b, APPROVERS, {DROP_ADMINS, DROP_ADMINS});
    forall j | 0 <= j < REF_TABLES ensures x.refs[j] == y.refs[j] {
      RefsHold(db, a, j, 4 + 2 * j, 5 + 2 * j);
      RefsHold(db, b, j, 4 + 2 * j, 5 + 2 * j);
      assert Took(a, 5 + 2 * j, {DROP_ADMINS, DROP_ADMINS}) <==> Took(b, 5 + 2 * j, {DROP_ADMINS, DROP_ADMINS});
    }
    assert x.refs == y.refs;
  }
}
