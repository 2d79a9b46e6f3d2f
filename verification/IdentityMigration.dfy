/**
 The boot-time migration of legacy `admins` rows, one per person and team, into one
 `users` row per email and one membership per team, with every foreign key repointed.
 A boot may stop after any statement; the next boot runs the list again from the start.
 */
module IdentityMigration {
  import opened Options

  /** Row ids, with the order of the id column. */
  type Id = nat
  type Admins = map<Id, Admin>

  datatype Profile = Profile(displayName: Option<string>, matrixId: Option<string>, telegramId: Option<string>)
  datatype Admin = Admin(team: string, email: string, passwordHash: string, verified: bool, role: string,
                         profile: Profile, createdAt: int, updatedAt: int)

  /** Keyed by email in `Db.users`: that column is unique. */
  datatype User = User(id: Id, passwordHash: string, verified: bool, profile: Profile, createdAt: int, updatedAt: int)
  datatype Membership = Membership(user: Id, team: string, role: string, createdAt: int)

  /** A row that points at a person: by admin id before, by user id (and team) after. */
  datatype Ref = Ref(admin: Option<Id>, user: Option<Id>, team: Option<string>)
  datatype RefTable = RefTable(hasAdminColumn: bool, rows: map<string, Ref>)

  /** `refs`: email_verifications, password_resets, webauthn_credentials, admin_invites. */
  datatype Db = Db(
    admins: Option<Admins>,
    users: map<string, User>,
    memberships: set<Membership>,
    sessions: RefTable,
    refs: seq<RefTable>,
    approvers: map<string, Id>)

  const REF_TABLES := 4

  // ------------------------------------------------------------------
  // The statements.
  // ------------------------------------------------------------------

  predicate Before(admins: Admins, a: Id, b: Id)
    requires a in admins && b in admins
  {
    admins[a].createdAt < admins[b].createdAt || (admins[a].createdAt == admins[b].createdAt && a < b)
  }

  /** The row DISTINCT ON (email) keeps: the email's first by creation time, then id. */
  predicate Oldest(admins: Admins, id: Id) {
    id in admins && forall o :: o in admins && admins[o].email == admins[id].email && o != id ==> Before(admins, id, o)
  }

  predicate AnyVerified(admins: Admins, email: string) {
    exists o :: o in admins && admins[o].email == email && admins[o].verified
  }

  function UserFrom(admins: Admins, id: Id): User
    requires id in admins
  {
    var a := admins[id];
    User(id, a.passwordHash, AnyVerified(admins, a.email), a.profile, a.createdAt, a.updatedAt)
  }

  function WithUsers(admins: Admins, users: map<string, User>): map<string, User> {
    users + map id | id in admins && Oldest(admins, id) && admins[id].email !in users :: admins[id].email := UserFrom(admins, id)
  }

  predicate IsMember(memberships: set<Membership>, user: Id, team: string) {
    exists m :: m in memberships && m.user == user && m.team == team
  }

  function MembershipOf(a: Admin, u: User): Membership {
    Membership(u.id, a.team, a.role, a.createdAt)
  }

  function WithMemberships(admins: Admins, users: map<string, User>, ms: set<Membership>): set<Membership> {
    ms + set a | a in admins && admins[a].email in users && !IsMember(ms, users[admins[a].email].id, admins[a].team)
           :: MembershipOf(admins[a], users[admins[a].email])
  }

  /** The admin row a reference joins with, together with that person's user row. */
  predicate Joins(admins: Admins, users: map<string, User>, r: Ref) {
    r.admin.Some? && r.admin.value in admins && admins[r.admin.value].email in users
  }

  function Repointed(admins: Admins, users: map<string, User>, r: Ref, withTeam: bool): Ref {
    if Joins(admins, users, r) && (r.user.None? || (withTeam && r.team.None?)) then
      var a := admins[r.admin.value];
      Ref(r.admin, Some(users[a.email].id), if withTeam then Some(a.team) else r.team)
    else r
  }

  /** Without the admin column the UPDATE fails, and the failure is tolerated. */
  function RepointTable(admins: Admins, users: map<string, User>, t: RefTable, withTeam: bool): RefTable {
    if !t.hasAdminColumn then t
    else RefTable(true, map k | k in t.rows :: Repointed(admins, users, t.rows[k], withTeam))
  }

  function DropAdminColumn(t: RefTable): RefTable {
    if !t.hasAdminColumn then t
    else RefTable(false, map k | k in t.rows :: t.rows[k].(admin := None))
  }

  function RepointApprovers(admins: Admins, users: map<string, User>, approvers: map<string, Id>): map<string, Id> {
    map c | c in approvers ::
      if approvers[c] in admins && admins[approvers[c]].email in users then users[admins[approvers[c]].email].id else approvers[c]
  }

  datatype Statement =
    | InsertUsers | InsertMemberships | RepointSessions | DropSessionColumn
    | Repoint(table: nat) | DropColumn(table: nat) | RemapApprovers | DropAdmins

  const STATEMENT_COUNT := 6 + 2 * REF_TABLES

  /** The statements of one boot, in order. */
  function StatementAt(i: nat): Statement
    requires i < STATEMENT_COUNT
  {
    if i == 0 then InsertUsers
    else if i == 1 then InsertMemberships
    else if i == 2 then RepointSessions
    else if i == 3 then DropSessionColumn
    else if i < 4 + 2 * REF_TABLES then (if i % 2 == 0 then Repoint((i - 4) / 2) else DropColumn((i - 5) / 2))
    else if i == 4 + 2 * REF_TABLES then RemapApprovers
    else DropAdmins
  }

  function Exec(db: Db, s: Statement): Db
    requires db.admins.Some?
  {
    var admins := db.admins.value;
    match s
    case InsertUsers => db.(users := WithUsers(admins, db.users))
    case InsertMemberships => db.(memberships := WithMemberships(admins, db.users, db.memberships))
    case RepointSessions => db.(sessions := RepointTable(admins, db.users, db.sessions, true))
    case DropSessionColumn => db.(sessions := DropAdminColumn(db.sessions))
    case Repoint(j) =>
      if j < |db.refs| then db.(refs := db.refs[j := RepointTable(admins, db.users, db.refs[j], false)]) else db
    case DropColumn(j) => if j < |db.refs| then db.(refs := db.refs[j := DropAdminColumn(db.refs[j])]) else db
    case RemapApprovers => db.(approvers := RepointApprovers(admins, db.users, db.approvers))
    case DropAdmins => db.(admins := None)
  }

  /** The statements whose failure is tolerated: everything but the two inserts and the final drop. */
  predicate Tolerated(failed: set<nat>) {
    forall i :: i in failed ==> 2 <= i < STATEMENT_COUNT - 1
  }

  /** One statement by one instance; without the legacy table nothing is left to do. */
  function Advance(db: Db, i: nat): Db
    requires i < STATEMENT_COUNT
  {
    if db.admins.None? then db else Exec(db, StatementAt(i))
  }

  /** A boot that stops after `k` statements, of which those in `failed` failed and were passed over. */
  function BootWith(db: Db, k: nat, failed: set<nat>): Db
    requires k <= STATEMENT_COUNT
  {
    if k == 0 then db
    else if k - 1 in failed then BootWith(db, k - 1, failed)
    else Advance(BootWith(db, k - 1, failed), k - 1)
  }

  /** A boot that stops after `k` statements, none of which failed. */
  function Boot(db: Db, k: nat): Db
    requires k <= STATEMENT_COUNT
  {
    BootWith(db, k, {})
  }

  function FullBoot(db: Db, failed: set<nat> := {}): Db {
    BootWith(db, STATEMENT_COUNT, failed)
  }

  /** The legacy state: nothing migrated, (email, team) is unique, every reference resolves. */
  ghost predicate LegacyRefs(admins: Admins, t: RefTable) {
    t.hasAdminColumn && forall k :: k in t.rows ==>
      t.rows[k].admin.Some? && t.rows[k].admin.value in admins && t.rows[k].user == None && t.rows[k].team == None
  }

  predicate SamePlace(a: Admin, b: Admin) {
    a.email == b.email && a.team == b.team
  }

  ghost predicate OnePerPlace(admins: Admins) {
    forall a, b :: a in admins && b in admins && SamePlace(admins[a], admins[b]) ==> a == b
  }

  ghost predicate Unmigrated(db: Db) {
    && db.admins.Some? && OnePerPlace(db.admins.value)
    && db.users == map[] && db.memberships == {} && |db.refs| == REF_TABLES
  }

  ghost predicate Legacy(db: Db) {
    && Unmigrated(db)
    && LegacyRefs(db.admins.value, db.sessions)
    && (forall j :: 0 <= j < |db.refs| ==> LegacyRefs(db.admins.value, db.refs[j]))
  }

  // ------------------------------------------------------------------
  // Every email has exactly one oldest row.
  // ------------------------------------------------------------------

  function Earlier(admins: Admins, id: Id): set<Id>
    requires id in admins
  {
    set o | o in admins && admins[o].email == admins[id].email && Before(admins, o, id)
  }

  lemma {:induction false} FindOldest(admins: Admins, id: Id) returns (o: Id)
    requires id in admins
    ensures o in admins && admins[o].email == admins[id].email && Oldest(admins, o)
    decreases Earlier(admins, id)
  {
    if Oldest(admins, id) {
      o := id;
    } else {
      var e :| e in admins && admins[e].email == admins[id].email && e != id && !Before(admins, id, e);
      assert e in Earlier(admins, id) && e !in Earlier(admins, e);
      assert Earlier(admins, e) <= Earlier(admins, id);
      o := FindOldest(admins, e);
    }
  }

  /** The users of the migrated state: one per email, from its oldest row. */
  ghost predicate UsersAreCanonical(admins: Admins, users: map<string, User>) {
    && (forall a :: a in admins ==> admins[a].email in users)
    && (forall e :: e in users ==>
          users[e].id in admins && admins[users[e].id].email == e && Oldest(admins, users[e].id) &&
          users[e] == UserFrom(admins, users[e].id))
  }

  lemma InsertedUsersAreCanonical(admins: Admins)
    ensures UsersAreCanonical(admins, WithUsers(admins, map[]))
  {
    forall a | a in admins ensures admins[a].email in WithUsers(admins, map[]) {
      var o := FindOldest(admins, a);
    }
  }

  // ------------------------------------------------------------------
  // The tables after each prefix of the boot.
  // ------------------------------------------------------------------

  ghost function Users(db: Db): map<string, User>
    requires db.admins.Some?
  {
    WithUsers(db.admins.value, map[])
  }

  /** Each statement writes one table. */
  lemma ExecWritesOneTable(s: Db, i: nat)
    requires s.admins.Some? && i < STATEMENT_COUNT && |s.refs| == REF_TABLES
    ensures var t := Exec(s, StatementAt(i));
            && t.admins == (if i == STATEMENT_COUNT - 1 then None else s.admins)
            && t.users == (if i == 0 then WithUsers(s.admins.value, s.users) else s.users)
            && t.memberships == (if i == 1 then WithMemberships(s.admins.value, s.users, s.memberships) else s.memberships)
            && t.sessions == (if i == 2 then RepointTable(s.admins.value, s.users, s.sessions, true)
                              else if i == 3 then DropAdminColumn(s.sessions) else s.sessions)
            && |t.refs| == REF_TABLES
            && t.approvers == (if i == 4 + 2 * REF_TABLES then RepointApprovers(s.admins.value, s.users, s.approvers) else s.approvers)
  {
  }

  lemma ExecWritesOneRefTable(s: Db, i: nat, j: nat)
    requires s.admins.Some? && i < STATEMENT_COUNT && |s.refs| == REF_TABLES && j < REF_TABLES
    ensures |Exec(s, StatementAt(i)).refs| == REF_TABLES
    ensures Exec(s, StatementAt(i)).refs[j] ==
              if i == 4 + 2 * j then RepointTable(s.admins.value, s.users, s.refs[j], false)
              else if i == 5 + 2 * j then DropAdminColumn(s.refs[j]) else s.refs[j]
  {
  }

  lemma {:induction false} CoreAt(db: Db, k: nat, failed: set<nat>)
    requires Unmigrated(db) && k <= STATEMENT_COUNT && Tolerated(failed)
    ensures var s := BootWith(db, k, failed);
            && s.admins == (if k < STATEMENT_COUNT then db.admins else None)
            && |s.refs| == REF_TABLES
            && s.users == (if k < 1 then map[] else Users(db))
            && s.memberships == (if k < 2 then {} else WithMemberships(db.admins.value, Users(db), {}))
  {
    hide Exec, WithUsers, WithMemberships;
    if k > 0 {
      CoreAt(db, k - 1, failed);
      ExecWritesOneTable(BootWith(db, k - 1, failed), k - 1);
    }
  }

  lemma {:induction false} SessionsAt(db: Db, k: nat, failed: set<nat>)
    requires Unmigrated(db) && k <= STATEMENT_COUNT && Tolerated(failed)
    ensures var repointed := if k < 3 || 2 in failed then db.sessions
                             else RepointTable(db.admins.value, Users(db), db.sessions, true);
            BootWith(db, k, failed).sessions == if k < 4 || 3 in failed then repointed else DropAdminColumn(repointed)
  {
    hide Exec, WithUsers, WithMemberships, RepointTable, DropAdminColumn;
    if k > 0 {
      SessionsAt(db, k - 1, failed);
      CoreAt(db, k - 1, failed);
      ExecWritesOneTable(BootWith(db, k - 1, failed), k - 1);
    }
  }

  lemma {:induction false} RefsAt(db: Db, k: nat, j: nat, failed: set<nat>)
    requires Unmigrated(db) && k <= STATEMENT_COUNT && j < REF_TABLES && Tolerated(failed)
    ensures |BootWith(db, k, failed).refs| == REF_TABLES
    ensures var repointed := if k < 5 + 2 * j || 4 + 2 * j in failed then db.refs[j]
                             else RepointTable(db.admins.value, Users(db), db.refs[j], false);
            BootWith(db, k, failed).refs[j] ==
              if k < 6 + 2 * j || 5 + 2 * j in failed then repointed else DropAdminColumn(repointed)
  {
    hide Exec, WithUsers, WithMemberships, RepointTable, DropAdminColumn;
    if k > 0 {
      RefsAt(db, k - 1, j, failed);
      CoreAt(db, k - 1, failed);
      ExecWritesOneRefTable(BootWith(db, k - 1, failed), k - 1, j);
    }
  }

  lemma {:induction false} ApproversAt(db: Db, k: nat, failed: set<nat>)
    requires Unmigrated(db) && k <= STATEMENT_COUNT && Tolerated(failed)
    ensures BootWith(db, k, failed).approvers ==
              if k < 5 + 2 * REF_TABLES || 4 + 2 * REF_TABLES in failed then db.approvers
              else RepointApprovers(db.admins.value, Users(db), db.approvers)
  {
    hide Exec, WithUsers, WithMemberships, RepointApprovers;
    if k > 0 {
      ApproversAt(db, k - 1, failed);
      CoreAt(db, k - 1, failed);
      ExecWritesOneTable(BootWith(db, k - 1, failed), k - 1);
    }
  }

  // ------------------------------------------------------------------
  // Meaning is preserved, exactly where the repoint took effect.
  // ------------------------------------------------------------------

  /** Whom a session authenticates: the person's email, the team, and the role in it. */
  datatype Member = Member(email: string, team: string, role: string)

  function LegacyMember(db: Db, token: string): Member
    requires Legacy(db) && token in db.sessions.rows
  {
    var a := db.admins.value[db.sessions.rows[token].admin.value];
    Member(a.email, a.team, a.role)
  }

  /** The join of sessions, users and memberships that validates a session. */
  function ResolveSession(db: Db, token: string): set<Member> {
    set e, m | e in db.users && m in db.memberships && token in db.sessions.rows &&
      db.sessions.rows[token].user == Some(db.users[e].id) && m.user == db.users[e].id && db.sessions.rows[token].team == Some(m.team)
      :: Member(e, m.team, m.role)
  }

  /** `o` is the first of the rows with its email, by creation time and then by id. */
  ghost predicate ComesFirst(admins: Admins, o: Id) {
    o in admins && forall a :: a in admins && admins[a].email == admins[o].email ==>
      admins[o].createdAt < admins[a].createdAt || (admins[o].createdAt == admins[a].createdAt && o <= a)
  }

  /** `u` is the person of row `o`, column by column. */
  predicate TakenFrom(u: User, o: Id, a: Admin) {
    && u.id == o && u.passwordHash == a.passwordHash
    && u.profile.displayName == a.profile.displayName
    && u.profile.matrixId == a.profile.matrixId
    && u.profile.telegramId == a.profile.telegramId
    && u.createdAt == a.createdAt && u.updatedAt == a.updatedAt
  }

  lemma CanonicalMeans(admins: Admins, users: map<string, User>, e: string)
    requires UsersAreCanonical(admins, users) && e in users
    ensures var o := users[e].id;
            && ComesFirst(admins, o) && admins[o].email == e && TakenFrom(users[e], o, admins[o])
            && (users[e].verified <==> exists a :: a in admins && admins[a].email == e && admins[a].verified)
  {
    var o := users[e].id;
    forall a | a in admins && admins[a].email == admins[o].email
      ensures admins[o].createdAt < admins[a].createdAt || (admins[o].createdAt == admins[a].createdAt && o <= a)
    {
      assert a == o || Before(admins, o, a);
    }
  }

  /**
   Exactly the emails of the legacy rows have a user, one each: every column comes from the email's first row, except
   that the user is verified if any of the person's rows was; different users have different ids.
   */
  lemma OneUserPerEmail(db: Db, failed: set<nat>)
    requires Legacy(db) && Tolerated(failed)
    ensures var admins, users := db.admins.value, FullBoot(db, failed).users;
            && UsersAreCanonical(admins, users)
            && (forall e :: e in users <==> exists a :: a in admins && admins[a].email == e)
            && (forall e :: e in users ==>
                  var o := users[e].id;
                  && ComesFirst(admins, o) && admins[o].email == e && TakenFrom(users[e], o, admins[o])
                  && (users[e].verified <==> exists a :: a in admins && admins[a].email == e && admins[a].verified))
            && (forall d, e :: d in users && e in users && users[d].id == users[e].id ==> d == e)
  {
    hide BootWith;
    CoreAt(db, STATEMENT_COUNT, failed);
    InsertedUsersAreCanonical(db.admins.value);
    hide WithUsers, WithMemberships, ComesFirst, TakenFrom;
    var users := FullBoot(db, failed).users;
    forall e | e in users {
      CanonicalMeans(db.admins.value, users, e);
    }
  }

  lemma UserIdsAreDistinct(db: Db, failed: set<nat>)
    requires Legacy(db) && Tolerated(failed)
    ensures var users := FullBoot(db, failed).users;
            forall d, e :: d in users && e in users && users[d].id == users[e].id ==> d == e
  {
    hide FullBoot, ComesFirst, TakenFrom, UsersAreCanonical;
    OneUserPerEmail(db, failed);
  }

  /** The memberships are exactly the legacy rows, each with its team, role and creation time under its person's user id. */
  lemma MembershipsMirrorAdmins(db: Db, failed: set<nat>, m: Membership)
    requires Legacy(db) && Tolerated(failed)
    ensures var admins, users := db.admins.value, FullBoot(db, failed).users;
            m in FullBoot(db, failed).memberships <==>
              exists a :: a in admins && admins[a].email in users &&
                m.user == users[admins[a].email].id && m.team == admins[a].team && m.role == admins[a].role &&
                m.createdAt == admins[a].createdAt
  {
    hide BootWith;
    CoreAt(db, STATEMENT_COUNT, failed);
    var admins, users := db.admins.value, FullBoot(db, failed).users;
    forall a | a in admins && admins[a].email in users && m.user == users[admins[a].email].id && m.team == admins[a].team &&
        m.role == admins[a].role && m.createdAt == admins[a].createdAt
      ensures m in WithMemberships(admins, users, {})
    {
      assert m == MembershipOf(admins[a], users[admins[a].email]);
    }
  }

  /** A repointed table still has its rows, each joined with its person's user. */
  lemma RepointedRow(admins: Admins, users: map<string, User>, t: RefTable, withTeam: bool, drop: bool, key: string)
    requires LegacyRefs(admins, t) && key in t.rows && UsersAreCanonical(admins, users)
    ensures var once := RepointTable(admins, users, t, withTeam);
            var rows := (if drop then DropAdminColumn(once) else once).rows;
            var a := admins[t.rows[key].admin.value];
            && key in rows && a.email in users && rows[key].user == Some(users[a.email].id)
            && rows[key].team == if withTeam then Some(a.team) else None
  {
    var a := t.rows[key].admin.value;
    assert a in admins && admins[a].email in users;
  }

  /** An unrepointed table points at no user, whether or not its admin column was dropped. */
  lemma UnrepointedRow(admins: Admins, t: RefTable, drop: bool, key: string)
    requires LegacyRefs(admins, t) && key in t.rows
    ensures var rows := (if drop then DropAdminColumn(t) else t).rows; key in rows && rows[key].user == None
  {
  }

  /** Where a session points after the migration, given that the repoint took effect. */
  lemma SessionIsRepointed(db: Db, failed: set<nat>, token: string)
    requires Legacy(db) && Tolerated(failed) && token in db.sessions.rows
    ensures var end := FullBoot(db, failed);
            var a := db.admins.value[db.sessions.rows[token].admin.value];
            && token in end.sessions.rows && a.email in end.users
            && (if 2 in failed then end.sessions.rows[token].user == None
                else end.sessions.rows[token].user == Some(end.users[a.email].id) && end.sessions.rows[token].team == Some(a.team))
  {
    hide BootWith, Users, RepointTable, DropAdminColumn, UsersAreCanonical, LegacyRefs;
    var admins := db.admins.value;
    CoreAt(db, STATEMENT_COUNT, failed);
    SessionsAt(db, STATEMENT_COUNT, failed);
    CanonicalUsers(db);
    RepointedRow(admins, Users(db), db.sessions, true, 3 !in failed, token);
    UnrepointedRow(admins, db.sessions, 3 !in failed, token);
  }

  lemma CanonicalUsers(db: Db)
    requires db.admins.Some?
    ensures UsersAreCanonical(db.admins.value, Users(db))
  {
    hide WithUsers, UsersAreCanonical;
    InsertedUsersAreCanonical(db.admins.value);
  }

  /** Two memberships of one user in one team are the same row. */
  lemma MembershipIsUnique(db: Db, failed: set<nat>, m: Membership, a: Id)
    requires Legacy(db) && Tolerated(failed) && m in FullBoot(db, failed).memberships && a in db.admins.value
    requires var users := FullBoot(db, failed).users; var admin := db.admins.value[a];
             admin.email in users && m.user == users[admin.email].id && m.team == admin.team
    ensures m == MembershipOf(db.admins.value[a], FullBoot(db, failed).users[db.admins.value[a].email])
  {
    hide BootWith;
    MembershipsMirrorAdmins(db, failed, m);
    UserIdsAreDistinct(db, failed);
  }

  /**
   Every session resolves after the migration to exactly the member it resolved to before, if
   the session repoint took effect; if it failed, no session resolves at all.
   */
  lemma SessionsKeepTheirMeaning(db: Db, failed: set<nat>, token: string)
    requires Legacy(db) && Tolerated(failed) && token in db.sessions.rows
    ensures ResolveSession(FullBoot(db, failed), token) == if 2 in failed then {} else {LegacyMember(db, token)}
  {
    hide BootWith, FullBoot, UsersAreCanonical;
    var end, id := FullBoot(db, failed), db.sessions.rows[token].admin.value;
    var a := db.admins.value[id];
    SessionIsRepointed(db, failed, token);
    if 2 !in failed {
      UserIdsAreDistinct(db, failed);
      MembershipsMirrorAdmins(db, failed, MembershipOf(a, end.users[a.email]));
      assert Member(a.email, a.team, a.role) in ResolveSession(end, token);
      forall e, m | e in end.users && m in end.memberships && end.sessions.rows[token].user == Some(end.users[e].id) &&
          m.user == end.users[e].id && end.sessions.rows[token].team == Some(m.team)
        ensures Member(e, m.team, m.role) == LegacyMember(db, token)
      {
        MembershipIsUnique(db, failed, m, id);
      }
    }
  }

  /** Every other reference ends at the user of the person it pointed at, or at nobody if its repoint failed. */
  lemma RefsKeepTheirMeaning(db: Db, failed: set<nat>, j: nat, key: string)
    requires Legacy(db) && Tolerated(failed) && j < REF_TABLES && key in db.refs[j].rows
    ensures var end := FullBoot(db, failed);
            var email := db.admins.value[db.refs[j].rows[key].admin.value].email;
            && j < |end.refs| && key in end.refs[j].rows && email in end.users
            && end.refs[j].rows[key].user == if 4 + 2 * j in failed then None else Some(end.users[email].id)
  {
    hide BootWith, Users, RepointTable, DropAdminColumn, UsersAreCanonical, LegacyRefs;
    var admins := db.admins.value;
    CoreAt(db, STATEMENT_COUNT, failed);
    RefsAt(db, STATEMENT_COUNT, j, failed);
    CanonicalUsers(db);
    RepointedRow(admins, Users(db), db.refs[j], false, 5 + 2 * j !in failed, key);
    UnrepointedRow(admins, db.refs[j], 5 + 2 * j !in failed, key);
  }

  /** An approver credential stays with its person, under the one user id; unknown member ids are left alone. */
  lemma ApproversKeepTheirMeaning(db: Db, failed: set<nat>, key: string)
    requires Legacy(db) && Tolerated(failed) && key in db.approvers
    ensures var end, member := FullBoot(db, failed), db.approvers[key];
            && key in end.approvers
            && (if member !in db.admins.value || 4 + 2 * REF_TABLES in failed then end.approvers[key] == member
                else db.admins.value[member].email in end.users &&
                     end.approvers[key] == end.users[db.admins.value[member].email].id)
  {
    hide BootWith, Users, UsersAreCanonical;
    CoreAt(db, STATEMENT_COUNT, failed);
    ApproversAt(db, STATEMENT_COUNT, failed);
    CanonicalUsers(db);
    EveryoneHasAUser(db.admins.value, Users(db));
  }

  lemma EveryoneHasAUser(admins: Admins, users: map<string, User>)
    requires UsersAreCanonical(admins, users)
    ensures forall a :: a in admins ==> admins[a].email in users
  {
  }

  /** What a finished boot left is final: the legacy table is gone, so no later boot repairs a failed repoint. */
  lemma {:induction false} MigratedIsFinal(db: Db, k: nat, failed: set<nat>)
    requires db.admins.None? && k <= STATEMENT_COUNT
    ensures BootWith(db, k, failed) == db
  {
    if k > 0 {
      MigratedIsFinal(db, k - 1, failed);
    }
  }

  // ------------------------------------------------------------------
  // Interrupted boots.
  // ------------------------------------------------------------------

  /** On a state where a boot stopped after statement `k`, each of the first `k` statements changes nothing. */
  lemma StatementIsSettled(db: Db, k: nat, i: nat)
    requires Unmigrated(db) && i < k < STATEMENT_COUNT
    ensures Boot(db, k).admins.Some? && Exec(Boot(db, k), StatementAt(i)) == Boot(db, k)
  {
    hide BootWith, WithUsers, WithMemberships, RepointTable, RepointApprovers, DropAdminColumn, UsersAreCanonical;
    CoreAt(db, k, {});
    InsertedUsersAreCanonical(db.admins.value);
    var admins, users := db.admins.value, Users(db);
    match StatementAt(i) {
      case InsertUsers =>
        UsersSettle(admins, users);
      case InsertMemberships =>
        MembershipsSettle(admins, users);
      case RepointSessions =>
        SessionsAt(db, k, {});
        RepointSettles(admins, users, db.sessions, true);
      case DropSessionColumn =>
        SessionsAt(db, k, {});
        DropSettles(RepointTable(admins, users, db.sessions, true));
      case Repoint(j) =>
        RefsAt(db, k, j, {});
        RepointSettles(admins, users, db.refs[j], false);
      case DropColumn(j) =>
        RefsAt(db, k, j, {});
        DropSettles(RepointTable(admins, users, db.refs[j], false));
      case RemapApprovers =>
        ApproversAt(db, k, {});
        ApproversSettle(admins, users, db.approvers);
      case DropAdmins =>
    }
  }

  lemma UsersSettle(admins: Admins, users: map<string, User>)
    requires UsersAreCanonical(admins, users)
    ensures WithUsers(admins, users) == users
  {
  }

  lemma DropSettles(t: RefTable)
    ensures DropAdminColumn(DropAdminColumn(t)) == DropAdminColumn(t)
  {
  }

  lemma ApproversSettle(admins: Admins, users: map<string, User>, approvers: map<string, Id>)
    requires UsersAreCanonical(admins, users)
    ensures var once := RepointApprovers(admins, users, approvers); RepointApprovers(admins, users, once) == once
  {
  }

  lemma MembershipsSettle(admins: Admins, users: map<string, User>)
    requires UsersAreCanonical(admins, users)
    ensures var ms := WithMemberships(admins, users, {}); WithMemberships(admins, users, ms) == ms
  {
    var ms := WithMemberships(admins, users, {});
    forall a | a in admins ensures IsMember(ms, users[admins[a].email].id, admins[a].team) {
      assert MembershipOf(admins[a], users[admins[a].email]) in ms;
    }
  }

  lemma RepointSettles(admins: Admins, users: map<string, User>, t: RefTable, withTeam: bool)
    ensures var once := RepointTable(admins, users, t, withTeam);
            && RepointTable(admins, users, once, withTeam) == once
            && RepointTable(admins, users, DropAdminColumn(once), withTeam) == DropAdminColumn(once)
  {
  }

  /** Running again after an interruption at `k` redoes nothing and goes on from there. */
  lemma {:induction false} RerunContinues(db: Db, k: nat, i: nat)
    requires Unmigrated(db) && k <= STATEMENT_COUNT && i <= STATEMENT_COUNT
    ensures Boot(Boot(db, k), i) == Boot(db, if i < k then k else i)
  {
    hide Exec, StatementAt, WithUsers, WithMemberships;
    if i > 0 {
      RerunContinues(db, k, i - 1);
      CoreAt(db, k, {});
      CoreAt(db, i - 1, {});
      if i <= k && k < STATEMENT_COUNT {
        StatementIsSettled(db, k, i - 1);
      }
    }
  }

  /** Boots that stopped early, one after another. */
  function Interrupted(db: Db, stops: seq<nat>): Db
    requires forall i :: 0 <= i < |stops| ==> stops[i] <= STATEMENT_COUNT
  {
    if stops == [] then db else Boot(Interrupted(db, stops[..|stops| - 1]), stops[|stops| - 1])
  }

  lemma {:induction false} InterruptedIsAPrefix(db: Db, stops: seq<nat>) returns (k: nat)
    requires Unmigrated(db) && forall i :: 0 <= i < |stops| ==> stops[i] <= STATEMENT_COUNT
    ensures k <= STATEMENT_COUNT && Interrupted(db, stops) == Boot(db, k)
  {
    if stops == [] {
      k := 0;
    } else {
      var j := InterruptedIsAPrefix(db, stops[..|stops| - 1]);
      var i := stops[|stops| - 1];
      RerunContinues(db, j, i);
      k := if i < j then j else i;
    }
  }

  /** However often boots are interrupted, the next full boot ends in the same state. */
  lemma InterruptionsDoNotMatter(db: Db, stops: seq<nat>)
    requires Unmigrated(db) && forall i :: 0 <= i < |stops| ==> stops[i] <= STATEMENT_COUNT
    ensures FullBoot(Interrupted(db, stops)) == FullBoot(db)
  {
    hide BootWith;
    var k := InterruptedIsAPrefix(db, stops);
    RerunContinues(db, k, STATEMENT_COUNT);
  }

  // ------------------------------------------------------------------
  // Boots of several instances at once.
  // ------------------------------------------------------------------

  /** The database and how many statements each boot has issued. */
  datatype Fleet = Fleet(db: Db, progress: map<nat, nat>)

  /** Any instance begins a boot, or some boot issues its next statement; a boot may stop anywhere. */
  datatype BootEvent = Begin(boot: nat) | Issue(boot: nat)

  function FleetAt(db: Db, events: seq<BootEvent>, n: nat): Fleet
    requires n <= |events|
  {
    if n == 0 then Fleet(db, map[])
    else
      var fleet, b := FleetAt(db, events, n - 1), events[n - 1].boot;
      if events[n - 1].Begin? then (if b in fleet.progress then fleet else fleet.(progress := fleet.progress[b := 0]))
      else if b in fleet.progress && fleet.progress[b] < STATEMENT_COUNT
      then Fleet(Advance(fleet.db, fleet.progress[b]), fleet.progress[b := fleet.progress[b] + 1])
      else fleet
  }

  /** A statement that some boot has already passed changes nothing; the next one continues the boot. */
  lemma AdvanceOnPrefix(db: Db, k: nat, i: nat)
    requires Unmigrated(db) && i <= k <= STATEMENT_COUNT && i < STATEMENT_COUNT
    ensures Advance(Boot(db, k), i) == Boot(db, if i < k then k else k + 1)
  {
    hide Exec, StatementAt, WithUsers, WithMemberships;
    CoreAt(db, k, {});
    if i < k < STATEMENT_COUNT {
      StatementIsSettled(db, k, i);
    }
  }

  /** No boot is ahead of `k`, and some boot is there. */
  ghost predicate Furthest(progress: map<nat, nat>, k: nat) {
    && (forall b :: b in progress ==> progress[b] <= k)
    && (k > 0 ==> exists b :: b in progress && progress[b] == k)
  }

  /** However the statements of however many boots interleave, the database is where the furthest boot alone would be. */
  lemma {:induction false} ConcurrentBootsAgree(db: Db, events: seq<BootEvent>, n: nat) returns (k: nat)
    requires Unmigrated(db) && n <= |events|
    ensures k <= STATEMENT_COUNT && FleetAt(db, events, n).db == Boot(db, k) && Furthest(FleetAt(db, events, n).progress, k)
  {
    hide Boot, Advance;
    if n == 0 {
      k := 0;
      NothingBooted(db);
    } else {
      var j := ConcurrentBootsAgree(db, events, n - 1);
      var before, b := FleetAt(db, events, n - 1), events[n - 1].boot;
      k := j;
      if events[n - 1].Issue? && b in before.progress && before.progress[b] < STATEMENT_COUNT {
        AdvanceOnPrefix(db, j, before.progress[b]);
        k := if before.progress[b] < j then j else j + 1;
        FurthestMoves(before.progress, b, j);
      } else if j > 0 {
        var c :| c in before.progress && before.progress[c] == j;
        assert c in FleetAt(db, events, n).progress && FleetAt(db, events, n).progress[c] == j;
      }
    }
  }

  lemma NothingBooted(db: Db)
    ensures Boot(db, 0) == db
  {
  }

  lemma FurthestMoves(progress: map<nat, nat>, b: nat, k: nat)
    requires Furthest(progress, k) && b in progress
    ensures Furthest(progress[b := progress[b] + 1], if progress[b] < k then k else k + 1)
  {
    var after := progress[b := progress[b] + 1];
    if progress[b] < k {
      var c :| c in progress && progress[c] == k;
      assert c in after && after[c] == k;
    } else {
      assert after[b] == k + 1;
    }
  }

  /** Once any boot has finished, the migration is complete, whatever the others still issue. */
  lemma FirstFinishedBootDecides(db: Db, events: seq<BootEvent>, b: nat)
    requires Unmigrated(db)
    requires b in FleetAt(db, events, |events|).progress && FleetAt(db, events, |events|).progress[b] == STATEMENT_COUNT
    ensures FleetAt(db, events, |events|).db == FullBoot(db)
  {
    hide BootWith, FleetAt;
    var k := ConcurrentBootsAgree(db, events, |events|);
  }

  class IdentityStore {
    var db: Db

    constructor (db: Db)
      ensures this.db == db
    {
      this.db := db;
    }

    /** One boot's backfill and drop, stopped after `stop` statements; those in `failed` fail and are passed over. */
    method BackfillIdentityFromAdmins(stop: nat, failed: set<nat>)
      requires stop <= STATEMENT_COUNT && Tolerated(failed)
      modifies this
      ensures db == BootWith(old(db), stop, failed)
    {
      hide Exec, StatementAt;
      var i := 0;
      while i < stop
        invariant 0 <= i <= stop
        invariant db == BootWith(old(db), i, failed)
      {
        if i !in failed && db.admins.Some? {
          db := Exec(db, StatementAt(i));
        }
        i := i + 1;
      }
    }
  }
}
