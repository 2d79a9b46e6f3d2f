/**
 Order independence of the statements that set a transaction up and decide it.
 A decision may be recorded before the request is saved, and message metadata may
 arrive at any time; the table must end up the same, apart from `created_at`.
 */
module OrderIndependence {
  import opened Options
  import opened Approvals

  datatype Kind = Saving | Deciding | Telegram | Matrix

  /** A save, a terminal resolution, or a message-metadata write. */
  predicate IsSetup(s: Step) {
    s.Save? || (s.Resolve? && s.status != Pending) || s.SetTelegram? || s.SetMatrix?
  }

  function KindOf(s: Step): Kind
    requires IsSetup(s)
  {
    if s.Save? then Saving else if s.Resolve? then Deciding else if s.SetTelegram? then Telegram else Matrix
  }

  /** Each transaction contributes at most one statement of each kind. */
  ghost predicate OneOfEachKind(m: multiset<Step>) {
    && (forall s :: s in m ==> IsSetup(s) && m[s] == 1)
    && (forall a, b :: a in m && b in m && a.txn == b.txn && KindOf(a) == KindOf(b) ==> a == b)
  }

  ghost predicate Has(m: multiset<Step>, x: TxnId, k: Kind) {
    exists s :: s in m && IsSetup(s) && s.txn == x && KindOf(s) == k
  }

  ghost predicate EveryTransactionIsSaved(m: multiset<Step>) {
    forall s :: s in m && IsSetup(s) ==> Has(m, s.txn, Saving)
  }

  /** No transaction is both reserved for an end user and approved by a team resolution. */
  ghost predicate NoReservedApproval(m: multiset<Step>) {
    forall a, b :: a in m && b in m && a.Save? && b.Resolve? && a.txn == b.txn ==>
      a.endUser.None? || b.status != Approved
  }

  function Undated(r: Option<Row>): Option<Row> {
    if r.None? then r else Some(r.value.(createdAt := 0))
  }

  /** Same rows in both tables, apart from `created_at`. */
  ghost predicate SameRows(a: Table, b: Table) {
    forall x :: Undated(Lookup(a, x)) == Undated(Lookup(b, x))
  }

  // ------------------------------------------------------------------
  // What a row holds is a function of the set of statements that ran.
  // ------------------------------------------------------------------

  predicate Carries(row: Row, s: Step)
    requires IsSetup(s)
  {
    match s
    case Save(_, details, expiresAt, team, endUser, _) =>
      row.details == details && row.expiresAt == expiresAt && row.team == team && row.requiredEndUser == endUser
    case Resolve(_, status, resolver, _) => row.status == status && row.resolvedBy == resolver
    case SetTelegram(_, message, _) => row.telegram == Some(message)
    case SetMatrix(_, room, min, _) => row.matrix == Some(room) && row.minApprovals == min
  }

  predicate Lacks(row: Row, k: Kind) {
    match k
    case Saving => row.details == "{}" && row.team == None && row.requiredEndUser == None
    case Deciding => row.status == Pending && row.resolvedBy == None
    case Telegram => row.telegram == None
    case Matrix => row.matrix == None && row.minApprovals == 1
  }

  ghost predicate Reflects(m: multiset<Step>, x: TxnId, r: Option<Row>) {
    if r.None? then forall s :: s in m ==> IsSetup(s) && s.txn != x
    else
      && (exists s :: s in m && IsSetup(s) && s.txn == x)
      && (forall s :: s in m && IsSetup(s) && s.txn == x ==> Carries(r.value, s))
      && (forall k :: !Has(m, x, k) ==> Lacks(r.value, k))
      && r.value.approvalCount == 0 && r.value.challenge == None
  }

  /** A statement writes its own columns and leaves the other kinds' columns alone. */
  lemma StepWritesItsKind(x: TxnId, r: Option<Row>, s: Step)
    requires IsSetup(s) && s.txn == x
    requires r.Some? ==> Lacks(r.value, KindOf(s))
    requires s.Resolve? && s.status == Approved && r.Some? ==> r.value.requiredEndUser.None?
    ensures RowStep(x, r, s).Some? && Carries(RowStep(x, r, s).value, s)
    ensures forall k :: k != KindOf(s) && (r.Some? ==> Lacks(r.value, k)) ==> Lacks(RowStep(x, r, s).value, k)
    ensures forall w :: IsSetup(w) && KindOf(w) != KindOf(s) && r.Some? && Carries(r.value, w) ==>
              Carries(RowStep(x, r, s).value, w)
  {
  }

  lemma HasStep(m: multiset<Step>, s: Step, x: TxnId, k: Kind)
    requires IsSetup(s)
    ensures Has(m + multiset{s}, x, k) <==> Has(m, x, k) || (s.txn == x && KindOf(s) == k)
  {
    var n := m + multiset{s};
    if Has(m, x, k) {
      var w :| w in m && IsSetup(w) && w.txn == x && KindOf(w) == k;
      assert w in n;
    }
    assert s in n;
  }

  lemma ReflectsStep(m: multiset<Step>, s: Step, x: TxnId, r: Option<Row>)
    requires OneOfEachKind(m + multiset{s}) && NoReservedApproval(m + multiset{s})
    requires Reflects(m, x, r)
    ensures Reflects(m + multiset{s}, x, RowStep(x, r, s))
  {
    var n := m + multiset{s};
    assert s in n && n[s] == 1;
    assert forall w :: w in n <==> w in m || w == s;
    forall k {
      HasStep(m, s, x, k);
    }
    if s.txn == x {
      assert !Has(m, x, KindOf(s));
      if s.Resolve? && s.status == Approved && r.Some? {
        NotReserved(m, s, x, r.value);
      }
      StepWritesItsKind(x, r, s);
    } else {
      assert RowStep(x, r, s) == r;
    }
  }

  lemma NotReserved(m: multiset<Step>, s: Step, x: TxnId, row: Row)
    requires NoReservedApproval(m + multiset{s}) && s.Resolve? && s.status == Approved && s.txn == x
    requires Reflects(m, x, Some(row))
    ensures row.requiredEndUser.None?
  {
    if Has(m, x, Saving) {
      var w :| w in m && IsSetup(w) && w.txn == x && KindOf(w) == Saving;
      assert w in m + multiset{s} && s in m + multiset{s};
      assert Carries(row, w);
    } else {
      assert Lacks(row, Saving);
    }
  }

  /** Two rows that reflect the same statements, one of them a save, agree apart from `created_at`. */
  lemma ReflectionDeterminesRow(m: multiset<Step>, x: TxnId, a: Option<Row>, b: Option<Row>)
    requires OneOfEachKind(m) && EveryTransactionIsSaved(m)
    requires Reflects(m, x, a) && Reflects(m, x, b)
    ensures Undated(a) == Undated(b)
  {
    if a.Some? && b.Some? {
      assert Has(m, x, Saving);
      forall k ensures Has(m, x, k) ==> exists s :: s in m && IsSetup(s) && s.txn == x && KindOf(s) == k && Carries(a.value, s) && Carries(b.value, s) {
      }
      assert Has(m, x, Deciding) || (Lacks(a.value, Deciding) && Lacks(b.value, Deciding));
      assert Has(m, x, Telegram) || (Lacks(a.value, Telegram) && Lacks(b.value, Telegram));
      assert Has(m, x, Matrix) || (Lacks(a.value, Matrix) && Lacks(b.value, Matrix));
    }
  }

  lemma PrefixIsSmaller(p: seq<Step>)
    requires p != []
    ensures multiset(p) == multiset(p[..|p| - 1]) + multiset{p[|p| - 1]}
  {
    assert p == p[..|p| - 1] + [p[|p| - 1]];
  }

  lemma {:induction false} RunReflects(p: seq<Step>, x: TxnId)
    requires OneOfEachKind(multiset(p)) && NoReservedApproval(multiset(p))
    ensures Reflects(multiset(p), x, RunRow(x, None, p))
  {
    if p != [] {
      PrefixIsSmaller(p);
      var init := p[..|p| - 1];
      assert forall s :: s in multiset(init) ==> s in multiset(p) && multiset(init)[s] <= multiset(p)[s];
      RunReflects(init, x);
      ReflectsStep(multiset(init), p[|p| - 1], x, RunRow(x, None, init));
    }
  }

  lemma {:induction false} RunLeavesOthersAlone(p: seq<Step>, x: TxnId, r: Option<Row>)
    requires forall s :: s in multiset(p) ==> IsSetup(s) && s.txn != x
    ensures RunRow(x, r, p) == r
  {
    if p != [] {
      PrefixIsSmaller(p);
      assert p[|p| - 1] in multiset(p);
      RunLeavesOthersAlone(p[..|p| - 1], x, r);
    }
  }

  /** The transactions of a batch have no row yet. */
  ghost predicate Unused(t: Table, m: multiset<Step>) {
    forall s :: s in m && IsSetup(s) ==> s.txn !in t
  }

  /** Any two orders of a batch without reserved approvals end in the same table. */
  lemma PermutationsAgree(t: Table, p: seq<Step>, q: seq<Step>)
    requires multiset(p) == multiset(q)
    requires OneOfEachKind(multiset(p)) && EveryTransactionIsSaved(multiset(p)) && Unused(t, multiset(p))
    requires NoReservedApproval(multiset(p))
    ensures SameRows(Run(t, p), Run(t, q))
  {
    forall x ensures Undated(Lookup(Run(t, p), x)) == Undated(Lookup(Run(t, q), x)) {
      RunIsPerRow(t, p, x);
      RunIsPerRow(t, q, x);
      if exists s :: s in multiset(p) && s.txn == x {
        assert Lookup(t, x) == None;
        RunReflects(p, x);
        RunReflects(q, x);
        ReflectionDeterminesRow(multiset(p), x, RunRow(x, None, p), RunRow(x, None, q));
      } else {
        RunLeavesOthersAlone(p, x, Lookup(t, x));
        RunLeavesOthersAlone(q, x, Lookup(t, x));
      }
    }
  }

  // ------------------------------------------------------------------
  // The condition is exact: a reserved approval makes the order visible.
  // ------------------------------------------------------------------

  lemma {:induction false} Arrange(m: multiset<Step>) returns (p: seq<Step>)
    ensures multiset(p) == m
    decreases |m|
  {
    if |m| == 0 {
      p := [];
    } else {
      var s :| s in m;
      var rest := Arrange(m - multiset{s});
      p := rest + [s];
    }
  }

  /** Metadata writes and other transactions' statements never touch a status. */
  lemma {:induction false} StatusUntouched(x: TxnId, r: Option<Row>, p: seq<Step>)
    requires r.Some? && forall s :: s in multiset(p) ==> IsSetup(s) && (s.txn == x ==> s.SetTelegram? || s.SetMatrix?)
    ensures RunRow(x, r, p).Some? && RunRow(x, r, p).value.status == r.value.status
  {
    if p != [] {
      PrefixIsSmaller(p);
      assert p[|p| - 1] in multiset(p);
      StatusUntouched(x, r, p[..|p| - 1]);
    }
  }

  lemma {:induction false} RunRowConcat(x: TxnId, r: Option<Row>, a: seq<Step>, b: seq<Step>)
    ensures RunRow(x, r, a + b) == RunRow(x, RunRow(x, r, a), b)
  {
    if b == [] {
      assert a + b == a;
    } else {
      RunRowConcat(x, r, a, b[..|b| - 1]);
      assert (a + b)[..|a + b| - 1] == a + b[..|b| - 1];
    }
  }

  lemma ReservedPair(x: TxnId, save: Step, decide: Step)
    requires save.Save? && decide.Resolve? && save.txn == decide.txn == x
    requires save.endUser.Some? && decide.status == Approved
    ensures RunRow(x, None, [save, decide]).Some? && RunRow(x, None, [save, decide]).value.status == Pending
    ensures RunRow(x, None, [decide, save]).Some? && RunRow(x, None, [decide, save]).value.status == Approved
  {
    assert [save, decide][..1] == [save] && [decide, save][..1] == [decide];
    assert RunRow(x, None, [save]) == RowStep(x, None, save);
    assert RunRow(x, None, [decide]) == RowStep(x, None, decide);
  }

  lemma FinalStatus(t: Table, x: TxnId, first: seq<Step>, rest: seq<Step>)
    requires x !in t && RunRow(x, None, first).Some?
    requires forall s :: s in multiset(rest) ==> IsSetup(s) && (s.txn == x ==> s.SetTelegram? || s.SetMatrix?)
    ensures x in Run(t, first + rest) && Run(t, first + rest)[x].status == RunRow(x, None, first).value.status
  {
    RunRowConcat(x, None, first, rest);
    StatusUntouched(x, RunRow(x, None, first), rest);
    RunIsPerRow(t, first + rest, x);
  }

  /** Taking a pair out of a batch and putting it in front of an arrangement of the rest, in either order. */
  lemma PairFirst<T>(m: multiset<T>, a: T, b: T, rest: seq<T>)
    requires a in m && b in m && a != b && multiset(rest) == m - multiset{a, b}
    ensures multiset([a, b] + rest) == m == multiset([b, a] + rest)
  {
    assert multiset([a, b] + rest) == multiset{a, b} + multiset(rest);
    assert multiset([b, a] + rest) == multiset{a, b} + multiset(rest);
  }

  lemma OtherStatement(m: multiset<Step>, save: Step, decide: Step, s: Step)
    requires OneOfEachKind(m) && save in m && decide in m && save.Save? && decide.Resolve? && save.txn == decide.txn
    requires s in m - multiset{save, decide}
    ensures IsSetup(s) && (s.txn == save.txn ==> s.SetTelegram? || s.SetMatrix?)
  {
    assert s in m && m[s] == 1 && s != save && s != decide;
  }

  /** Everything in the batch except the pair is a metadata write or concerns another transaction. */
  lemma RestOfBatch(m: multiset<Step>, save: Step, decide: Step) returns (rest: seq<Step>)
    requires OneOfEachKind(m)
    requires save in m && decide in m && save.Save? && decide.Resolve? && save.txn == decide.txn
    ensures multiset([save, decide] + rest) == multiset([decide, save] + rest) == m
    ensures forall s :: s in multiset(rest) ==> IsSetup(s) && (s.txn == save.txn ==> s.SetTelegram? || s.SetMatrix?)
  {
    hide OneOfEachKind;
    var others := m - multiset{save, decide};
    rest := Arrange(others);
    PairFirst(m, save, decide, rest);
    forall s | s in others ensures IsSetup(s) && (s.txn == save.txn ==> s.SetTelegram? || s.SetMatrix?) {
      OtherStatement(m, save, decide, s);
    }
  }

  lemma ReservedApprovalIsOrdered(t: Table, m: multiset<Step>, save: Step, decide: Step) returns (p: seq<Step>, q: seq<Step>)
    requires OneOfEachKind(m) && Unused(t, m)
    requires save in m && decide in m && save.Save? && decide.Resolve? && save.txn == decide.txn
    requires save.endUser.Some? && decide.status == Approved
    ensures multiset(p) == multiset(q) == m && !SameRows(Run(t, p), Run(t, q))
  {
    var x := save.txn;
    assert x !in t;
    var rest := RestOfBatch(m, save, decide);
    p, q := [save, decide] + rest, [decide, save] + rest;
    ReservedPair(x, save, decide);
    FinalStatus(t, x, [save, decide], rest);
    FinalStatus(t, x, [decide, save], rest);
    assert Undated(Lookup(Run(t, p), x)) != Undated(Lookup(Run(t, q), x));
  }

  ghost predicate OrderIndependent(t: Table, m: multiset<Step>) {
    forall p, q :: multiset(p) == m && multiset(q) == m ==> SameRows(Run(t, p), Run(t, q))
  }

  /** A batch is order independent exactly when it approves no reserved transaction. */
  lemma OrderIndependentIffNoReservedApproval(t: Table, m: multiset<Step>)
    requires OneOfEachKind(m) && EveryTransactionIsSaved(m) && Unused(t, m)
    ensures OrderIndependent(t, m) <==> NoReservedApproval(m)
  {
    if NoReservedApproval(m) {
      forall p, q | multiset(p) == m && multiset(q) == m ensures SameRows(Run(t, p), Run(t, q)) {
        PermutationsAgree(t, p, q);
      }
    } else {
      var a, b :| a in m && b in m && a.Save? && b.Resolve? && a.txn == b.txn && a.endUser.Some? && b.status == Approved;
      var p, q := ReservedApprovalIsOrdered(t, m, a, b);
    }
  }
}
