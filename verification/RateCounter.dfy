/**
 Per-agent request counters in fixed windows. Every call increments its window's
 row and then prunes the agent's older windows in a second statement; calls of any
 number of instances interleave between the two.
 */
module RateCounter {
  type Agent = string
  type Table = map<(Agent, int), nat>

  datatype Step = Increment(agent: Agent, window: int) | Prune(agent: Agent, window: int)

  function CountOf(t: Table, a: Agent, w: int): nat {
    if (a, w) in t then t[(a, w)] else 0
  }

  function Apply(t: Table, s: Step): Table {
    match s
    case Increment(a, w) => t[(a, w) := CountOf(t, a, w) + 1]
    case Prune(a, w) => map key | key in t && !(key.0 == a && key.1 < w) :: t[key]
  }

  function At(t: Table, steps: seq<Step>, k: nat): Table
    requires k <= |steps|
  {
    if k == 0 then t else Apply(At(t, steps, k - 1), steps[k - 1])
  }

  /** What the `k`-th statement, an increment, returns. */
  function Returned(steps: seq<Step>, k: nat): nat
    requires k < |steps| && steps[k].Increment?
  {
    CountOf(At(map[], steps, k + 1), steps[k].agent, steps[k].window)
  }

  /** Increments of the window since it was last pruned. */
  function SincePrune(steps: seq<Step>, a: Agent, w: int, k: nat): nat
    requires k <= |steps|
  {
    if k == 0 then 0
    else match steps[k - 1]
      case Increment(b, v) => SincePrune(steps, a, w, k - 1) + if (b, v) == (a, w) then 1 else 0
      case Prune(b, v) => if b == a && w < v then 0 else SincePrune(steps, a, w, k - 1)
  }

  /** The plain count: all increments of the window so far. */
  function Total(steps: seq<Step>, a: Agent, w: int, k: nat): nat
    requires k <= |steps|
  {
    if k == 0 then 0
    else Total(steps, a, w, k - 1) + if steps[k - 1] == Increment(a, w) then 1 else 0
  }

  /** In every run whatsoever, the row counts exactly the increments since the last prune over it. */
  lemma {:induction false} RowCountsSincePrune(steps: seq<Step>, a: Agent, w: int, k: nat)
    requires k <= |steps|
    ensures CountOf(At(map[], steps, k), a, w) == SincePrune(steps, a, w, k)
  {
    if k > 0 {
      RowCountsSincePrune(steps, a, w, k - 1);
    }
  }

  /** The agent's calls come in window order, and each prune belongs to an earlier call. */
  ghost predicate InWindowOrder(steps: seq<Step>, a: Agent) {
    && (forall i, j :: 0 <= i < j < |steps| && steps[i].Increment? && steps[j].Increment? && steps[i].agent == a == steps[j].agent ==>
          steps[i].window <= steps[j].window)
    && (forall p :: 0 <= p < |steps| && steps[p].Prune? && steps[p].agent == a ==>
          exists i :: 0 <= i < p && steps[i] == Increment(a, steps[p].window))
  }

  /** Without a prune over the window, nothing is lost. */
  lemma {:induction false} UnprunedIsTotal(steps: seq<Step>, a: Agent, w: int, k: nat)
    requires k <= |steps|
    requires forall p :: 0 <= p < k && steps[p].Prune? && steps[p].agent == a ==> steps[p].window <= w
    ensures SincePrune(steps, a, w, k) == Total(steps, a, w, k)
  {
    if k > 0 {
      UnprunedIsTotal(steps, a, w, k - 1);
    }
  }

  /** Each call returns its exact ordinal within its window, despite all pruning. */
  lemma CallReturnsOrdinal(steps: seq<Step>, k: nat)
    requires k < |steps| && steps[k].Increment? && InWindowOrder(steps, steps[k].agent)
    ensures Returned(steps, k) == Total(steps, steps[k].agent, steps[k].window, k) + 1
  {
    var a, w := steps[k].agent, steps[k].window;
    forall p | 0 <= p < k && steps[p].Prune? && steps[p].agent == a ensures steps[p].window <= w {
      var i :| 0 <= i < p && steps[i] == Increment(a, steps[p].window);
      assert steps[i].window <= steps[k].window;
    }
    RowCountsSincePrune(steps, a, w, k);
    UnprunedIsTotal(steps, a, w, k);
  }

  /** Some prune past the window ran after one of the window's increments. */
  ghost predicate Forgotten(steps: seq<Step>, a: Agent, w: int, k: nat)
    requires k <= |steps|
  {
    exists p :: 0 <= p < k && steps[p].Prune? && steps[p].agent == a && w < steps[p].window && Total(steps, a, w, p) > 0
  }

  lemma {:induction false} NothingLostIff(steps: seq<Step>, a: Agent, w: int, k: nat)
    requires k <= |steps|
    ensures SincePrune(steps, a, w, k) <= Total(steps, a, w, k)
    ensures SincePrune(steps, a, w, k) == Total(steps, a, w, k) <==> !Forgotten(steps, a, w, k)
  {
    if k > 0 {
      NothingLostIff(steps, a, w, k - 1);
      var s := steps[k - 1];
      if Forgotten(steps, a, w, k - 1) {
        var p :| 0 <= p < k - 1 && steps[p].Prune? && steps[p].agent == a && w < steps[p].window && Total(steps, a, w, p) > 0;
        assert Forgotten(steps, a, w, k);
      } else if s.Prune? && s.agent == a && w < s.window && Total(steps, a, w, k - 1) > 0 {
        assert Forgotten(steps, a, w, k);
      }
    }
  }

  /** Without any order of windows: a call is told its exact ordinal if and only if none of its window's calls was pruned before. */
  lemma CallReturnsOrdinalIff(steps: seq<Step>, k: nat)
    requires k < |steps| && steps[k].Increment?
    ensures Returned(steps, k) == Total(steps, steps[k].agent, steps[k].window, k) + 1 <==>
              !Forgotten(steps, steps[k].agent, steps[k].window, k)
  {
    RowCountsSincePrune(steps, steps[k].agent, steps[k].window, k);
    NothingLostIff(steps, steps[k].agent, steps[k].window, k);
  }

  /** How many of the window's first calls were told a count within the limit. */
  function WithinLimit(steps: seq<Step>, a: Agent, w: int, limit: nat, k: nat): nat
    requires k <= |steps|
  {
    if k == 0 then 0
    else WithinLimit(steps, a, w, limit, k - 1) +
         if steps[k - 1] == Increment(a, w) && Returned(steps, k - 1) <= limit then 1 else 0
  }

  /** Exactly the first `limit` calls of a window are within the limit, over all instances together. */
  lemma {:induction false} LimitAdmitsExactly(steps: seq<Step>, a: Agent, w: int, limit: nat, k: nat)
    requires k <= |steps| && InWindowOrder(steps, a)
    ensures var n := Total(steps, a, w, k); WithinLimit(steps, a, w, limit, k) == if n < limit then n else limit
  {
    if k > 0 {
      LimitAdmitsExactly(steps, a, w, limit, k - 1);
      if steps[k - 1] == Increment(a, w) {
        CallReturnsOrdinal(steps, k - 1);
      }
    }
  }

  /** Window order is needed, for every agent and all windows w < v: a call that falls back to w restarts at one. */
  lemma OlderWindowRestarts(a: Agent, w: int, v: int)
    requires w < v
    ensures var steps := [Increment(a, w), Increment(a, v), Prune(a, v), Increment(a, w)];
            Returned(steps, 3) == 1 && Total(steps, a, w, 4) == 2
  {
    var steps := [Increment(a, w), Increment(a, v), Prune(a, v), Increment(a, w)];
    RowCountsSincePrune(steps, a, w, 4);
    assert SincePrune(steps, a, w, 3) == 0;
    assert Total(steps, a, w, 1) == 1 && Total(steps, a, w, 2) == 1 && Total(steps, a, w, 3) == 1;
  }

  class RateCounterStore {
    var rows: Table

    constructor ()
      ensures rows == map[]
    {
      rows := map[];
    }

    /** Increment and read back in one statement, then a best-effort prune; `between` is run by others in the gap. */
    method IncrementRateCounter(a: Agent, w: int, between: seq<Step>, pruneOk: bool) returns (count: nat)
      modifies this
      ensures count == CountOf(old(rows), a, w) + 1 == CountOf(Apply(old(rows), Increment(a, w)), a, w)
      ensures count == if (a, w) in old(rows) then old(rows)[(a, w)] + 1 else 1
      ensures between == [] ==>
                var counted := old(rows)[(a, w) := count];
                rows == if pruneOk then map key | key in counted && !(key.0 == a && key.1 < w) :: counted[key] else counted
      ensures var counted := At(Apply(old(rows), Increment(a, w)), between, |between|);
              rows == if pruneOk then Apply(counted, Prune(a, w)) else counted
    {
      count := 1;
      if (a, w) in rows {
        count := rows[(a, w)] + 1;
      }
      rows := rows[(a, w) := count];
      rows := At(rows, between, |between|);
      if pruneOk {
        var stale := set key | key in rows && key.0 == a && key.1 < w;
        rows := rows - stale;
      }
    }
  }
}
