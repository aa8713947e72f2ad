/**
 * The heuristic loop with a stopping rule that always ends.
 *
 * The loop of moores_algorithm reports progress after every move-to-end
 * step, even when the move only leads back to a schedule it has already
 * tried. When no schedule is within the limit it therefore never ends (see
 * `NeverEnds` below for a two-task table). The loop here is the same pass
 * repeated, except that it also stops once a pass returns to a schedule it
 * has already seen. There are finitely many schedules, so it always ends.
 */
module MooreFixed {
  import opened Tasks
  import opened Evaluation
  import opened Enumeration
  import Moore

  /** Every permutation of 0..n-1. */
  function Universe(n: nat): set<seq<nat>> {
    set p | p in AllPermutations(n)
  }

  /**
   * Repeat passes from st until one reports no progress or returns to a
   * schedule in `seen`.
   */
  function Search(tasks: seq<Task>, K: int, st: Moore.State, seen: set<seq<nat>>): (r: Moore.State)
    requires IsPermutation(st.schedule, |tasks|)
    ensures IsPermutation(r.schedule, |tasks|)
    ensures Moore.Valid(tasks, K, st.best) ==> Moore.Valid(tasks, K, r.best)
    ensures Moore.AtLeast(r.best, Moore.Consider(tasks, K, st.best, st.schedule))
    decreases |Universe(|tasks|) - seen|
  {
    var pass := Moore.Iterate(tasks, K, st);
    var t := pass.next.schedule;
    if !pass.found || t in seen then
      pass.next
    else
      AllPermutationsComplete(|tasks|, t);
      var u := Universe(|tasks|);
      assert u - seen == (u - (seen + {t})) + {t};
      var r := Search(tasks, K, pass.next, seen + {t});
      Moore.AtLeastTransitive(r.best, Moore.Consider(tasks, K, pass.next.best, t), pass.next.best);
      Moore.AtLeastTransitive(r.best, pass.next.best, Moore.Consider(tasks, K, st.best, st.schedule));
      r
  }

  /**
   * moores_algorithm with the repeated-schedule stop. Whatever it reports is
   * a feasible permutation with that S-on-time count; it reports -1 whenever
   * no permutation is feasible, and otherwise does at least as well as the
   * earliest-due-date schedule when that one is feasible. It needs no fuel:
   * Search ends because every pass either stops or adds a new permutation to
   * `seen`, which its `decreases |Universe(|tasks|) - seen|` measures, so
   * `stopped` is always set.
   */
  function Heuristic(tasks: seq<Task>, K: int): (a: Moore.Answer)
    requires WellFormed(tasks)
    ensures a.maxSOnTime != -1 ==>
              && IsPermutation(a.schedule, |tasks|)
              && Feasible(tasks, a.schedule, K)
              && SOnTime(tasks, a.schedule) == a.maxSOnTime
    ensures (forall p :: IsPermutation(p, |tasks|) ==> !Feasible(tasks, p, K)) ==> a.maxSOnTime == -1
    ensures Feasible(tasks, Moore.Edd(tasks), K) ==> a.maxSOnTime >= SOnTime(tasks, Moore.Edd(tasks))
  {
    var edd := Moore.Edd(tasks);
    var r := Search(tasks, K, Moore.State(edd, Moore.Initial(K)), {edd});
    Moore.Answer(r.best.schedule, r.best.sOnTime, true)
  }

  /** Two tasks of length 5 and weight 1, both in S, both due at time 3. */
  function Stuck(): (tasks: seq<Task>)
    ensures WellFormed(tasks) && Moore.NonNegativeWeights(tasks)
  {
    [Task(0, 5, 1, 3, true), Task(1, 5, 1, 3, true)]
  }

  /** Whichever task runs first finishes at 5, after its deadline, so no order meets K = 0. */
  lemma StuckIsInfeasible()
    ensures forall p :: IsPermutation(p, 2) ==> !Feasible(Stuck(), p, 0)
  {
    var tasks := Stuck();
    forall p | IsPermutation(p, 2) ensures !Feasible(tasks, p, 0) {
      assert tasks[p[0]].length == 5 && tasks[p[0]].deadline == 3 by {
        assert p[0] == 0 || p[0] == 1;
      }
      assert p[..1][..0] == [];
      assert Clock(tasks, p[..1]) == Clock(tasks, []) + tasks[p[0]].length;
      TardyWeightCovers(tasks, p, 0);
    }
  }

  /**
   * On this table moores_algorithm as written never ends: for every number of
   * passes it is still reporting progress, and nothing has been recorded.
   */
  lemma NeverEnds(fuel: nat)
    ensures !Moore.Heuristic(Stuck(), 0, fuel).stopped
    ensures Moore.Heuristic(Stuck(), 0, fuel).maxSOnTime == -1
  {
    StuckIsInfeasible();
  }

  /**
   * Three tasks outside S, as (length, weight, deadline): task 0 is (2, 1, 2),
   * task 1 is (2, 1, 4) and task 2 is (1, 0, 1).
   */
  function Spin(): (tasks: seq<Task>)
    ensures WellFormed(tasks) && Moore.NonNegativeWeights(tasks)
  {
    [Task(0, 2, 1, 2, false), Task(1, 2, 1, 4, false), Task(2, 1, 0, 1, false)]
  }

  /** The clock and the scores of a three-task schedule, position by position. */
  lemma Score3(tasks: seq<Task>, p: seq<nat>)
    requires InTable(tasks, p) && |p| == 3
    ensures Finish(tasks, p, 0) == tasks[p[0]].length
    ensures Finish(tasks, p, 1) == tasks[p[0]].length + tasks[p[1]].length
    ensures Finish(tasks, p, 2) == tasks[p[0]].length + tasks[p[1]].length + tasks[p[2]].length
    ensures TardyWeight(tasks, p) ==
              (if IsTardy(tasks, p, 0) then tasks[p[0]].weight else 0) +
              (if IsTardy(tasks, p, 1) then tasks[p[1]].weight else 0) +
              (if IsTardy(tasks, p, 2) then tasks[p[2]].weight else 0)
    ensures TardyCount(tasks, p) ==
              (if IsTardy(tasks, p, 0) then 1 else 0) +
              (if IsTardy(tasks, p, 1) then 1 else 0) +
              (if IsTardy(tasks, p, 2) then 1 else 0)
  {
    Timing(tasks, p, 0);
    Timing(tasks, p, 1);
    Timing(tasks, p, 2);
    var p1, p2 := p[..1], p[..2];
    assert p2[..1] == p1 && p1[..0] == [];
    PrefixTardy(tasks, p, 1, 0);
    PrefixTardy(tasks, p, 2, 0);
    PrefixTardy(tasks, p, 2, 1);
    assert TardyWeight(tasks, p1) == (if IsTardy(tasks, p, 0) then tasks[p[0]].weight else 0);
    assert TardyWeight(tasks, p2) == TardyWeight(tasks, p1) + (if IsTardy(tasks, p, 1) then tasks[p[1]].weight else 0);
    assert TardyCount(tasks, p1) == (if IsTardy(tasks, p, 0) then 1 else 0);
    assert TardyCount(tasks, p2) == TardyCount(tasks, p1) + (if IsTardy(tasks, p, 1) then 1 else 0);
  }

  /** Running the table in id order leaves only task 2 late, and it weighs 0. */
  lemma SpinFeasible()
    ensures IsPermutation([0, 1, 2], 3) && Feasible(Spin(), [0, 1, 2], 0)
  {
    Score3(Spin(), [0, 1, 2]);
  }

  /** The only order of three distinct ids with non-decreasing deadlines. */
  lemma SpinOrder(a: nat, b: nat, c: nat)
    requires a < 3 && b < 3 && c < 3 && a != b && a != c && b != c
    requires Spin()[a].deadline <= Spin()[b].deadline <= Spin()[c].deadline
    ensures [a, b, c] == [2, 0, 1]
  {
  }

  /** The earliest-due-date order of the table: deadlines 1, 2, 4. */
  lemma SpinEdd()
    ensures Moore.Edd(Spin()) == [2, 0, 1]
  {
    var tasks := Spin();
    var r := Moore.Edd(tasks);
    assert |r| == 3 && r[0] < 3 && r[1] < 3 && r[2] < 3;
    assert r[0] != r[1] && r[0] != r[2] && r[1] != r[2];
    assert tasks[r[0]].deadline <= tasks[r[1]].deadline <= tasks[r[2]].deadline;
    SpinOrder(r[0], r[1], r[2]);
    assert r == [r[0], r[1], r[2]];
  }

  /** In [2, 1, 0] only task 0 is late: it finishes at 5, after its deadline 2. */
  lemma SpinLate()
    ensures var s: seq<nat> := [2, 1, 0];
      && !IsTardy(Spin(), s, 0) && !IsTardy(Spin(), s, 1) && IsTardy(Spin(), s, 2)
      && TardyWeight(Spin(), s) == 1 && TardyCount(Spin(), s) == 1
  {
    Score3(Spin(), [2, 1, 0]);
  }

  /** In [2, 0, 1] tasks 0 and 1 are late, with weight 1 each. */
  lemma SpinFirstLate()
    ensures var s: seq<nat> := [2, 0, 1];
      && !IsTardy(Spin(), s, 0) && IsTardy(Spin(), s, 1) && IsTardy(Spin(), s, 2)
      && TardyWeight(Spin(), s) == 2 && TardyCount(Spin(), s) == 2
  {
    Score3(Spin(), [2, 0, 1]);
  }

  /**
   * From [2, 1, 0] with nothing recorded, a pass finds the schedule over the
   * limit. Task 0 is the only late task and it already runs last, so moving it
   * to the end gives the same schedule back, and the pass still reports
   * progress.
   */
  lemma SpinPass()
    ensures Moore.Iterate(Spin(), 0, Moore.State([2, 1, 0], Moore.Initial(0)))
            == Moore.Pass(Moore.State([2, 1, 0], Moore.Initial(0)), true)
  {
    var tasks, s: seq<nat> := Spin(), [2, 1, 0];
    SpinLate();
    var k := Moore.HeaviestTardy(tasks, s);
    assert k != -1 by {
      assert Moore.Weight(tasks, s, 2) > -1;
    }
    assert k == 2;
    Moore.MovePass(tasks, 0, Moore.State(s, Moore.Initial(0)), 2);
    MoveLast(s);
  }

  /** Moving the middle one of three entries to the end swaps the last two. */
  lemma MoveMiddle(a: nat, b: nat, c: nat)
    ensures Moore.MoveToEnd([a, b, c], 1) == [a, c, b]
  {
    var s, r := [a, b, c], Moore.MoveToEnd([a, b, c], 1);
    assert r[0] == r[..1][0] == s[0];
    assert r[1] == r[1..2][0] == s[2];
  }

  /** Moving the last entry to the end changes nothing. */
  lemma MoveLast(s: seq<nat>)
    requires |s| > 0
    ensures Moore.MoveToEnd(s, |s| - 1) == s
  {
    assert s[..|s| - 1] + [s[|s| - 1]] == s;
  }

  /** The first pass moves task 0, the first of the two late tasks, to the end. */
  lemma SpinFirstPass()
    ensures Moore.Iterate(Spin(), 0, Moore.State([2, 0, 1], Moore.Initial(0)))
            == Moore.Pass(Moore.State([2, 1, 0], Moore.Initial(0)), true)
  {
    var tasks, s: seq<nat> := Spin(), [2, 0, 1];
    SpinFirstLate();
    var k := Moore.HeaviestTardy(tasks, s);
    assert k != -1 by {
      assert Moore.Weight(tasks, s, 1) > -1;
    }
    assert k == 1 by {
      assert Moore.Weight(tasks, s, 1) == Moore.Weight(tasks, s, 2);
    }
    Moore.MovePass(tasks, 0, Moore.State(s, Moore.Initial(0)), 1);
    MoveMiddle(2, 0, 1);
  }

  /** Once at [2, 1, 0], the loop as written repeats the same pass for ever. */
  lemma SpinCycle(fuel: nat)
    ensures Moore.Run(Spin(), 0, Moore.State([2, 1, 0], Moore.Initial(0)), fuel)
            == Moore.Outcome(Moore.State([2, 1, 0], Moore.Initial(0)), false)
  {
    SpinPass();
  }

  /**
   * On this table moores_algorithm as written never ends, and nothing is
   * ever recorded, although the id order is feasible.
   */
  lemma SpinsOnFeasible(fuel: nat)
    ensures Feasible(Spin(), [0, 1, 2], 0)
    ensures !Moore.Heuristic(Spin(), 0, fuel).stopped
    ensures Moore.Heuristic(Spin(), 0, fuel).maxSOnTime == -1
  {
    SpinFeasible();
    var st, next := SpinStates();
    Moore.RunIntoCycle(Spin(), 0, st, next, fuel);
  }

  /**
   * Two passes of the stopping loop: the first reaches a new schedule, the
   * second reports progress back to a schedule already seen, and the loop ends.
   */
  lemma SearchTwo(tasks: seq<Task>, K: int, st: Moore.State, next: Moore.State, last: Moore.State, seen: set<seq<nat>>)
    requires IsPermutation(st.schedule, |tasks|)
    requires Moore.Iterate(tasks, K, st) == Moore.Pass(next, true) && next.schedule !in seen
    requires IsPermutation(next.schedule, |tasks|)
    requires Moore.Iterate(tasks, K, next) == Moore.Pass(last, true) && last.schedule in seen + {next.schedule}
    ensures Search(tasks, K, st, seen) == last
  {
  }

  /**
   * With the repeated-schedule stop the loop ends on this table, after the
   * second pass returns [2, 1, 0]; but it still reports "no valid schedule",
   * so -1 from the heuristic does not mean that no feasible order exists.
   */
  lemma SpinReportsNone()
    ensures Feasible(Spin(), [0, 1, 2], 0)
    ensures Heuristic(Spin(), 0).maxSOnTime == -1
  {
    SpinFeasible();
    SpinEdd();
    var last := SpinSearch({[2, 0, 1]});
    FromEdd(Spin(), 0, last);
  }

  /**
   * The stopping loop from the earliest-due-date order, with [2, 1, 0] not yet
   * seen, ends after two passes with nothing recorded.
   */
  lemma SpinSearch(seen: set<seq<nat>>) returns (last: Moore.State)
    requires [2, 1, 0] !in seen
    ensures Search(Spin(), 0, Moore.State(Moore.Edd(Spin()), Moore.Initial(0)), seen) == last
    ensures last.best == Moore.Initial(0)
  {
    var st;
    st, last := SpinStates();
    SearchTwo(Spin(), 0, st, last, last, seen);
  }

  /** The engine reports the record of the state its search from the earliest-due-date order ends in. */
  lemma FromEdd(tasks: seq<Task>, K: int, last: Moore.State)
    requires WellFormed(tasks)
    requires Search(tasks, K, Moore.State(Moore.Edd(tasks), Moore.Initial(K)), {Moore.Edd(tasks)}) == last
    ensures Heuristic(tasks, K) == Moore.Answer(last.best.schedule, last.best.sOnTime, true)
  {
  }

  /**
   * The two passes on this table, from the earliest-due-date order: the first
   * moves to a second schedule and the second repeats that schedule, with
   * nothing recorded. The states are returned rather than spelled out so that
   * callers reason about the passes without re-scoring the literal schedules.
   */
  lemma SpinStates() returns (st: Moore.State, next: Moore.State)
    ensures st == Moore.State(Moore.Edd(Spin()), Moore.Initial(0))
    ensures IsPermutation(next.schedule, 3) && next.schedule == [2, 1, 0]
    ensures next.best == Moore.Initial(0)
    ensures Moore.Iterate(Spin(), 0, st) == Moore.Pass(next, true)
    ensures Moore.Iterate(Spin(), 0, next) == Moore.Pass(next, true)
  {
    st, next := Moore.State([2, 0, 1], Moore.Initial(0)), Moore.State([2, 1, 0], Moore.Initial(0));
    SpinEdd();
    SpinFirstPass();
    SpinPass();
  }

  /** With the repeated-schedule stop the same table ends with "no valid schedule". */
  lemma StuckReportsNone()
    ensures Heuristic(Stuck(), 0).maxSOnTime == -1
  {
    StuckIsInfeasible();
  }
}
