/**
 * The heuristic engine of moore.c: start from the earliest-due-date
 * schedule and repeat one improvement pass while it reports progress.
 *
 * A pass scores the current schedule and records it if it beats the best
 * record (more on-time S tasks, or as many and a lower tardy weight, always
 * within the limit K). If the schedule is over the limit it moves the first
 * heaviest tardy task to the end. Otherwise it looks for the first swap of an
 * on-time task outside S with a tardy task in S that beats the record, keeps
 * it, and undoes every swap it rejects.
 *
 * The C loop has no bound: on some inputs the move-to-end step cycles
 * forever. `Run` therefore takes an explicit number of passes (fuel).
 */
module Moore {
  import opened Tasks
  import opened Evaluation
  import MergeSort

  /** The best record: schedule, its S-on-time count (-1 before any) and tardy weight. */
  datatype Best = Best(schedule: seq<nat>, sOnTime: int, tardyWeight: int)

  /** The record before the first pass: nothing found, tardy weight K + 1. */
  function Initial(K: int): Best {
    Best([], -1, K + 1)
  }

  /** The acceptance rule: within the limit, and lexicographically better. */
  predicate Beats(K: int, sOnTime: int, tardyWeight: int, best: Best) {
    && tardyWeight <= K
    && (sOnTime > best.sOnTime || (sOnTime == best.sOnTime && tardyWeight < best.tardyWeight))
  }

  /** Record b is at least as good as c: more S on time, or as many and no more tardy weight. */
  predicate AtLeast(b: Best, c: Best) {
    b.sOnTime > c.sOnTime || (b.sOnTime == c.sOnTime && b.tardyWeight <= c.tardyWeight)
  }

  /** The record is the initial one, or a feasible permutation with its own score. */
  predicate Valid(tasks: seq<Task>, K: int, best: Best) {
    || best == Initial(K)
    || (&& IsPermutation(best.schedule, |tasks|)
        && best.sOnTime == SOnTime(tasks, best.schedule)
        && best.tardyWeight == TardyWeight(tasks, best.schedule)
        && best.tardyWeight <= K)
  }

  /** Score schedule s and record it when it beats the record. */
  function Consider(tasks: seq<Task>, K: int, best: Best, s: seq<nat>): (r: Best)
    requires InTable(tasks, s)
    ensures AtLeast(r, best)
    ensures Beats(K, SOnTime(tasks, s), TardyWeight(tasks, s), best) ==>
              r == Best(s, SOnTime(tasks, s), TardyWeight(tasks, s))
    ensures !Beats(K, SOnTime(tasks, s), TardyWeight(tasks, s), best) ==> r == best
    ensures Valid(tasks, K, best) && IsPermutation(s, |tasks|) ==> Valid(tasks, K, r)
  {
    var sOnTime := SOnTime(tasks, s);
    var tardyWeight := TardyWeight(tasks, s);
    if Beats(K, sOnTime, tardyWeight, best) then Best(s, sOnTime, tardyWeight) else best
  }

  function Weight(tasks: seq<Task>, s: seq<nat>, i: nat): int
    requires InTable(tasks, s) && i < |s|
  {
    tasks[s[i]].weight
  }

  /**
   * The heaviest-tardy scan from position i, with the candidate so far
   * (weight maxWeight at position maxIndex, or -1 and -1 for none). A tardy
   * task replaces the candidate only when strictly heavier, so the first of
   * several equally heavy tasks wins, and a weight of -1 or less never does.
   */
  function HeaviestFrom(tasks: seq<Task>, s: seq<nat>, i: nat, maxWeight: int, maxIndex: int): (k: int)
    requires InTable(tasks, s) && i <= |s| && -1 <= maxIndex < i
    requires maxIndex == -1 ==>
               maxWeight == -1 && forall j :: 0 <= j < i && IsTardy(tasks, s, j) ==> Weight(tasks, s, j) <= -1
    requires maxIndex != -1 ==>
               && IsTardy(tasks, s, maxIndex)
               && maxWeight == Weight(tasks, s, maxIndex) > -1
               && (forall j :: 0 <= j < i && IsTardy(tasks, s, j) ==> Weight(tasks, s, j) <= maxWeight)
               && (forall j :: 0 <= j < maxIndex && IsTardy(tasks, s, j) ==> Weight(tasks, s, j) < maxWeight)
    ensures k == -1 <==> forall j :: 0 <= j < |s| && IsTardy(tasks, s, j) ==> Weight(tasks, s, j) <= -1
    ensures k != -1 ==>
              && 0 <= k < |s| && IsTardy(tasks, s, k)
              && (forall j :: 0 <= j < |s| && IsTardy(tasks, s, j) ==> Weight(tasks, s, j) <= Weight(tasks, s, k))
              && (forall j :: 0 <= j < k && IsTardy(tasks, s, j) ==> Weight(tasks, s, j) < Weight(tasks, s, k))
    decreases |s| - i
  {
    if i == |s| then
      maxIndex
    else if IsTardy(tasks, s, i) && Weight(tasks, s, i) > maxWeight then
      assert forall j :: 0 <= j < i + 1 && IsTardy(tasks, s, j) ==> Weight(tasks, s, j) <= Weight(tasks, s, i);
      HeaviestFrom(tasks, s, i + 1, Weight(tasks, s, i), i)
    else
      assert forall j :: 0 <= j < i + 1 && IsTardy(tasks, s, j) ==> Weight(tasks, s, j) <= maxWeight;
      HeaviestFrom(tasks, s, i + 1, maxWeight, maxIndex)
  }

  /** Position of the first tardy task of maximum weight, or -1. */
  function HeaviestTardy(tasks: seq<Task>, s: seq<nat>): (k: int)
    requires InTable(tasks, s)
    ensures k == -1 <==> forall j :: 0 <= j < |s| && IsTardy(tasks, s, j) ==> Weight(tasks, s, j) <= -1
    ensures k != -1 ==>
              && 0 <= k < |s| && IsTardy(tasks, s, k)
              && (forall j :: 0 <= j < |s| && IsTardy(tasks, s, j) ==> Weight(tasks, s, j) <= Weight(tasks, s, k))
              && (forall j :: 0 <= j < k && IsTardy(tasks, s, j) ==> Weight(tasks, s, j) < Weight(tasks, s, k))
  {
    HeaviestFrom(tasks, s, 0, -1, -1)
  }

  /** Take the task at position k out, shift the later ones left, put it last. */
  function MoveToEnd(s: seq<nat>, k: nat): (r: seq<nat>)
    requires k < |s|
    ensures |r| == |s|
    ensures r[|s| - 1] == s[k]
    ensures r[..k] == s[..k]
    ensures r[k..|s| - 1] == s[k + 1..]
    ensures multiset(r) == multiset(s)
  {
    assert s == s[..k] + [s[k]] + s[k+1..];
    s[..k] + s[k+1..] + [s[k]]
  }

  /** Exchange the entries at positions i and j. */
  function Swap(s: seq<nat>, i: nat, j: nat): (r: seq<nat>)
    requires i < |s| && j < |s|
    ensures |r| == |s| && r[i] == s[j] && r[j] == s[i]
    ensures forall k :: 0 <= k < |s| && k != i && k != j ==> r[k] == s[k]
  {
    s[i := s[j]][j := s[i]]
  }

  /** Swapping twice restores the schedule exactly. */
  lemma SwapRevert(s: seq<nat>, i: nat, j: nat)
    requires i < |s| && j < |s|
    ensures Swap(Swap(s, i, j), i, j) == s
  {
  }

  lemma SwapPermutation(s: seq<nat>, n: nat, i: nat, j: nat)
    requires i < |s| && j < |s|
    ensures IsPermutation(s, n) ==> IsPermutation(Swap(s, i, j), n)
  {
    var r := Swap(s, i, j);
    if IsPermutation(s, n) {
      forall a, b | 0 <= a < b < |r| ensures r[a] != r[b] {
        var a' := if a == i then j else if a == j then i else a;
        var b' := if b == i then j else if b == j then i else b;
        assert r[a] == s[a'] && r[b] == s[b'] && a' != b';
      }
    }
  }

  lemma MoveToEndPermutation(s: seq<nat>, n: nat, k: nat)
    requires k < |s|
    ensures IsPermutation(s, n) ==> IsPermutation(MoveToEnd(s, k), n)
  {
    var r := MoveToEnd(s, k);
    if IsPermutation(s, n) {
      forall a, b | 0 <= a < b < |r| ensures r[a] != r[b] {
        var a' := if a < k then a else if a < |s| - 1 then a + 1 else k;
        var b' := if b < k then b else if b < |s| - 1 then b + 1 else k;
        assert r[a] == s[a'] && r[b] == s[b'] && a' != b';
      }
    }
  }

  /** Position i holds an on-time task outside S and position j a tardy task in S. */
  predicate SwapCandidate(tasks: seq<Task>, s: seq<nat>, i: nat, j: nat)
    requires InTable(tasks, s)
  {
    && i < |s| && j < |s|
    && !IsTardy(tasks, s, i) && !tasks[s[i]].inS
    && IsTardy(tasks, s, j) && tasks[s[j]].inS
  }

  /** Swapping a candidate pair gives a schedule that beats the record. */
  predicate Improves(tasks: seq<Task>, K: int, s: seq<nat>, best: Best, i: nat, j: nat)
    requires InTable(tasks, s)
  {
    && SwapCandidate(tasks, s, i, j)
    && var t := Swap(s, i, j);
       Beats(K, SOnTime(tasks, t), TardyWeight(tasks, t), best)
  }

  /** Pair (a, b) comes before pair (i, j) in the nested scan. */
  predicate Before(a: nat, b: nat, i: nat, j: nat) {
    a < i || (a == i && b < j)
  }

  datatype Choice = NoSwap | SwapAt(i: nat, j: nat)

  /**
   * The nested swap scan from pair (i, j): outer index i over on-time tasks
   * outside S, inner index j over tardy tasks in S, stopping at the first
   * swap that beats the record. Rejected swaps are undone, so every trial
   * starts from the same schedule s.
   */
  function FindSwap(tasks: seq<Task>, K: int, s: seq<nat>, best: Best, i: nat, j: nat): (c: Choice)
    requires InTable(tasks, s) && j <= |s|
    ensures c.SwapAt? ==>
              && Improves(tasks, K, s, best, c.i, c.j)
              && !Before(c.i, c.j, i, j)
              && forall a, b :: !Before(a, b, i, j) && Before(a, b, c.i, c.j) ==> !Improves(tasks, K, s, best, a, b)
    ensures c.NoSwap? ==>
              forall a, b :: !Before(a, b, i, j) ==> !Improves(tasks, K, s, best, a, b)
    decreases |s| - i, |s| - j
  {
    if i >= |s| then
      NoSwap
    else if IsTardy(tasks, s, i) || tasks[s[i]].inS || j == |s| then
      FindSwap(tasks, K, s, best, i + 1, 0)
    else if Improves(tasks, K, s, best, i, j) then
      SwapAt(i, j)
    else
      FindSwap(tasks, K, s, best, i, j + 1)
  }

  /** The loop state: current schedule and best record. */
  datatype State = State(schedule: seq<nat>, best: Best)

  /** The state after one pass and whether the pass reported progress. */
  datatype Pass = Pass(next: State, found: bool)

  /** One pass of the improvement loop. */
  function Iterate(tasks: seq<Task>, K: int, st: State): (r: Pass)
    requires InTable(tasks, st.schedule)
    ensures multiset(r.next.schedule) == multiset(st.schedule)
    ensures IsPermutation(st.schedule, |tasks|) ==> IsPermutation(r.next.schedule, |tasks|)
    ensures IsPermutation(st.schedule, |tasks|) && Valid(tasks, K, st.best) ==> Valid(tasks, K, r.next.best)
    ensures AtLeast(r.next.best, Consider(tasks, K, st.best, st.schedule))
    ensures var s := st.schedule;
      TardyWeight(tasks, s) > K && TardyCount(tasks, s) > 0 ==>
        && r.next.best == Consider(tasks, K, st.best, s)
        && (r.found <==> HeaviestTardy(tasks, s) != -1)
        && (r.found ==> r.next.schedule == MoveToEnd(s, HeaviestTardy(tasks, s)))
        && (!r.found ==> r.next.schedule == s)
    ensures var s := st.schedule;
      !(TardyWeight(tasks, s) > K && TardyCount(tasks, s) > 0) ==>
        && (r.found ==>
              exists i, j :: && Improves(tasks, K, s, Consider(tasks, K, st.best, s), i, j)
                             && r.next.schedule == Swap(s, i, j)
                             && r.next.best.schedule == r.next.schedule)
        && (!r.found ==>
              && r.next == State(s, Consider(tasks, K, st.best, s))
              && forall i, j :: !Improves(tasks, K, s, Consider(tasks, K, st.best, s), i, j))
  {
    var s := st.schedule;
    var best := Consider(tasks, K, st.best, s);
    if TardyWeight(tasks, s) > K && TardyCount(tasks, s) > 0 then
      var k := HeaviestTardy(tasks, s);
      if k != -1 then
        MoveToEndPermutation(s, |tasks|, k);
        Pass(State(MoveToEnd(s, k), best), true)
      else
        Pass(State(s, best), false)
    else
      match FindSwap(tasks, K, s, best, 0, 0)
      case SwapAt(i, j) =>
        var t := Swap(s, i, j);
        assert multiset(t) == multiset(s) by {
          SwapMultiset(s, i, j);
        }
        SwapPermutation(s, |tasks|, i, j);
        Pass(State(t, Best(t, SOnTime(tasks, t), TardyWeight(tasks, t))), true)
      case NoSwap =>
        Pass(State(s, best), false)
  }

  lemma SwapMultiset(s: seq<nat>, i: nat, j: nat)
    requires i < |s| && j < |s|
    ensures multiset(Swap(s, i, j)) == multiset(s)
  {
    var t := s[i := s[j]];
    assert multiset(t) == multiset(s) - multiset{s[i]} + multiset{s[j]};
    assert multiset(t[j := s[i]]) == multiset(t) - multiset{t[j]} + multiset{s[i]};
  }

  /** How the heuristic's loop ended, and the record it holds. */
  datatype Outcome = Outcome(state: State, stopped: bool)

  /**
   * Run passes from st: one pass, then up to `fuel` more while each reports
   * progress. `stopped` says the loop ended by itself; otherwise the fuel ran
   * out while it was still reporting progress.
   */
  function Run(tasks: seq<Task>, K: int, st: State, fuel: nat): (r: Outcome)
    requires InTable(tasks, st.schedule)
    ensures multiset(r.state.schedule) == multiset(st.schedule)
    ensures InTable(tasks, r.state.schedule)
    ensures IsPermutation(st.schedule, |tasks|) ==> IsPermutation(r.state.schedule, |tasks|)
    ensures IsPermutation(st.schedule, |tasks|) && Valid(tasks, K, st.best) ==> Valid(tasks, K, r.state.best)
    ensures AtLeast(r.state.best, Consider(tasks, K, st.best, st.schedule))
    ensures NonNegativeWeights(tasks) && K >= 0 && r.stopped ==> Settled(tasks, K, r.state)
    ensures NonNegativeWeights(tasks) && K >= 0 && IsPermutation(st.schedule, |tasks|) &&
            (forall p :: IsPermutation(p, |tasks|) ==> !Feasible(tasks, p, K)) ==>
              !r.stopped
    ensures Iterate(tasks, K, st) == Pass(st, true) ==> r == Outcome(st, false)
    decreases fuel
  {
    var pass := Iterate(tasks, K, st);
    NextInTable(tasks, K, st);
    PassStops(tasks, K, st);
    if !pass.found then
      Outcome(pass.next, true)
    else if fuel == 0 then
      Outcome(pass.next, false)
    else
      var r := Run(tasks, K, pass.next, fuel - 1);
      AtLeastTransitive(r.state.best, Consider(tasks, K, pass.next.best, pass.next.schedule), pass.next.best);
      AtLeastTransitive(r.state.best, pass.next.best, Consider(tasks, K, st.best, st.schedule));
      r
  }

  /** Run is one pass followed, while the pass reports progress, by the rest of the run. */
  lemma RunStep(tasks: seq<Task>, K: int, st: State, fuel: nat)
    requires InTable(tasks, st.schedule)
    ensures var pass := Iterate(tasks, K, st);
      && (!pass.found ==> Run(tasks, K, st, fuel) == Outcome(pass.next, true))
      && (pass.found && fuel == 0 ==> Run(tasks, K, st, fuel) == Outcome(pass.next, false))
      && (pass.found && fuel > 0 ==>
            InTable(tasks, pass.next.schedule) && Run(tasks, K, st, fuel) == Run(tasks, K, pass.next, fuel - 1))
  {
    NextInTable(tasks, K, st);
  }

  /**
   * A pass over a schedule over the limit that does not beat the record keeps
   * the record and moves the heaviest tardy task to the end.
   */
  lemma MovePass(tasks: seq<Task>, K: int, st: State, k: int)
    requires InTable(tasks, st.schedule)
    requires TardyWeight(tasks, st.schedule) > K && TardyCount(tasks, st.schedule) > 0
    requires HeaviestTardy(tasks, st.schedule) == k != -1
    requires !Beats(K, SOnTime(tasks, st.schedule), TardyWeight(tasks, st.schedule), st.best)
    ensures 0 <= k < |st.schedule|
    ensures Iterate(tasks, K, st) == Pass(State(MoveToEnd(st.schedule, k), st.best), true)
  {
  }

  /** A pass that moves to a state whose own pass repeats it leaves the loop spinning there. */
  lemma RunIntoCycle(tasks: seq<Task>, K: int, st: State, next: State, fuel: nat)
    requires InTable(tasks, st.schedule)
    requires Iterate(tasks, K, st) == Pass(next, true)
    requires InTable(tasks, next.schedule) && Iterate(tasks, K, next) == Pass(next, true)
    ensures Run(tasks, K, st, fuel) == Outcome(next, false)
  {
    if fuel > 0 {
      assert Run(tasks, K, st, fuel) == Run(tasks, K, next, fuel - 1) by {
        RunStep(tasks, K, st, fuel);
      }
    } else {
      RunStep(tasks, K, st, fuel);
    }
  }

  /** A pass only rearranges the schedule, so it still indexes the table. */
  lemma NextInTable(tasks: seq<Task>, K: int, st: State)
    requires InTable(tasks, st.schedule)
    ensures InTable(tasks, Iterate(tasks, K, st).next.schedule)
  {
    var t := Iterate(tasks, K, st).next.schedule;
    forall k | 0 <= k < |t| ensures t[k] < |tasks| {
      assert t[k] in multiset(st.schedule);
    }
  }

  lemma AtLeastTransitive(a: Best, b: Best, c: Best)
    requires AtLeast(a, b) && AtLeast(b, c)
    ensures AtLeast(a, c)
  {
  }

  /** The earliest-due-date schedule: task ids in stable deadline order. */
  function Edd(tasks: seq<Task>): (r: seq<nat>)
    requires WellFormed(tasks)
    ensures IsPermutation(r, |tasks|)
    ensures forall i, j :: 0 <= i < j < |r| ==> tasks[r[i]].deadline <= tasks[r[j]].deadline
    ensures forall i, j :: 0 <= i < j < |r| && tasks[r[i]].deadline == tasks[r[j]].deadline ==> r[i] < r[j]
  {
    var sorted := MergeSort.Sort(tasks, Range(|tasks|));
    SortedFacts(tasks, sorted);
    Ids(tasks, sorted)
  }

  lemma SortedFacts(tasks: seq<Task>, r: seq<nat>)
    requires InTable(tasks, Range(|tasks|)) && r == MergeSort.Sort(tasks, Range(|tasks|))
    ensures IsPermutation(r, |tasks|)
    ensures forall i, j :: 0 <= i < j < |r| ==> tasks[r[i]].deadline <= tasks[r[j]].deadline
    ensures forall i, j :: 0 <= i < j < |r| && tasks[r[i]].deadline == tasks[r[j]].deadline ==> r[i] < r[j]
  {
    MergeSort.EqualDeadlinesByIndex(tasks, r);
    MultisetPermutation(r, |tasks|);
    DeadlineOrder(tasks, r);
  }

  lemma DeadlineOrder(tasks: seq<Task>, r: seq<nat>)
    requires InTable(tasks, r) && MergeSort.Sorted(tasks, r)
    requires forall i, j :: 0 <= i < j < |r| && MergeSort.Deadline(tasks, r[i]) == MergeSort.Deadline(tasks, r[j]) ==> r[i] < r[j]
    ensures forall i, j :: 0 <= i < j < |r| ==> tasks[r[i]].deadline <= tasks[r[j]].deadline
    ensures forall i, j :: 0 <= i < j < |r| && tasks[r[i]].deadline == tasks[r[j]].deadline ==> r[i] < r[j]
  {
    forall i, j | 0 <= i < j < |r| ensures tasks[r[i]].deadline <= tasks[r[j]].deadline {
      assert MergeSort.Deadline(tasks, r[i]) <= MergeSort.Deadline(tasks, r[j]);
    }
    forall i, j | 0 <= i < j < |r| && tasks[r[i]].deadline == tasks[r[j]].deadline ensures r[i] < r[j] {
      assert MergeSort.Deadline(tasks, r[i]) == MergeSort.Deadline(tasks, r[j]);
    }
  }

  /** The identifiers of the tasks at the indices of s; with a well-formed table, s itself. */
  function Ids(tasks: seq<Task>, s: seq<nat>): (r: seq<nat>)
    requires WellFormed(tasks) && InTable(tasks, s)
    ensures r == s
  {
    seq(|s|, k requires 0 <= k < |s| => tasks[s[k]].id as nat)
  }

  /** The heuristic's answer: the best schedule and its S-on-time count (-1 for none). */
  datatype Answer = Answer(schedule: seq<nat>, maxSOnTime: int, stopped: bool)

  /** moores_algorithm with at most fuel + 1 passes. */
  function Heuristic(tasks: seq<Task>, K: int, fuel: nat): (a: Answer)
    requires WellFormed(tasks)
    ensures a.maxSOnTime != -1 ==>
              && IsPermutation(a.schedule, |tasks|)
              && Feasible(tasks, a.schedule, K)
              && SOnTime(tasks, a.schedule) == a.maxSOnTime
    ensures a.maxSOnTime == -1 ==> !Feasible(tasks, Edd(tasks), K)
    ensures Feasible(tasks, Edd(tasks), K) ==> a.maxSOnTime >= SOnTime(tasks, Edd(tasks))
    ensures NonNegativeWeights(tasks) && K >= 0 && a.stopped ==> a.maxSOnTime >= 0
    ensures NonNegativeWeights(tasks) && K >= 0 && (forall p :: IsPermutation(p, |tasks|) ==> !Feasible(tasks, p, K)) ==>
              !a.stopped && a.maxSOnTime == -1
  {
    var start := State(Edd(tasks), Initial(K));
    var r := Run(tasks, K, start, fuel);
    Answer(r.state.best.schedule, r.state.best.sOnTime, r.stopped)
  }

  /** Every weight is at least 0, as in any meaningful input. */
  predicate NonNegativeWeights(tasks: seq<Task>) {
    forall k :: 0 <= k < |tasks| ==> tasks[k].weight >= 0
  }

  /**
   * With weights at least 0, a schedule over the limit with a tardy task
   * always has a tardy task the move-to-end step can pick, so the pass
   * reports progress.
   */
  lemma OverLimitMoves(tasks: seq<Task>, K: int, st: State)
    requires InTable(tasks, st.schedule) && NonNegativeWeights(tasks)
    requires TardyWeight(tasks, st.schedule) > K && TardyCount(tasks, st.schedule) > 0
    ensures Iterate(tasks, K, st).found
  {
    var s := st.schedule;
    TardyCountPositive(tasks, s);
    var i :| 0 <= i < |s| && IsTardy(tasks, s, i);
    assert Weight(tasks, s, i) > -1;
  }

  /** With a limit of at least 0, an infeasible schedule has a tardy task. */
  lemma InfeasibleHasTardy(tasks: seq<Task>, K: int, s: seq<nat>)
    requires InTable(tasks, s) && K >= 0 && !Feasible(tasks, s, K)
    ensures TardyCount(tasks, s) > 0
  {
    if TardyCount(tasks, s) == 0 {
      NoTardyNoWeight(tasks, s);
    }
  }

  /**
   * With weights and limit at least 0, a pass over an infeasible schedule
   * always reports progress; so a pass that reports none leaves a feasible
   * schedule in place, and the record scores at least as well as it.
   */
  lemma PassStops(tasks: seq<Task>, K: int, st: State)
    requires InTable(tasks, st.schedule)
    ensures NonNegativeWeights(tasks) && K >= 0 && !Feasible(tasks, st.schedule, K) ==>
              Iterate(tasks, K, st).found
    ensures NonNegativeWeights(tasks) && K >= 0 && !Iterate(tasks, K, st).found ==>
              Iterate(tasks, K, st).next.schedule == st.schedule && Settled(tasks, K, Iterate(tasks, K, st).next)
  {
    var s := st.schedule;
    if NonNegativeWeights(tasks) && K >= 0 && !Feasible(tasks, s, K) {
      InfeasibleHasTardy(tasks, K, s);
      OverLimitMoves(tasks, K, st);
    }
  }

  /** The schedule is feasible and the record scores at least as well as it. */
  predicate Settled(tasks: seq<Task>, K: int, st: State)
    requires InTable(tasks, st.schedule)
  {
    Feasible(tasks, st.schedule, K) && st.best.sOnTime >= SOnTime(tasks, st.schedule)
  }
}
