/**
 * The exact engine: evaluate every permutation of the tasks in generation
 * order and keep the first feasible one with the most on-time S tasks.
 *
 * The C program keeps its best record in two globals; here the record is a
 * value threaded through the enumeration. The record is only replaced by a
 * feasible schedule with a strictly larger S-on-time count, so ties keep the
 * permutation found first and the tardy weight never breaks a tie.
 */
module Naive {
  import opened Tasks
  import opened Evaluation
  import opened Enumeration
  import opened Generator

  /** The best maximum so far (-1 while nothing feasible was seen) and its permutation. */
  datatype Record = Record(maxSOnTime: int, permutation: seq<nat>)

  /** The record before any schedule was evaluated. */
  const Empty := Record(-1, [])

  /** All schedules of a list index the table. */
  predicate AllInTable(tasks: seq<Task>, ps: seq<seq<nat>>) {
    forall k :: 0 <= k < |ps| ==> InTable(tasks, ps[k])
  }

  /** Score schedule p and keep it when it beats the record. */
  function Offer(tasks: seq<Task>, K: int, rec: Record, p: seq<nat>): (r: Record)
    requires InTable(tasks, p)
    ensures r.maxSOnTime >= rec.maxSOnTime
    ensures r == rec || (Feasible(tasks, p, K) && SOnTime(tasks, p) > rec.maxSOnTime && r == Record(SOnTime(tasks, p), p))
    ensures Feasible(tasks, p, K) && SOnTime(tasks, p) > rec.maxSOnTime ==> r == Record(SOnTime(tasks, p), p)
    ensures !Feasible(tasks, p, K) || SOnTime(tasks, p) <= rec.maxSOnTime ==> r == rec
  {
    if TardyWeight(tasks, p) <= K && SOnTime(tasks, p) > rec.maxSOnTime then
      Record(SOnTime(tasks, p), p)
    else
      rec
  }

  /** Offer the schedules of `ps` one after the other. */
  function Scan(tasks: seq<Task>, K: int, rec: Record, ps: seq<seq<nat>>): Record
    requires AllInTable(tasks, ps)
    decreases |ps|
  {
    if ps == [] then rec else Scan(tasks, K, Offer(tasks, K, rec, ps[0]), ps[1..])
  }

  /** Run the exact engine on the table with tardy-weight limit K. */
  function SolveExact(tasks: seq<Task>, K: int): Record
  {
    Scan(tasks, K, Empty, AllPermutations(|tasks|))
  }

  /** Scanning a list is scanning its two halves one after the other. */
  lemma {:induction false} ScanSplit(tasks: seq<Task>, K: int, rec: Record, ps: seq<seq<nat>>, m: nat)
    requires AllInTable(tasks, ps) && m <= |ps|
    ensures Scan(tasks, K, rec, ps) == Scan(tasks, K, Scan(tasks, K, rec, ps[..m]), ps[m..])
    decreases m
  {
    if m > 0 {
      assert ps[..m][1..] == ps[1..][..m-1];
      assert ps[m..] == ps[1..][m-1..];
      ScanSplit(tasks, K, Offer(tasks, K, rec, ps[0]), ps[1..], m - 1);
    }
  }

  /** The stored maximum never decreases. */
  lemma {:induction false} ScanMonotone(tasks: seq<Task>, K: int, rec: Record, ps: seq<seq<nat>>)
    requires AllInTable(tasks, ps)
    ensures Scan(tasks, K, rec, ps).maxSOnTime >= rec.maxSOnTime
    decreases |ps|
  {
    if ps != [] {
      ScanMonotone(tasks, K, Offer(tasks, K, rec, ps[0]), ps[1..]);
    }
  }

  /** Across the calls of one session the maximum after m schedules is at most the one after more. */
  lemma MaximumNeverDecreases(tasks: seq<Task>, K: int, ps: seq<seq<nat>>, m: nat, m': nat)
    requires AllInTable(tasks, ps) && m <= m' <= |ps|
    ensures Scan(tasks, K, Empty, ps[..m]).maxSOnTime <= Scan(tasks, K, Empty, ps[..m']).maxSOnTime
  {
    var qs := ps[..m'];
    assert qs[..m] == ps[..m];
    ScanSplit(tasks, K, Empty, qs, m);
    ScanMonotone(tasks, K, Scan(tasks, K, Empty, qs[..m]), qs[m..]);
  }

  /** Every feasible schedule scanned scores at most the final maximum. */
  lemma {:induction false} ScanUpperBound(tasks: seq<Task>, K: int, rec: Record, ps: seq<seq<nat>>)
    requires AllInTable(tasks, ps)
    ensures forall k :: 0 <= k < |ps| && Feasible(tasks, ps[k], K) ==>
              SOnTime(tasks, ps[k]) <= Scan(tasks, K, rec, ps).maxSOnTime
    decreases |ps|
  {
    if ps != [] {
      var rec' := Offer(tasks, K, rec, ps[0]);
      ScanUpperBound(tasks, K, rec', ps[1..]);
      ScanMonotone(tasks, K, rec', ps[1..]);
      forall k | 0 < k < |ps| ensures ps[k] == ps[1..][k-1] { }
    }
  }

  /**
   * The record is untouched, or it holds the FIRST scanned schedule that is
   * feasible and attains the final maximum.
   */
  lemma {:induction false} ScanFirstBest(tasks: seq<Task>, K: int, rec: Record, ps: seq<seq<nat>>)
    requires AllInTable(tasks, ps)
    ensures var r := Scan(tasks, K, rec, ps);
      || r == rec
      || (&& r.maxSOnTime > rec.maxSOnTime
          && exists k :: 0 <= k < |ps| && ps[k] == r.permutation && FirstBest(tasks, K, ps, k, r.maxSOnTime))
    ensures var r := Scan(tasks, K, rec, ps);
      r.maxSOnTime == rec.maxSOnTime ==> r == rec
    decreases |ps|
  {
    if ps != [] {
      var rec' := Offer(tasks, K, rec, ps[0]);
      var r := Scan(tasks, K, rec', ps[1..]);
      ScanFirstBest(tasks, K, rec', ps[1..]);
      ScanMonotone(tasks, K, rec', ps[1..]);
      if r == rec' {
        if rec' != rec {
          assert FirstBest(tasks, K, ps, 0, r.maxSOnTime);
        }
      } else {
        var k :| 0 <= k < |ps[1..]| && ps[1..][k] == r.permutation && FirstBest(tasks, K, ps[1..], k, r.maxSOnTime);
        assert FirstBest(tasks, K, ps, k + 1, r.maxSOnTime) by {
          forall j | 0 < j < k + 1 ensures ps[j] == ps[1..][j-1] { }
        }
      }
    }
  }

  /** ps[k] is feasible, scores m, and no earlier schedule of ps is feasible with score m. */
  predicate FirstBest(tasks: seq<Task>, K: int, ps: seq<seq<nat>>, k: nat, m: int)
    requires AllInTable(tasks, ps) && k < |ps|
  {
    && Feasible(tasks, ps[k], K)
    && SOnTime(tasks, ps[k]) == m
    && forall j :: 0 <= j < k ==> !(Feasible(tasks, ps[j], K) && SOnTime(tasks, ps[j]) == m)
  }

  /** Starting from the empty record, -1 survives iff nothing scanned is feasible. */
  lemma {:induction false} ScanSentinel(tasks: seq<Task>, K: int, ps: seq<seq<nat>>)
    requires AllInTable(tasks, ps)
    ensures Scan(tasks, K, Empty, ps).maxSOnTime == -1 <==> forall k :: 0 <= k < |ps| ==> !Feasible(tasks, ps[k], K)
  {
    ScanUpperBound(tasks, K, Empty, ps);
    ScanFirstBest(tasks, K, Empty, ps);
  }

  /**
   * The exact engine is exact: it reports -1 iff no permutation is feasible;
   * otherwise its permutation is feasible and scores the reported maximum,
   * no feasible permutation scores more, and among those that score as much
   * it is the lexicographically smallest.
   */
  lemma ExactIsOptimal(tasks: seq<Task>, K: int)
    ensures var r := SolveExact(tasks, K);
      r.maxSOnTime == -1 <==> forall p :: IsPermutation(p, |tasks|) ==> !Feasible(tasks, p, K)
    ensures var r := SolveExact(tasks, K);
      r.maxSOnTime != -1 ==>
        && IsPermutation(r.permutation, |tasks|)
        && Feasible(tasks, r.permutation, K)
        && SOnTime(tasks, r.permutation) == r.maxSOnTime
    ensures var r := SolveExact(tasks, K);
      forall p :: IsPermutation(p, |tasks|) && Feasible(tasks, p, K) ==> SOnTime(tasks, p) <= r.maxSOnTime
    ensures var r := SolveExact(tasks, K);
      forall p :: IsPermutation(p, |tasks|) && Feasible(tasks, p, K) && SOnTime(tasks, p) == r.maxSOnTime ==>
        p == r.permutation || LexLess(r.permutation, p)
  {
    ExactSentinel(tasks, K);
    ExactUpperBound(tasks, K);
    ExactFirst(tasks, K);
  }

  lemma ExactSentinel(tasks: seq<Task>, K: int)
    ensures var r := SolveExact(tasks, K);
      r.maxSOnTime == -1 <==> forall p :: IsPermutation(p, |tasks|) ==> !Feasible(tasks, p, K)
  {
    var n := |tasks|;
    var ps := AllPermutations(n);
    ScanSentinel(tasks, K, ps);
    if SolveExact(tasks, K).maxSOnTime == -1 {
      forall p | IsPermutation(p, n) ensures !Feasible(tasks, p, K) {
        AllPermutationsComplete(n, p);
      }
    }
  }

  lemma ExactUpperBound(tasks: seq<Task>, K: int)
    ensures var r := SolveExact(tasks, K);
      forall p :: IsPermutation(p, |tasks|) && Feasible(tasks, p, K) ==> SOnTime(tasks, p) <= r.maxSOnTime
  {
    var n := |tasks|;
    var ps := AllPermutations(n);
    ScanUpperBound(tasks, K, Empty, ps);
    forall p | IsPermutation(p, n) && Feasible(tasks, p, K)
      ensures SOnTime(tasks, p) <= SolveExact(tasks, K).maxSOnTime
    {
      AllPermutationsComplete(n, p);
    }
  }

  lemma ExactFirst(tasks: seq<Task>, K: int)
    ensures var r := SolveExact(tasks, K);
      r.maxSOnTime != -1 ==>
        && IsPermutation(r.permutation, |tasks|)
        && Feasible(tasks, r.permutation, K)
        && SOnTime(tasks, r.permutation) == r.maxSOnTime
    ensures var r := SolveExact(tasks, K);
      forall p :: IsPermutation(p, |tasks|) && Feasible(tasks, p, K) && SOnTime(tasks, p) == r.maxSOnTime ==>
        p == r.permutation || LexLess(r.permutation, p)
  {
    var n := |tasks|;
    var ps := AllPermutations(n);
    var r := SolveExact(tasks, K);
    ScanFirstBest(tasks, K, Empty, ps);
    if r.maxSOnTime != -1 {
      var k :| 0 <= k < |ps| && ps[k] == r.permutation && FirstBest(tasks, K, ps, k, r.maxSOnTime);
      forall p | IsPermutation(p, n) && Feasible(tasks, p, K) && SOnTime(tasks, p) == r.maxSOnTime
        ensures p == r.permutation || LexLess(r.permutation, p)
      {
        FirstIsLeast(tasks, K, ps, k, r.maxSOnTime, p);
      }
    } else {
      assert r == Empty;
    }
  }

  /** The first feasible permutation generated with score m precedes every other one in lexicographic order. */
  lemma FirstIsLeast(tasks: seq<Task>, K: int, ps: seq<seq<nat>>, k: nat, m: int, p: seq<nat>)
    requires ps == AllPermutations(|tasks|) && AllInTable(tasks, ps) && k < |ps| && FirstBest(tasks, K, ps, k, m)
    requires IsPermutation(p, |tasks|) && Feasible(tasks, p, K) && SOnTime(tasks, p) == m
    ensures p == ps[k] || LexLess(ps[k], p)
  {
    AllPermutationsComplete(|tasks|, p);
    var j :| 0 <= j < |ps| && ps[j] == p;
    if j < k {
      assert false;
    } else if j > k {
      CompletionsIncreasing(|tasks|, []);
    }
  }

  /** Scanning one more schedule is offering it to the record scanned so far. */
  lemma ScanAppend(tasks: seq<Task>, K: int, rec: Record, ps: seq<seq<nat>>, p: seq<nat>)
    requires AllInTable(tasks, ps) && InTable(tasks, p)
    ensures AllInTable(tasks, ps + [p])
    ensures Scan(tasks, K, rec, ps + [p]) == Offer(tasks, K, Scan(tasks, K, rec, ps), p)
  {
    var qs := ps + [p];
    ScanSplit(tasks, K, rec, qs, |ps|);
    assert qs[..|ps|] == ps && qs[|ps|..] == [p];
  }

  /** Evaluate one emitted permutation and update the record as naive.c does. */
  method Visit(tasks: seq<Task>, K: int, rec: Record, emitted: seq<seq<nat>>, perm: seq<nat>)
    returns (rec': Record, emitted': seq<seq<nat>>)
    requires AllInTable(tasks, emitted) && InTable(tasks, perm) && rec == Scan(tasks, K, Empty, emitted)
    ensures emitted' == emitted + [perm]
    ensures AllInTable(tasks, emitted') && rec' == Scan(tasks, K, Empty, emitted')
  {
    var tardyWeight, sOnTime, _ := EvaluateSchedule(tasks, perm);
    ScanAppend(tasks, K, Empty, emitted, perm);
    rec' := rec;
    if tardyWeight <= K && sOnTime > rec.maxSOnTime {
      rec' := Record(sOnTime, perm);
    }
    emitted' := emitted + [perm];
  }

  /**
   * The stack machine of the exact engine: climb a level while the current
   * one has entries (filling it, or emitting the permutation on the tops once
   * all n levels are chosen), and otherwise drop back and pop the level below.
   * `emitted` lists the permutations evaluated, in order.
   */
  method GeneratePermutations(tasks: seq<Task>, K: int) returns (rec: Record, emitted: seq<seq<nat>>)
    ensures emitted == AllPermutations(|tasks|)
    ensures rec == SolveExact(tasks, K)
    ensures rec.maxSOnTime == -1 <==> forall p :: IsPermutation(p, |tasks|) ==> !Feasible(tasks, p, K)
    ensures rec.maxSOnTime != -1 ==>
      && IsPermutation(rec.permutation, |tasks|)
      && Feasible(tasks, rec.permutation, K)
      && SOnTime(tasks, rec.permutation) == rec.maxSOnTime
      && forall p :: IsPermutation(p, |tasks|) && Feasible(tasks, p, K) ==> SOnTime(tasks, p) <= rec.maxSOnTime
  {
    var n := |tasks|;
    var stacks: seq<seq<nat>> := [[0]];
    var move := 0;
    rec, emitted := Empty, [];
    Initial(n);
    while stacks[0] != []
      invariant Machine(n, stacks) && move == |stacks| - 1
      invariant emitted + Pending(n, stacks) == AllPermutations(n)
      invariant AllInTable(tasks, emitted) && rec == Scan(tasks, K, Empty, emitted)
      decreases |Pending(n, stacks)|, Phase(n, stacks)
    {
      if stacks[move] != [] {
        if move + 1 == n + 1 {
          var perm, next := Emit(n, stacks);
          ConcatAssoc(emitted, [perm], Pending(n, next));
          rec, emitted := Visit(tasks, K, rec, emitted, perm);
          stacks := next;
        } else {
          stacks := Push(n, stacks);
        }
        move := move + 1;
      } else {
        stacks := Drop(n, stacks);
        move := move - 1;
      }
    }
    Final(n, stacks);
    ExactIsOptimal(tasks, K);
  }
}
