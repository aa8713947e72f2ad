/**
 * Schedule evaluation: run the tasks of a schedule back to back on one
 * machine from time 0, and score the result.
 *
 * The reference definitions below are stated position by position: the
 * finish time of position i is the total length of positions 0..i, a
 * position is tardy iff its finish time is greater than its task's deadline,
 * the tardy weight sums the weights of tardy positions and the S-on-time
 * count counts the on-time positions whose task is in S. The methods are the
 * running-clock loops of the C code, proved to compute those quantities.
 */
module Evaluation {
  import opened Tasks

  /** Time at which the machine is free again after running `p` from 0. */
  function Clock(tasks: seq<Task>, p: seq<nat>): int
    requires InTable(tasks, p)
  {
    if p == [] then 0 else Clock(tasks, p[..|p|-1]) + tasks[p[|p|-1]].length
  }

  /** Start time of position i. */
  function Start(tasks: seq<Task>, p: seq<nat>, i: nat): int
    requires InTable(tasks, p) && i < |p|
  {
    Clock(tasks, p[..i])
  }

  /** Completion time of position i: the lengths of positions 0..i summed. */
  function Finish(tasks: seq<Task>, p: seq<nat>, i: nat): int
    requires InTable(tasks, p) && i < |p|
  {
    Clock(tasks, p[..i+1])
  }

  predicate IsTardy(tasks: seq<Task>, p: seq<nat>, i: nat)
    requires InTable(tasks, p) && i < |p|
  {
    Finish(tasks, p, i) > tasks[p[i]].deadline
  }

  /** Sum of the weights of the tardy positions. */
  function TardyWeight(tasks: seq<Task>, p: seq<nat>): int
    requires InTable(tasks, p)
  {
    if p == [] then 0
    else
      var last := |p| - 1;
      TardyWeight(tasks, p[..last]) + (if IsTardy(tasks, p, last) then tasks[p[last]].weight else 0)
  }

  /** Number of on-time positions whose task is in S. */
  function SOnTime(tasks: seq<Task>, p: seq<nat>): nat
    requires InTable(tasks, p)
  {
    if p == [] then 0
    else
      var last := |p| - 1;
      SOnTime(tasks, p[..last]) + (if !IsTardy(tasks, p, last) && tasks[p[last]].inS then 1 else 0)
  }

  /** Number of tardy positions. */
  function TardyCount(tasks: seq<Task>, p: seq<nat>): nat
    requires InTable(tasks, p)
  {
    if p == [] then 0
    else
      var last := |p| - 1;
      TardyCount(tasks, p[..last]) + (if IsTardy(tasks, p, last) then 1 else 0)
  }

  /** A schedule is accepted when its tardy weight stays within the limit K. */
  predicate Feasible(tasks: seq<Task>, p: seq<nat>, K: int)
    requires InTable(tasks, p)
  {
    TardyWeight(tasks, p) <= K
  }

  /** Positions before m see the same clock in p and in p[..m]. */
  lemma PrefixTardy(tasks: seq<Task>, p: seq<nat>, m: nat, i: nat)
    requires InTable(tasks, p) && i < m <= |p|
    ensures Finish(tasks, p[..m], i) == Finish(tasks, p, i)
    ensures IsTardy(tasks, p[..m], i) == IsTardy(tasks, p, i)
  {
    assert p[..m][..i+1] == p[..i+1];
  }

  /** Running two schedules one after the other takes the sum of their times. */
  lemma {:induction false} ClockAppend(tasks: seq<Task>, a: seq<nat>, b: seq<nat>)
    requires InTable(tasks, a) && InTable(tasks, b)
    ensures InTable(tasks, a + b)
    ensures Clock(tasks, a + b) == Clock(tasks, a) + Clock(tasks, b)
  {
    if b != [] {
      var b' := b[..|b|-1];
      assert (a + b)[..|a + b|-1] == a + b';
      ClockAppend(tasks, a, b');
    } else {
      assert a + b == a;
    }
  }

  /** Start and finish times chain: no idle time and no preemption. */
  lemma Timing(tasks: seq<Task>, p: seq<nat>, i: nat)
    requires InTable(tasks, p) && i < |p|
    ensures Start(tasks, p, 0) == 0
    ensures Finish(tasks, p, i) == Start(tasks, p, i) + tasks[p[i]].length
    ensures i + 1 < |p| ==> Start(tasks, p, i + 1) == Finish(tasks, p, i)
    ensures i == |p| - 1 ==> Finish(tasks, p, i) == Clock(tasks, p)
  {
    assert p[..i+1][..i] == p[..i];
    assert p[..|p|] == p;
  }

  /** Taking one task out of a schedule takes its length off the clock. */
  lemma ClockRemove(tasks: seq<Task>, q: seq<nat>, k: nat)
    requires InTable(tasks, q) && k < |q|
    ensures InTable(tasks, RemoveAt(q, k))
    ensures Clock(tasks, q) == Clock(tasks, RemoveAt(q, k)) + tasks[q[k]].length
  {
    assert q == q[..k] + [q[k]] + q[k+1..];
    ClockAppend(tasks, q[..k], [q[k]]);
    ClockAppend(tasks, q[..k] + [q[k]], q[k+1..]);
    ClockAppend(tasks, q[..k], q[k+1..]);
    assert [q[k]][..0] == [];
  }

  /** The clock depends only on which tasks run, not on their order. */
  lemma {:induction false} ClockMultiset(tasks: seq<Task>, p: seq<nat>, q: seq<nat>)
    requires InTable(tasks, p) && InTable(tasks, q)
    requires multiset(p) == multiset(q)
    ensures Clock(tasks, p) == Clock(tasks, q)
  {
    if p != [] {
      var last := |p| - 1;
      var x := p[last];
      assert x in multiset(q) by {
        assert p == p[..last] + [x];
      }
      var k :| 0 <= k < |q| && q[k] == x;
      MultisetRemove(p, last);
      MultisetRemove(q, k);
      assert multiset(RemoveAt(p, last)) == multiset(RemoveAt(q, k)) by {
        forall y ensures multiset(RemoveAt(p, last))[y] == multiset(RemoveAt(q, k))[y] {
          assert multiset(p)[y] == multiset(q)[y];
        }
      }
      ClockRemove(tasks, p, last);
      ClockRemove(tasks, q, k);
      ClockMultiset(tasks, RemoveAt(p, last), RemoveAt(q, k));
    } else {
      assert |q| == |multiset(q)| == 0;
    }
  }

  /**
   * The final clock of any permutation of the table is the total length of
   * all tasks.
   */
  lemma FinalClockIsTotalLength(tasks: seq<Task>, p: seq<nat>)
    requires IsPermutation(p, |tasks|)
    ensures InTable(tasks, p) && InTable(tasks, Range(|tasks|))
    ensures Clock(tasks, p) == Clock(tasks, Range(|tasks|))
  {
    PermutationMultiset(p, |tasks|);
    ClockMultiset(tasks, p, Range(|tasks|));
  }

  /** The positions of `p` that finish late. */
  function TardySet(tasks: seq<Task>, p: seq<nat>): set<nat>
    requires InTable(tasks, p)
  {
    set i: nat | i < |p| && IsTardy(tasks, p, i)
  }

  lemma TardySetStep(tasks: seq<Task>, p: seq<nat>)
    requires InTable(tasks, p) && p != []
    ensures TardySet(tasks, p)
         == TardySet(tasks, p[..|p|-1]) + (if IsTardy(tasks, p, |p|-1) then {|p|-1} else {})
  {
    var last := |p| - 1;
    forall i: nat | i < last ensures IsTardy(tasks, p[..last], i) == IsTardy(tasks, p, i) {
      PrefixTardy(tasks, p, last, i);
    }
  }

  /** The tardy count is the number of tardy positions. */
  lemma {:induction false} TardyCountIsCardinality(tasks: seq<Task>, p: seq<nat>)
    requires InTable(tasks, p)
    ensures TardyCount(tasks, p) == |TardySet(tasks, p)|
  {
    if p != [] {
      TardyCountIsCardinality(tasks, p[..|p|-1]);
      TardySetStep(tasks, p);
    }
  }

  /** Some position is tardy iff the tardy count is positive. */
  lemma TardyCountPositive(tasks: seq<Task>, p: seq<nat>)
    requires InTable(tasks, p)
    ensures TardyCount(tasks, p) > 0 <==> exists i :: 0 <= i < |p| && IsTardy(tasks, p, i)
  {
    TardyCountIsCardinality(tasks, p);
    if TardyCount(tasks, p) > 0 {
      var i :| i in TardySet(tasks, p);
    }
    if exists i :: 0 <= i < |p| && IsTardy(tasks, p, i) {
      var i :| 0 <= i < |p| && IsTardy(tasks, p, i);
      assert i in TardySet(tasks, p);
    }
  }

  /** A schedule with no tardy position has tardy weight 0. */
  lemma {:induction false} NoTardyNoWeight(tasks: seq<Task>, p: seq<nat>)
    requires InTable(tasks, p) && TardyCount(tasks, p) == 0
    ensures TardyWeight(tasks, p) == 0
  {
    if p != [] {
      NoTardyNoWeight(tasks, p[..|p|-1]);
    }
  }

  /** With weights of at least 0, the tardy weight is at least the weight of any tardy position. */
  lemma {:induction false} TardyWeightCovers(tasks: seq<Task>, p: seq<nat>, i: nat)
    requires InTable(tasks, p) && i < |p| && IsTardy(tasks, p, i)
    requires forall k :: 0 <= k < |tasks| ==> tasks[k].weight >= 0
    ensures TardyWeight(tasks, p) >= tasks[p[i]].weight
  {
    var last := |p| - 1;
    TardyWeightNonNegative(tasks, p[..last]);
    if i < last {
      PrefixTardy(tasks, p, last, i);
      TardyWeightCovers(tasks, p[..last], i);
    }
  }

  lemma {:induction false} TardyWeightNonNegative(tasks: seq<Task>, p: seq<nat>)
    requires InTable(tasks, p)
    requires forall k :: 0 <= k < |tasks| ==> tasks[k].weight >= 0
    ensures TardyWeight(tasks, p) >= 0
  {
    if p != [] {
      TardyWeightNonNegative(tasks, p[..|p|-1]);
    }
  }

  /**
   * The scoring loop of the exact engine: one pass with a running clock,
   * adding the weight of every late task and counting the on-time S tasks.
   */
  method EvaluateSchedule(tasks: seq<Task>, p: seq<nat>) returns (tardyWeight: int, sOnTime: nat, clock: int)
    requires InTable(tasks, p)
    ensures tardyWeight == TardyWeight(tasks, p)
    ensures sOnTime == SOnTime(tasks, p)
    ensures clock == Clock(tasks, p)
  {
    clock, tardyWeight, sOnTime := 0, 0, 0;
    var i := 0;
    while i < |p|
      invariant i <= |p|
      invariant clock == Clock(tasks, p[..i])
      invariant tardyWeight == TardyWeight(tasks, p[..i])
      invariant sOnTime == SOnTime(tasks, p[..i])
    {
      var task := tasks[p[i]];
      var completion := clock + task.length;
      clock := completion;
      assert p[..i+1][..i] == p[..i];
      PrefixTardy(tasks, p, i + 1, i);
      if completion > task.deadline {
        tardyWeight := tardyWeight + task.weight;
      } else {
        if task.inS {
          sOnTime := sOnTime + 1;
        }
      }
      i := i + 1;
    }
    assert p[..i] == p;
  }

  /**
   * The scoring loop of the heuristic engine: as above, and it also marks
   * each tardy position and counts them.
   */
  method EvaluateMarked(tasks: seq<Task>, p: seq<nat>)
    returns (tardyWeight: int, sOnTime: nat, tardy: seq<bool>, tardyCount: nat)
    requires InTable(tasks, p)
    ensures tardyWeight == TardyWeight(tasks, p)
    ensures sOnTime == SOnTime(tasks, p)
    ensures |tardy| == |p|
    ensures forall i :: 0 <= i < |p| ==> (tardy[i] <==> IsTardy(tasks, p, i))
    ensures tardyCount == TardyCount(tasks, p) == |TardySet(tasks, p)|
    ensures tardyCount > 0 <==> exists i :: 0 <= i < |p| && tardy[i]
  {
    var clock := 0;
    tardyWeight, sOnTime, tardyCount := 0, 0, 0;
    tardy := [];
    var i := 0;
    while i < |p|
      invariant i <= |p| && |tardy| == i
      invariant clock == Clock(tasks, p[..i])
      invariant tardyWeight == TardyWeight(tasks, p[..i])
      invariant sOnTime == SOnTime(tasks, p[..i])
      invariant tardyCount == TardyCount(tasks, p[..i])
      invariant forall k :: 0 <= k < i ==> (tardy[k] <==> IsTardy(tasks, p, k))
    {
      var task := tasks[p[i]];
      var completion := clock + task.length;
      clock := completion;
      assert p[..i+1][..i] == p[..i];
      PrefixTardy(tasks, p, i + 1, i);
      if completion > task.deadline {
        tardyWeight := tardyWeight + task.weight;
        tardy := tardy + [true];
        tardyCount := tardyCount + 1;
      } else {
        tardy := tardy + [false];
        if task.inS {
          sOnTime := sOnTime + 1;
        }
      }
      i := i + 1;
    }
    assert p[..i] == p;
    TardyCountIsCardinality(tasks, p);
    TardyCountPositive(tasks, p);
  }

  datatype Status = OnTimeS | OnTime | Tardy

  /** One line of the execution table: the task's own columns, then start, finish and status. */
  datatype Row = Row(id: int, length: int, weight: int, deadline: int, start: int, finish: int, status: Status)

  function StatusOf(tasks: seq<Task>, p: seq<nat>, i: nat): Status
    requires InTable(tasks, p) && i < |p|
  {
    if IsTardy(tasks, p, i) then Tardy else if tasks[p[i]].inS then OnTimeS else OnTime
  }

  function RowAt(tasks: seq<Task>, p: seq<nat>, i: nat): Row
    requires InTable(tasks, p) && i < |p|
  {
    var t := tasks[p[i]];
    Row(t.id, t.length, t.weight, t.deadline, Start(tasks, p, i), Finish(tasks, p, i), StatusOf(tasks, p, i))
  }

  /** What a table of reference rows says about the machine's timeline. */
  lemma RowsChain(tasks: seq<Task>, p: seq<nat>, rows: seq<Row>)
    requires InTable(tasks, p) && |rows| == |p|
    requires forall k :: 0 <= k < |p| ==> rows[k] == RowAt(tasks, p, k)
    ensures forall i :: 0 <= i < |p| ==> rows[i].finish == rows[i].start + tasks[p[i]].length
    ensures |p| > 0 ==> rows[0].start == 0
    ensures forall i :: 0 < i < |p| ==> rows[i].start == rows[i-1].finish
  {
    forall i | 0 <= i < |p| ensures rows[i].finish == rows[i].start + tasks[p[i]].length {
      Timing(tasks, p, i);
    }
    forall i | 0 < i < |p| ensures rows[i].start == rows[i-1].finish {
      Timing(tasks, p, i - 1);
    }
    if |p| > 0 {
      Timing(tasks, p, 0);
    }
  }

  /** What a table of reference rows says about each task's finish and status. */
  lemma RowsStatus(tasks: seq<Task>, p: seq<nat>, rows: seq<Row>)
    requires InTable(tasks, p) && |rows| == |p|
    requires forall k :: 0 <= k < |p| ==> rows[k] == RowAt(tasks, p, k)
    ensures forall i :: 0 <= i < |p| ==> rows[i].id == tasks[p[i]].id
    ensures forall i :: 0 <= i < |p| ==>
              && rows[i].length == tasks[p[i]].length
              && rows[i].weight == tasks[p[i]].weight
              && rows[i].deadline == tasks[p[i]].deadline
    ensures forall i :: 0 <= i < |p| ==> rows[i].finish == Finish(tasks, p, i)
    ensures forall i :: 0 <= i < |p| ==> (rows[i].status == Tardy <==> IsTardy(tasks, p, i))
    ensures forall i :: 0 <= i < |p| ==> (rows[i].status == OnTimeS <==> !IsTardy(tasks, p, i) && tasks[p[i]].inS)
  {
  }

  /**
   * The execution table of the report: per position the task's id, length,
   * weight and deadline, its start and finish on the machine, and whether it
   * was on time (and in S) or late; plus the two summary figures.
   */
  method Details(tasks: seq<Task>, p: seq<nat>) returns (rows: seq<Row>, tardyWeight: int, sOnTime: nat)
    requires InTable(tasks, p)
    ensures |rows| == |p|
    ensures forall i :: 0 <= i < |p| ==> rows[i].id == tasks[p[i]].id
    ensures forall i :: 0 <= i < |p| ==>
              && rows[i].length == tasks[p[i]].length
              && rows[i].weight == tasks[p[i]].weight
              && rows[i].deadline == tasks[p[i]].deadline
    ensures forall i :: 0 <= i < |p| ==> rows[i].finish == rows[i].start + tasks[p[i]].length
    ensures |p| > 0 ==> rows[0].start == 0
    ensures forall i :: 0 < i < |p| ==> rows[i].start == rows[i-1].finish
    ensures forall i :: 0 <= i < |p| ==> rows[i].finish == Finish(tasks, p, i)
    ensures forall i :: 0 <= i < |p| ==> (rows[i].status == Tardy <==> IsTardy(tasks, p, i))
    ensures forall i :: 0 <= i < |p| ==> (rows[i].status == OnTimeS <==> !IsTardy(tasks, p, i) && tasks[p[i]].inS)
    ensures tardyWeight == TardyWeight(tasks, p)
    ensures sOnTime == SOnTime(tasks, p)
  {
    var clock := 0;
    tardyWeight, sOnTime := 0, 0;
    rows := [];
    var i := 0;
    while i < |p|
      invariant i <= |p| && |rows| == i
      invariant clock == Clock(tasks, p[..i])
      invariant tardyWeight == TardyWeight(tasks, p[..i])
      invariant sOnTime == SOnTime(tasks, p[..i])
      invariant forall k :: 0 <= k < i ==> rows[k] == RowAt(tasks, p, k)
    {
      var task := tasks[p[i]];
      var start := clock;
      var completion := clock + task.length;
      clock := completion;
      assert p[..i+1][..i] == p[..i];
      PrefixTardy(tasks, p, i + 1, i);
      var status;
      if completion <= task.deadline {
        status := if task.inS then OnTimeS else OnTime;
        if task.inS {
          sOnTime := sOnTime + 1;
        }
      } else {
        status := Tardy;
        tardyWeight := tardyWeight + task.weight;
      }
      var row := Row(task.id, task.length, task.weight, task.deadline, start, completion, status);
      assert row == RowAt(tasks, p, i);
      rows := rows + [row];
      i := i + 1;
    }
    assert p[..i] == p;
    RowsChain(tasks, p, rows);
    RowsStatus(tasks, p, rows);
  }
}
