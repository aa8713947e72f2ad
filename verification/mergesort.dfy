/**
 * The merge sort by deadline used to build the earliest-due-date schedule.
 *
 * The C code sorts an array of pointers into the task table; a pointer is
 * modelled as the index it points to, so the sort rearranges a sequence of
 * indices keyed by their task's deadline. The range is split after its
 * middle element (the left run is one longer on odd lengths) and the merge
 * takes from the left run while its head's deadline is no larger, which is
 * what makes the sort stable.
 */
module MergeSort {
  import opened Tasks

  function Deadline(tasks: seq<Task>, x: nat): int
    requires x < |tasks|
  {
    tasks[x].deadline
  }

  /** Non-decreasing by deadline. */
  predicate Sorted(tasks: seq<Task>, s: seq<nat>)
    requires InTable(tasks, s)
  {
    forall i, j :: 0 <= i < j < |s| ==> Deadline(tasks, s[i]) <= Deadline(tasks, s[j])
  }

  /** The entries of s whose deadline is d, in their order in s. */
  function Filter(tasks: seq<Task>, s: seq<nat>, d: int): seq<nat>
    requires InTable(tasks, s)
  {
    if s == [] then []
    else (if Deadline(tasks, s[0]) == d then [s[0]] else []) + Filter(tasks, s[1..], d)
  }

  /** Merge two runs; on equal deadlines the left run goes first. */
  function Merge(tasks: seq<Task>, a: seq<nat>, b: seq<nat>): (r: seq<nat>)
    requires InTable(tasks, a) && InTable(tasks, b)
    ensures multiset(r) == multiset(a) + multiset(b)
    ensures InTable(tasks, r)
    decreases |a| + |b|
  {
    if a == [] then b
    else if b == [] then a
    else if Deadline(tasks, a[0]) <= Deadline(tasks, b[0]) then
      var rest := Merge(tasks, a[1..], b);
      HeadMultiset(a);
      ConsInTable(tasks, a[0], rest);
      [a[0]] + rest
    else
      var rest := Merge(tasks, a, b[1..]);
      HeadMultiset(b);
      ConsInTable(tasks, b[0], rest);
      [b[0]] + rest
  }

  lemma ConsInTable(tasks: seq<Task>, x: nat, t: seq<nat>)
    requires x < |tasks| && InTable(tasks, t)
    ensures InTable(tasks, [x] + t)
  {
  }

  lemma HeadMultiset(a: seq<nat>)
    requires a != []
    ensures multiset(a) == multiset{a[0]} + multiset(a[1..])
  {
    assert a == [a[0]] + a[1..];
  }

  /** Merging two sorted runs gives a sorted sequence. */
  lemma {:induction false} MergeSorted(tasks: seq<Task>, a: seq<nat>, b: seq<nat>)
    requires InTable(tasks, a) && InTable(tasks, b) && Sorted(tasks, a) && Sorted(tasks, b)
    ensures Sorted(tasks, Merge(tasks, a, b))
    decreases |a| + |b|
  {
    if a != [] && b != [] {
      if Deadline(tasks, a[0]) <= Deadline(tasks, b[0]) {
        MergeSorted(tasks, a[1..], b);
        HeadBelow(tasks, a, b, Merge(tasks, a[1..], b));
      } else {
        MergeSorted(tasks, a, b[1..]);
        HeadBelow(tasks, b, a, Merge(tasks, a, b[1..]));
      }
    }
  }

  /**
   * Merging keeps equal-deadline entries in order: those of the left run,
   * then those of the right run.
   */
  lemma {:induction false} MergeStable(tasks: seq<Task>, a: seq<nat>, b: seq<nat>, d: int)
    requires InTable(tasks, a) && InTable(tasks, b) && Sorted(tasks, a)
    ensures Filter(tasks, Merge(tasks, a, b), d) == Filter(tasks, a, d) + Filter(tasks, b, d)
    decreases |a| + |b|, 1
  {
    if a == [] {
      assert Merge(tasks, a, b) == b;
    } else if b == [] {
      assert Merge(tasks, a, b) == a;
      assert Filter(tasks, b, d) == [];
    } else if Deadline(tasks, a[0]) <= Deadline(tasks, b[0]) {
      MergeStableLeft(tasks, a, b, d);
    } else {
      MergeStableRight(tasks, a, b, d);
    }
  }

  /** The step where the left run's head goes first. */
  lemma {:induction false} MergeStableLeft(tasks: seq<Task>, a: seq<nat>, b: seq<nat>, d: int)
    requires InTable(tasks, a) && InTable(tasks, b) && Sorted(tasks, a)
    requires a != [] && b != [] && Deadline(tasks, a[0]) <= Deadline(tasks, b[0])
    ensures Filter(tasks, Merge(tasks, a, b), d) == Filter(tasks, a, d) + Filter(tasks, b, d)
    decreases |a| + |b|, 0
  {
    assert Sorted(tasks, a[1..]);
    MergeStable(tasks, a[1..], b, d);
    var rest := Merge(tasks, a[1..], b);
    var h := if Deadline(tasks, a[0]) == d then [a[0]] else [];
    assert Merge(tasks, a, b) == [a[0]] + rest;
    FilterCons(tasks, a[0], rest, d);
    assert Filter(tasks, a, d) == h + Filter(tasks, a[1..], d);
    ConcatAssoc(h, Filter(tasks, a[1..], d), Filter(tasks, b, d));
  }

  /** The step where the right run's head goes first; the left run holds nothing of that head's deadline. */
  lemma {:induction false} MergeStableRight(tasks: seq<Task>, a: seq<nat>, b: seq<nat>, d: int)
    requires InTable(tasks, a) && InTable(tasks, b) && Sorted(tasks, a)
    requires a != [] && b != [] && Deadline(tasks, a[0]) > Deadline(tasks, b[0])
    ensures Filter(tasks, Merge(tasks, a, b), d) == Filter(tasks, a, d) + Filter(tasks, b, d)
    decreases |a| + |b|, 0
  {
    MergeStable(tasks, a, b[1..], d);
    if Deadline(tasks, b[0]) == d {
      AboveHead(tasks, a, d);
    }
    var rest := Merge(tasks, a, b[1..]);
    var h := if Deadline(tasks, b[0]) == d then [b[0]] else [];
    MergeRightHead(tasks, a, b);
    FilterCons(tasks, b[0], rest, d);
    FilterHead(tasks, b, d);
    Interleave(h, Filter(tasks, a, d), Filter(tasks, b[1..], d),
               Filter(tasks, Merge(tasks, a, b), d), Filter(tasks, b, d));
  }

  lemma MergeRightHead(tasks: seq<Task>, a: seq<nat>, b: seq<nat>)
    requires InTable(tasks, a) && InTable(tasks, b)
    requires a != [] && b != [] && Deadline(tasks, a[0]) > Deadline(tasks, b[0])
    ensures InTable(tasks, b[1..])
    ensures Merge(tasks, a, b) == [b[0]] + Merge(tasks, a, b[1..])
  {
  }

  lemma FilterHead(tasks: seq<Task>, s: seq<nat>, d: int)
    requires InTable(tasks, s) && s != []
    ensures Filter(tasks, s, d) == (if Deadline(tasks, s[0]) == d then [s[0]] else []) + Filter(tasks, s[1..], d)
  {
  }

  /** The sequence bookkeeping of MergeStableRight: a head h in front of nothing from the left run. */
  lemma Interleave<T>(h: seq<T>, fa: seq<T>, fb: seq<T>, x: seq<T>, y: seq<T>)
    requires x == h + (fa + fb) && y == h + fb
    requires h != [] ==> fa == []
    ensures x == fa + y
  {
    if h != [] {
      assert fa + y == y;
    }
  }

  /** A sorted run whose head is later than d holds no entry of deadline d. */
  lemma AboveHead(tasks: seq<Task>, a: seq<nat>, d: int)
    requires InTable(tasks, a) && Sorted(tasks, a) && a != [] && Deadline(tasks, a[0]) > d
    ensures Filter(tasks, a, d) == []
  {
    forall k | 0 <= k < |a| ensures Deadline(tasks, a[k]) != d {
      assert k == 0 || Deadline(tasks, a[0]) <= Deadline(tasks, a[k]);
    }
    FilterNone(tasks, a, d);
  }

  lemma FilterCons(tasks: seq<Task>, x: nat, t: seq<nat>, d: int)
    requires x < |tasks| && InTable(tasks, t)
    ensures InTable(tasks, [x] + t)
    ensures Filter(tasks, [x] + t, d) == (if Deadline(tasks, x) == d then [x] else []) + Filter(tasks, t, d)
  {
    assert ([x] + t)[1..] == t;
  }

  /** A head no later than every element of `rest` keeps the sequence sorted. */
  lemma HeadBelow(tasks: seq<Task>, x: seq<nat>, y: seq<nat>, rest: seq<nat>)
    requires InTable(tasks, x) && InTable(tasks, y) && InTable(tasks, rest) && x != [] && y != []
    requires Sorted(tasks, x) && Sorted(tasks, y) && Sorted(tasks, rest)
    requires Deadline(tasks, x[0]) <= Deadline(tasks, y[0])
    requires multiset(rest) == multiset(x[1..]) + multiset(y) || multiset(rest) == multiset(x) + multiset(y[1..])
    ensures Sorted(tasks, [x[0]] + rest)
  {
    var r := [x[0]] + rest;
    forall k | 0 <= k < |rest| ensures Deadline(tasks, x[0]) <= Deadline(tasks, rest[k]) {
      var e := rest[k];
      assert e in multiset(rest);
      assert x == [x[0]] + x[1..];
      assert y == [y[0]] + y[1..];
      if e in x {
        var i :| 0 <= i < |x| && x[i] == e;
        assert i == 0 || Deadline(tasks, x[0]) <= Deadline(tasks, x[i]);
      } else {
        assert e in y;
        var i :| 0 <= i < |y| && y[i] == e;
        assert i == 0 || Deadline(tasks, y[0]) <= Deadline(tasks, y[i]);
      }
    }
    forall i, j | 0 <= i < j < |r| ensures Deadline(tasks, r[i]) <= Deadline(tasks, r[j]) {
      if i > 0 {
        assert r[i] == rest[i-1] && r[j] == rest[j-1];
      } else {
        assert r[j] == rest[j-1];
      }
    }
  }

  lemma {:induction false} FilterNone(tasks: seq<Task>, s: seq<nat>, d: int)
    requires InTable(tasks, s)
    requires forall k :: 0 <= k < |s| ==> Deadline(tasks, s[k]) != d
    ensures Filter(tasks, s, d) == []
  {
    if s != [] {
      FilterNone(tasks, s[1..], d);
    }
  }

  lemma {:induction false} FilterAppend(tasks: seq<Task>, a: seq<nat>, b: seq<nat>, d: int)
    requires InTable(tasks, a) && InTable(tasks, b)
    ensures InTable(tasks, a + b)
    ensures Filter(tasks, a + b, d) == Filter(tasks, a, d) + Filter(tasks, b, d)
  {
    if a == [] {
      assert a + b == b;
    } else {
      var t := a[1..];
      assert a + b == [a[0]] + (t + b);
      FilterAppend(tasks, t, b, d);
      FilterCons(tasks, a[0], t + b, d);
      var h := if Deadline(tasks, a[0]) == d then [a[0]] else [];
      assert Filter(tasks, a, d) == h + Filter(tasks, t, d);
      ConcatAssoc(h, Filter(tasks, t, d), Filter(tasks, b, d));
    }
  }

  /** The merge sort of moore.c on the index sequence s. */
  function Sort(tasks: seq<Task>, s: seq<nat>): (r: seq<nat>)
    requires InTable(tasks, s)
    ensures multiset(r) == multiset(s)
    ensures InTable(tasks, r)
    ensures Sorted(tasks, r)
    decreases |s|
  {
    if |s| < 2 then
      s
    else
      var mid := (|s| + 1) / 2;
      var left := Sort(tasks, s[..mid]);
      var right := Sort(tasks, s[mid..]);
      SplitMultiset(s, mid);
      MergeSorted(tasks, left, right);
      Merge(tasks, left, right)
  }

  lemma SplitMultiset(s: seq<nat>, mid: nat)
    requires mid <= |s|
    ensures multiset(s) == multiset(s[..mid]) + multiset(s[mid..])
  {
    assert s == s[..mid] + s[mid..];
  }

  /** The sort is stable: for every deadline, its entries keep their order in s. */
  lemma {:induction false} SortStable(tasks: seq<Task>, s: seq<nat>, d: int)
    requires InTable(tasks, s)
    ensures Filter(tasks, Sort(tasks, s), d) == Filter(tasks, s, d)
    decreases |s|
  {
    if |s| >= 2 {
      var mid := (|s| + 1) / 2;
      var left := Sort(tasks, s[..mid]);
      var right := Sort(tasks, s[mid..]);
      SortStable(tasks, s[..mid], d);
      SortStable(tasks, s[mid..], d);
      FilterSplit(tasks, s, mid, d);
      MergeStable(tasks, left, right, d);
      assert Sort(tasks, s) == Merge(tasks, left, right);
    }
  }

  lemma FilterSplit(tasks: seq<Task>, s: seq<nat>, mid: nat, d: int)
    requires InTable(tasks, s) && mid <= |s|
    ensures Filter(tasks, s, d) == Filter(tasks, s[..mid], d) + Filter(tasks, s[mid..], d)
  {
    assert s == s[..mid] + s[mid..];
    FilterAppend(tasks, s[..mid], s[mid..], d);
  }

  predicate StrictlyIncreasing(s: seq<nat>) {
    forall i, j :: 0 <= i < j < |s| ==> s[i] < s[j]
  }

  lemma {:induction false} FilterMembers(tasks: seq<Task>, s: seq<nat>, d: int)
    requires InTable(tasks, s)
    ensures forall x :: x in Filter(tasks, s, d) <==> x in s && Deadline(tasks, x) == d
  {
    if s != [] {
      FilterMembers(tasks, s[1..], d);
      assert s == [s[0]] + s[1..];
    }
  }

  /** Filtering keeps an increasing sequence increasing. */
  lemma {:induction false} FilterIncreasing(tasks: seq<Task>, s: seq<nat>, d: int)
    requires InTable(tasks, s) && StrictlyIncreasing(s)
    ensures StrictlyIncreasing(Filter(tasks, s, d))
  {
    if s != [] {
      var t := Filter(tasks, s[1..], d);
      FilterIncreasing(tasks, s[1..], d);
      FilterMembers(tasks, s[1..], d);
      forall k | 0 <= k < |t| ensures s[0] < t[k] {
        assert t[k] in s[1..];
        var i :| 0 <= i < |s[1..]| && s[1..][i] == t[k];
        assert s[i+1] == t[k];
      }
    }
  }

  /**
   * If the equal-deadline entries of s are increasing, then any two entries of
   * s with the same deadline appear in increasing order.
   */
  lemma {:induction false} FilterOrder(tasks: seq<Task>, s: seq<nat>, i: nat, j: nat)
    requires InTable(tasks, s) && i < j < |s| && Deadline(tasks, s[i]) == Deadline(tasks, s[j])
    requires StrictlyIncreasing(Filter(tasks, s, Deadline(tasks, s[i])))
    ensures s[i] < s[j]
  {
    var d := Deadline(tasks, s[i]);
    var t := Filter(tasks, s[1..], d);
    if i == 0 {
      FilterMembers(tasks, s[1..], d);
      assert s[j] == s[1..][j-1];
      assert s[j] in t;
      var k :| 0 <= k < |t| && t[k] == s[j];
      assert Filter(tasks, s, d) == [s[0]] + t;
      var f := Filter(tasks, s, d);
      assert f[0] == s[0] && f[k+1] == s[j];
      assert f[0] < f[k+1];
    } else {
      var f := Filter(tasks, s, d);
      assert StrictlyIncreasing(t) by {
        var h := if Deadline(tasks, s[0]) == d then [s[0]] else [];
        assert f == h + t;
        forall a, b | 0 <= a < b < |t| ensures t[a] < t[b] {
          assert t[a] == f[a + |h|] && t[b] == f[b + |h|];
        }
      }
      FilterOrder(tasks, s[1..], i - 1, j - 1);
    }
  }

  /**
   * Sorting the identity order by deadline puts tasks of equal deadline in
   * ascending index order.
   */
  lemma EqualDeadlinesByIndex(tasks: seq<Task>, r: seq<nat>)
    requires InTable(tasks, Range(|tasks|)) && r == Sort(tasks, Range(|tasks|))
    ensures forall i, j :: 0 <= i < j < |r| && Deadline(tasks, r[i]) == Deadline(tasks, r[j]) ==> r[i] < r[j]
  {
    var s := Range(|tasks|);
    forall i, j | 0 <= i < j < |r| && Deadline(tasks, r[i]) == Deadline(tasks, r[j]) ensures r[i] < r[j] {
      var d := Deadline(tasks, r[i]);
      SortStable(tasks, s, d);
      FilterIncreasing(tasks, s, d);
      FilterOrder(tasks, r, i, j);
    }
  }
}
