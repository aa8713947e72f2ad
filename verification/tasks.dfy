/**
 * The task table shared by both schedulers, and schedules over it.
 *
 * A task is the C `Task` record: an identifier, a processing length, a
 * weight charged when it finishes late, a deadline, and the flag saying
 * whether it belongs to the priority set S. C `int` fields are modelled as
 * unbounded integers. A schedule is a sequence of indices into the table.
 */
module Tasks {

  datatype Task = Task(id: int, length: int, weight: int, deadline: int, inS: bool)

  /** The table as the loaders build it: task i carries identifier i. */
  predicate WellFormed(tasks: seq<Task>) {
    forall i :: 0 <= i < |tasks| ==> tasks[i].id == i
  }

  /** Every entry of `p` indexes a task of the table. */
  predicate InTable(tasks: seq<Task>, p: seq<nat>) {
    forall i :: 0 <= i < |p| ==> p[i] < |tasks|
  }

  /** The identity schedule [0, 1, ..., n-1]. */
  function Range(n: nat): (r: seq<nat>)
    ensures |r| == n
    ensures forall i :: 0 <= i < n ==> r[i] == i
  {
    seq(n, i => i)
  }

  predicate Distinct(p: seq<nat>) {
    forall i, j :: 0 <= i < j < |p| ==> p[i] != p[j]
  }

  /** `p` lists every index 0..n-1 exactly once. */
  predicate IsPermutation(p: seq<nat>, n: nat) {
    && |p| == n
    && (forall i :: 0 <= i < |p| ==> p[i] < n)
    && Distinct(p)
  }

  lemma RangeIsPermutation(n: nat)
    ensures IsPermutation(Range(n), n)
  {
  }

  /** A value occurring twice in a sequence has multiplicity at least two. */
  lemma {:induction false} RepeatedMultiplicity(p: seq<nat>, i: nat, j: nat)
    requires i < j < |p| && p[i] == p[j]
    ensures multiset(p)[p[i]] >= 2
  {
    var x := p[i];
    assert p == p[..i] + [x] + p[i+1..j] + [x] + p[j+1..];
    assert multiset(p) == multiset(p[..i]) + multiset{x} + multiset(p[i+1..j]) + multiset{x} + multiset(p[j+1..]);
  }

  /** In a distinct sequence every value has multiplicity at most one. */
  lemma {:induction false} DistinctMultiplicity(p: seq<nat>, x: nat)
    requires Distinct(p)
    ensures multiset(p)[x] <= 1
  {
    if p != [] {
      var t := p[1..];
      assert p == [p[0]] + t;
      assert Distinct(t) by {
        forall i, j | 0 <= i < j < |t| ensures t[i] != t[j] {
          assert t[i] == p[i+1] && t[j] == p[j+1];
        }
      }
      DistinctMultiplicity(t, x);
      if x == p[0] {
        forall k | 0 <= k < |t| ensures t[k] != x {
          assert t[k] == p[k+1];
        }
        assert x !in t;
      }
    }
  }

  /** A rearrangement of 0..n-1 (as a multiset) is a permutation. */
  lemma MultisetPermutation(p: seq<nat>, n: nat)
    requires multiset(p) == multiset(Range(n))
    ensures IsPermutation(p, n)
  {
    calc {
      |p|;
    ==  { assert |multiset(p)| == |p|; }
      |multiset(Range(n))|;
    ==
      n;
    }
    forall i | 0 <= i < |p| ensures p[i] < n {
      assert p[i] in multiset(p);
      assert p[i] in multiset(Range(n));
    }
    forall i, j | 0 <= i < j < |p| ensures p[i] != p[j] {
      if p[i] == p[j] {
        RepeatedMultiplicity(p, i, j);
        RangeIsPermutation(n);
        DistinctMultiplicity(Range(n), p[i]);
        assert false;
      }
    }
  }

  /** The converse: a permutation of 0..n-1 has the multiset of 0..n-1. */
  lemma {:induction false} PermutationMultiset(p: seq<nat>, n: nat)
    requires IsPermutation(p, n)
    ensures multiset(p) == multiset(Range(n))
  {
    if n > 0 {
      // Take out the occurrence of n-1 and recurse on the rest.
      var top: nat := n - 1;
      PigeonholeTop(p, n);
      var k :| 0 <= k < |p| && p[k] == top;
      var q := RemoveAt(p, k);
      RemoveTopIsPermutation(p, n, k);
      PermutationMultiset(q, top);
      MultisetRemove(p, k);
      assert Range(n) == Range(top) + [top];
      assert multiset(Range(n)) == multiset(Range(top)) + multiset{top};
    }
  }

  function RemoveAt(p: seq<nat>, k: nat): (q: seq<nat>)
    requires k < |p|
    ensures |q| == |p| - 1
    ensures forall i :: 0 <= i < k ==> q[i] == p[i]
    ensures forall i :: k <= i < |q| ==> q[i] == p[i + 1]
  {
    p[..k] + p[k+1..]
  }

  lemma MultisetRemove(p: seq<nat>, k: nat)
    requires k < |p|
    ensures multiset(p) == multiset(RemoveAt(p, k)) + multiset{p[k]}
  {
    assert p == p[..k] + [p[k]] + p[k+1..];
  }

  lemma RemoveTopIsPermutation(p: seq<nat>, n: nat, k: nat)
    requires IsPermutation(p, n) && k < |p| && p[k] == n - 1
    ensures IsPermutation(RemoveAt(p, k), n - 1)
  {
    var q := RemoveAt(p, k);
    forall i | 0 <= i < |q| ensures q[i] < n - 1 {
      var pi := if i < k then i else i + 1;
      assert q[i] == p[pi] && pi != k;
    }
    forall i, j | 0 <= i < j < |q| ensures q[i] != q[j] {
      var pi := if i < k then i else i + 1;
      var pj := if j < k then j else j + 1;
      assert q[i] == p[pi] && q[j] == p[pj] && pi < pj;
    }
  }

  /** The set of values occurring in `p`. */
  function Values(p: seq<nat>): set<nat> {
    set i | 0 <= i < |p| :: p[i]
  }

  /** A permutation of 0..n-1 (n > 0) contains n-1. */
  lemma PigeonholeTop(p: seq<nat>, n: nat)
    requires IsPermutation(p, n) && n > 0
    ensures n - 1 in p
  {
    if n - 1 !in p {
      // p would inject n positions into the n-1 values 0..n-2.
      var small := Range(n - 1);
      assert Values(p) <= Values(small) by {
        forall i | 0 <= i < |p| ensures p[i] in Values(small) {
          assert p[i] != n - 1;
          assert small[p[i]] == p[i];
        }
      }
      InjectiveImage(p);
      InjectiveImage(small);
      SubsetCard(Values(p), Values(small));
      assert false;
    }
  }

  /** The values of a distinct sequence are as many as its positions. */
  lemma {:induction false} InjectiveImage(p: seq<nat>)
    requires Distinct(p)
    ensures |Values(p)| == |p|
  {
    if p != [] {
      var t := p[..|p|-1];
      assert Distinct(t);
      InjectiveImage(t);
      var last := p[|p|-1];
      assert Values(p) == Values(t) + {last} by {
        forall i | 0 <= i < |t| ensures t[i] == p[i] { }
      }
      assert last !in Values(t) by {
        forall i | 0 <= i < |t| ensures t[i] != last {
          assert t[i] == p[i];
        }
      }
    }
  }

  lemma SubsetCard<T>(a: set<T>, b: set<T>)
    requires a <= b
    ensures |a| <= |b|
  {
    assert b == a + (b - a);
  }

  lemma ConcatAssoc<T>(a: seq<T>, b: seq<T>, c: seq<T>)
    ensures (a + b) + c == a + (b + c)
  {
  }
}
