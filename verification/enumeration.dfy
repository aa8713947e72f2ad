/**
 * The permutation generator of the exact engine.
 *
 * The generator keeps one stack of candidate tasks per level. Entering a
 * level pushes every index not chosen at an earlier level, from n-1 down to
 * 0, so the top of the stack is the smallest unused index; popping tries the
 * next one. Level by level this is the recursion below: extend the chosen
 * prefix with each unused index in ascending order, and emit the prefix once
 * it holds all n indices.
 */
module Enumeration {
  import opened Tasks

  /** A prefix of some permutation of 0..n-1: distinct indices below n. */
  predicate Partial(prefix: seq<nat>, n: nat) {
    && |prefix| <= n
    && (forall i :: 0 <= i < |prefix| ==> prefix[i] < n)
    && Distinct(prefix)
  }

  /** Every completion of `prefix` to a permutation of 0..n-1, in generation order. */
  function Completions(n: nat, prefix: seq<nat>): (r: seq<seq<nat>>)
    requires Partial(prefix, n)
    ensures forall k :: 0 <= k < |r| ==> IsPermutation(r[k], n) && r[k][..|prefix|] == prefix
    decreases n - |prefix|, 1
  {
    if |prefix| == n then [prefix] else Candidates(n, prefix, 0)
  }

  /** The completions of `prefix` whose next index is c or larger. */
  function Candidates(n: nat, prefix: seq<nat>, c: nat): (r: seq<seq<nat>>)
    requires Partial(prefix, n) && |prefix| < n && c <= n
    ensures forall k :: 0 <= k < |r| ==>
              && IsPermutation(r[k], n)
              && r[k][..|prefix|] == prefix
              && c <= r[k][|prefix|]
    decreases n - |prefix|, 0, n - c
  {
    if c == n then []
    else
      var here := if c in prefix then [] else Extend(n, prefix, c);
      here + Candidates(n, prefix, c + 1)
  }

  /** The completions of `prefix` whose next index is c. */
  function Extend(n: nat, prefix: seq<nat>, c: nat): (r: seq<seq<nat>>)
    requires Partial(prefix, n) && |prefix| < n && c < n && c !in prefix
    ensures forall k :: 0 <= k < |r| ==>
              && IsPermutation(r[k], n)
              && r[k][..|prefix|] == prefix
              && r[k][|prefix|] == c
    decreases n - |prefix|, 0, 0
  {
    var next := prefix + [c];
    PartialExtend(n, prefix, c);
    var r := Completions(n, next);
    assert forall k :: 0 <= k < |r| ==> r[k][..|prefix|] == r[k][..|next|][..|prefix|];
    r
  }

  lemma PartialExtend(n: nat, prefix: seq<nat>, c: nat)
    requires Partial(prefix, n) && |prefix| < n && c < n && c !in prefix
    ensures Partial(prefix + [c], n)
  {
    var next := prefix + [c];
    forall i, j | 0 <= i < j < |next| ensures next[i] != next[j] {
      if j == |prefix| {
        assert next[i] == prefix[i];
      }
    }
  }

  /** All permutations of 0..n-1 in the order the generator emits them. */
  function AllPermutations(n: nat): (r: seq<seq<nat>>)
    ensures forall k :: 0 <= k < |r| ==> IsPermutation(r[k], n)
  {
    Completions(n, [])
  }

  /** a comes before b in lexicographic order. */
  predicate LexLess(a: seq<nat>, b: seq<nat>) {
    exists k :: 0 <= k < |a| && k < |b| && a[..k] == b[..k] && a[k] < b[k]
  }

  /** Each entry comes strictly before every later one. */
  predicate Increasing(ps: seq<seq<nat>>) {
    forall i, j :: 0 <= i < j < |ps| ==> LexLess(ps[i], ps[j])
  }

  lemma LexLessIrreflexive(a: seq<nat>)
    ensures !LexLess(a, a)
  {
  }

  lemma IncreasingConcat(xs: seq<seq<nat>>, ys: seq<seq<nat>>)
    requires Increasing(xs) && Increasing(ys)
    requires forall i, j :: 0 <= i < |xs| && 0 <= j < |ys| ==> LexLess(xs[i], ys[j])
    ensures Increasing(xs + ys)
  {
    var zs := xs + ys;
    forall i, j | 0 <= i < j < |zs| ensures LexLess(zs[i], zs[j]) {
      if j < |xs| {
        assert zs[i] == xs[i] && zs[j] == xs[j];
      } else if i >= |xs| {
        assert zs[i] == ys[i - |xs|] && zs[j] == ys[j - |xs|];
      } else {
        assert zs[i] == xs[i] && zs[j] == ys[j - |xs|];
      }
    }
  }

  /** Permutations come out in strictly increasing lexicographic order. */
  lemma {:induction false} CompletionsIncreasing(n: nat, prefix: seq<nat>)
    requires Partial(prefix, n)
    ensures Increasing(Completions(n, prefix))
    decreases n - |prefix|, 1
  {
    if |prefix| < n {
      CandidatesIncreasing(n, prefix, 0);
    }
  }

  lemma {:induction false} CandidatesIncreasing(n: nat, prefix: seq<nat>, c: nat)
    requires Partial(prefix, n) && |prefix| < n && c <= n
    ensures Increasing(Candidates(n, prefix, c))
    decreases n - |prefix|, 0, n - c
  {
    if c < n {
      CandidatesIncreasing(n, prefix, c + 1);
      var rest := Candidates(n, prefix, c + 1);
      if c in prefix {
        assert Candidates(n, prefix, c) == [] + rest;
      } else {
        var here := Extend(n, prefix, c);
        PartialExtend(n, prefix, c);
        CompletionsIncreasing(n, prefix + [c]);
        assert here == Completions(n, prefix + [c]);
        forall i, j | 0 <= i < |here| && 0 <= j < |rest| ensures LexLess(here[i], rest[j]) {
          ExtendBeforeCandidates(n, prefix, c, i, j);
        }
        IncreasingConcat(here, rest);
        assert Candidates(n, prefix, c) == here + rest;
      }
    }
  }

  /** The completions through index c come before those through any larger index. */
  lemma ExtendBeforeCandidates(n: nat, prefix: seq<nat>, c: nat, i: nat, j: nat)
    requires Partial(prefix, n) && |prefix| < n && c < n && c !in prefix
    requires i < |Extend(n, prefix, c)| && j < |Candidates(n, prefix, c + 1)|
    ensures LexLess(Extend(n, prefix, c)[i], Candidates(n, prefix, c + 1)[j])
  {
    var a := Extend(n, prefix, c)[i];
    var b := Candidates(n, prefix, c + 1)[j];
    var m := |prefix|;
    assert a[..m] == prefix == b[..m];
    assert a[m] == c < b[m];
  }

  /** Consequently no permutation is emitted twice. */
  lemma NoRepeats(n: nat)
    ensures forall i, j :: 0 <= i < j < |AllPermutations(n)| ==> AllPermutations(n)[i] != AllPermutations(n)[j]
  {
    CompletionsIncreasing(n, []);
    forall i, j | 0 <= i < j < |AllPermutations(n)| ensures AllPermutations(n)[i] != AllPermutations(n)[j] {
      LexLessIrreflexive(AllPermutations(n)[i]);
    }
  }

  /** Every permutation extending `prefix` is emitted. */
  lemma {:induction false} CompletionsComplete(n: nat, prefix: seq<nat>, q: seq<nat>)
    requires Partial(prefix, n) && IsPermutation(q, n) && q[..|prefix|] == prefix
    ensures q in Completions(n, prefix)
    decreases n - |prefix|, 1
  {
    if |prefix| == n {
      assert q == q[..|prefix|];
    } else {
      CandidatesComplete(n, prefix, 0, q);
    }
  }

  lemma {:induction false} CandidatesComplete(n: nat, prefix: seq<nat>, c: nat, q: seq<nat>)
    requires Partial(prefix, n) && |prefix| < n && c <= n
    requires IsPermutation(q, n) && q[..|prefix|] == prefix && c <= q[|prefix|]
    ensures q in Candidates(n, prefix, c)
    decreases n - |prefix|, 0, n - c
  {
    var m := |prefix|;
    if c == q[m] {
      assert c !in prefix by {
        forall i | 0 <= i < m ensures prefix[i] != c {
          assert prefix[i] == q[i];
        }
      }
      var next := prefix + [c];
      assert q[..m+1] == next;
      assert Partial(next, n) by {
        forall i, j | 0 <= i < j < |next| ensures next[i] != next[j] {
          assert next[i] == q[i] && next[j] == q[j];
        }
      }
      CompletionsComplete(n, next, q);
    } else {
      CandidatesComplete(n, prefix, c + 1, q);
    }
  }

  /** Every permutation of 0..n-1 is emitted. */
  lemma AllPermutationsComplete(n: nat, q: seq<nat>)
    requires IsPermutation(q, n)
    ensures q in AllPermutations(n)
  {
    CompletionsComplete(n, [], q);
  }

  /** Indices already in the prefix Range(k) are skipped. */
  lemma {:induction false} SkipChosen(n: nat, k: nat, c: nat)
    requires c <= k < n
    ensures Partial(Range(k), n)
    ensures Candidates(n, Range(k), c) == Candidates(n, Range(k), k)
    decreases k - c
  {
    var prefix := Range(k);
    assert Partial(prefix, n);
    if c < k {
      assert prefix[c] == c;
      assert c in prefix;
      assert Candidates(n, prefix, c) == [] + Candidates(n, prefix, c + 1);
      SkipChosen(n, k, c + 1);
    }
  }

  /** The first permutation emitted after choosing 0..k-1 is the identity. */
  lemma {:induction false} IdentityFirstFrom(n: nat, k: nat)
    requires k <= n
    ensures Partial(Range(k), n)
    ensures |Completions(n, Range(k))| > 0 && Completions(n, Range(k))[0] == Range(n)
    decreases n - k
  {
    if k < n {
      SkipChosen(n, k, 0);
      assert k !in Range(k);
      assert Range(k) + [k] == Range(k + 1);
      IdentityFirstFrom(n, k + 1);
    }
  }

  /** The generator starts with [0, 1, ..., n-1]. */
  lemma IdentityFirst(n: nat)
    ensures |AllPermutations(n)| > 0 && AllPermutations(n)[0] == Range(n)
  {
    IdentityFirstFrom(n, 0);
    assert Range(0) == [];
  }
}
