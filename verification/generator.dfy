/**
 * The stack machine inside generate_permutations.
 *
 * Level l (1 <= l <= n) holds a stack of candidate indices for position
 * l - 1 of the permutation; level 0 is a dummy holding one entry, and the
 * machine runs until that entry is popped. `stacks[l]` lists the stack of
 * level l from the bottom up, so its last entry is the current top, and
 * the number of levels in use is `move` + 1. Entering level l pushes every
 * index not on top of a lower level, from n-1 down to 0, so the top is the
 * smallest unused index; leaving a level pops the top of the level below,
 * which moves that level on to its next candidate.
 *
 * The definitions here describe what is still to be emitted from a machine
 * state (`Pending`), in terms of the recursive enumeration.
 */
module Generator {
  import opened Tasks
  import opened Enumeration

  function Last(s: seq<nat>): nat
    requires s != []
  {
    s[|s| - 1]
  }

  function Pop(s: seq<nat>): (r: seq<nat>)
    requires s != []
    ensures |r| == |s| - 1 && forall k :: 0 <= k < |r| ==> r[k] == s[k]
  {
    s[..|s| - 1]
  }

  /** The top of every stack of ss, level by level. */
  function Tops(ss: seq<seq<nat>>): (r: seq<nat>)
    requires forall l :: 0 <= l < |ss| ==> ss[l] != []
    ensures |r| == |ss| && forall l :: 0 <= l < |ss| ==> r[l] == Last(ss[l])
  {
    seq(|ss|, l requires 0 <= l < |ss| => Last(ss[l]))
  }

  lemma TopsExtend(ss: seq<seq<nat>>, a: nat, b: nat)
    requires a <= b < |ss| && forall l :: a <= l <= b ==> ss[l] != []
    ensures Tops(ss[a..b+1]) == Tops(ss[a..b]) + [Last(ss[b])]
  {
    var x := Tops(ss[a..b+1]);
    var y := Tops(ss[a..b]) + [Last(ss[b])];
    assert |x| == |y|;
    forall k | 0 <= k < |x| ensures x[k] == y[k] {
      assert ss[a..b+1][k] == ss[a + k];
      if k < b - a {
        assert ss[a..b][k] == ss[a + k];
      }
    }
  }

  /**
   * The stack a level receives when entered with `prefix` on top of the
   * levels below: the indices c..n-1 missing from `prefix`, largest first.
   */
  function Desc(n: nat, prefix: seq<nat>, c: nat): (r: seq<nat>)
    requires c <= n
    ensures |r| <= n - c
    ensures forall k :: 0 <= k < |r| ==> c <= r[k] < n && r[k] !in prefix
    decreases n - c
  {
    if c == n then [] else Desc(n, prefix, c + 1) + (if c in prefix then [] else [c])
  }

  /** a is a bottom part of b. */
  predicate BottomOf(a: seq<nat>, b: seq<nat>) {
    |a| <= |b| && a == b[..|a|]
  }

  /**
   * The shape every reachable state has: at most n + 2 levels, a dummy level
   * of at most one entry, every level below the current one non-empty, level
   * n + 1 always empty, and every other level a bottom part of the stack it
   * received.
   */
  predicate Machine(n: nat, stacks: seq<seq<nat>>) {
    && 1 <= |stacks| <= n + 2
    && |stacks[0]| <= 1
    && (forall l :: 0 <= l < |stacks| - 1 ==> stacks[l] != [])
    && (|stacks| == n + 2 ==> stacks[n + 1] == [])
    && forall l :: 1 <= l < |stacks| && l <= n ==> LevelOk(n, stacks, l)
  }

  /** Level l holds a bottom part of the stack it received when it was entered. */
  predicate LevelOk(n: nat, stacks: seq<seq<nat>>, l: nat)
    requires 1 <= l < |stacks| && forall k :: 1 <= k < l ==> stacks[k] != []
  {
    BottomOf(stacks[l], Desc(n, Tops(stacks[1..l]), 0))
  }

  /** The levels 0..k-1 of a machine state form a machine state. */
  lemma MachinePrefix(n: nat, stacks: seq<seq<nat>>, k: nat)
    requires Machine(n, stacks) && 1 <= k <= |stacks|
    requires forall l :: 0 <= l < k ==> stacks[l] != []
    ensures Machine(n, stacks[..k])
  {
    var ss := stacks[..k];
    forall l | 1 <= l < |ss| && l <= n ensures LevelOk(n, ss, l) {
      assert ss[1..l] == stacks[1..l];
      assert LevelOk(n, stacks, l);
    }
  }

  /** Every entry of the stack is an index below n missing from the prefix. */
  predicate Entries(n: nat, prefix: seq<nat>, stack: seq<nat>) {
    forall k :: 0 <= k < |stack| ==> stack[k] < n && stack[k] !in prefix
  }

  /** The tops of levels 1..l are distinct indices below n. */
  lemma {:induction false} MachinePartial(n: nat, stacks: seq<seq<nat>>, l: nat)
    requires Machine(n, stacks) && l < |stacks| && l <= n
    requires forall k :: 1 <= k <= l ==> stacks[k] != []
    ensures Partial(Tops(stacks[1..l+1]), n)
    ensures l + 1 < |stacks| && l + 1 <= n ==> Entries(n, Tops(stacks[1..l+1]), stacks[l+1])
  {
    if l + 1 < |stacks| && l + 1 <= n {
      assert LevelOk(n, stacks, l + 1);
    }
    if l > 0 {
      MachinePartial(n, stacks, l - 1);
      var below := Tops(stacks[1..l]);
      var top := Last(stacks[l]);
      assert LevelOk(n, stacks, l);
      assert top in stacks[l];
      assert top < n && top !in below;
      PartialExtend(n, below, top);
      TopsExtend(stacks, 1, l);
    }
  }

  /** What a stack still yields: the completions of `prefix` through each entry, top first. */
  function Expand(n: nat, prefix: seq<nat>, stack: seq<nat>): seq<seq<nat>>
    requires Partial(prefix, n) && |prefix| < n
    requires forall k :: 0 <= k < |stack| ==> stack[k] < n && stack[k] !in prefix
    decreases |stack|
  {
    if stack == [] then [] else Extend(n, prefix, Last(stack)) + Expand(n, prefix, Pop(stack))
  }

  /** The full stack a level receives yields exactly the completions of its prefix. */
  lemma {:induction false} DescExpand(n: nat, prefix: seq<nat>, c: nat)
    requires Partial(prefix, n) && |prefix| < n && c <= n
    ensures Expand(n, prefix, Desc(n, prefix, c)) == Candidates(n, prefix, c)
    decreases n - c
  {
    if c < n {
      DescExpand(n, prefix, c + 1);
      ExpandDescStep(n, prefix, c);
    }
  }

  /** The stack received from index c on yields c's completions first, then those of larger indices. */
  lemma ExpandDescStep(n: nat, prefix: seq<nat>, c: nat)
    requires Partial(prefix, n) && |prefix| < n && c < n
    ensures Expand(n, prefix, Desc(n, prefix, c))
            == (if c in prefix then [] else Extend(n, prefix, c)) + Expand(n, prefix, Desc(n, prefix, c + 1))
  {
    var d := Desc(n, prefix, c);
    var d1 := Desc(n, prefix, c + 1);
    if c in prefix {
      assert d == d1;
    } else {
      assert d == d1 + [c];
      assert Last(d) == c && Pop(d) == d1;
    }
  }

  /**
   * What the levels below the current one still yield: each level's stack
   * without its top (the top is being explored by the levels above).
   */
  function Rest(n: nat, ss: seq<seq<nat>>): seq<seq<nat>>
    requires Machine(n, ss) && |ss| <= n + 1
    requires forall l :: 0 <= l < |ss| ==> ss[l] != []
    decreases |ss|
  {
    var l := |ss| - 1;
    if l == 0 then []
    else
      MachinePartial(n, ss, l - 1);
      MachinePrefix(n, ss, l);
      Expand(n, Tops(ss[1..l]), Pop(ss[l])) + Rest(n, ss[..l])
  }

  lemma RestStep(n: nat, ss: seq<seq<nat>>)
    requires Machine(n, ss) && 2 <= |ss| <= n + 1
    requires forall l :: 0 <= l < |ss| ==> ss[l] != []
    ensures Partial(Tops(ss[1..|ss|-1]), n) && Machine(n, ss[..|ss|-1])
    ensures Entries(n, Tops(ss[1..|ss|-1]), ss[|ss|-1])
    ensures Rest(n, ss) == Expand(n, Tops(ss[1..|ss|-1]), Pop(ss[|ss|-1])) + Rest(n, ss[..|ss|-1])
  {
    MachinePartial(n, ss, |ss| - 2);
    MachinePrefix(n, ss, |ss| - 1);
  }

  /** Everything the machine will still emit from this state, in order. */
  function Pending(n: nat, stacks: seq<seq<nat>>): seq<seq<nat>>
    requires Machine(n, stacks)
  {
    var m := |stacks| - 1;
    if m == 0 then
      if stacks[0] == [] then [] else Completions(n, [])
    else
      MachinePrefix(n, stacks, m);
      if m == n + 1 then
        Rest(n, stacks[..m])
      else
        MachinePartial(n, stacks, m - 1);
        Expand(n, Tops(stacks[1..m]), stacks[m]) + Rest(n, stacks[..m])
  }

  /** Pending at a level 1..n: the current stack's yield, then the levels below. */
  lemma PendingLevel(n: nat, stacks: seq<seq<nat>>)
    requires Machine(n, stacks) && 1 <= |stacks| - 1 <= n
    ensures var m := |stacks| - 1;
      && Partial(Tops(stacks[1..m]), n) && Machine(n, stacks[..m])
      && Entries(n, Tops(stacks[1..m]), stacks[m])
      && Pending(n, stacks) == Expand(n, Tops(stacks[1..m]), stacks[m]) + Rest(n, stacks[..m])
  {
    var m := |stacks| - 1;
    MachinePrefix(n, stacks, m);
    MachinePartial(n, stacks, m - 1);
  }

  /** PendingLevel with the pieces named by the caller. */
  lemma PendingAt(n: nat, stacks: seq<seq<nat>>, below: seq<seq<nat>>, prefix: seq<nat>, top: seq<nat>)
    requires Machine(n, stacks) && 1 <= |stacks| - 1 <= n
    requires below == stacks[..|stacks| - 1] && top == stacks[|stacks| - 1]
    requires forall l :: 1 <= l < |stacks| - 1 ==> stacks[l] != []
    requires prefix == Tops(stacks[1..|stacks| - 1])
    ensures && Partial(prefix, n) && |prefix| < n && Machine(n, below)
            && (forall k :: 0 <= k < |top| ==> top[k] < n && top[k] !in prefix)
            && (forall l :: 0 <= l < |below| ==> below[l] != [])
            && |below| <= n + 1
    ensures Pending(n, stacks) == Expand(n, prefix, top) + Rest(n, below)
  {
    PendingLevel(n, stacks);
  }

  /** Secondary measure: climbing while the current stack has entries, descending once it is empty. */
  function Phase(n: nat, stacks: seq<seq<nat>>): nat
    requires 1 <= |stacks| <= n + 2
  {
    var m := |stacks| - 1;
    if stacks[m] != [] then n + 2 - m else n + 2 + m
  }

  lemma {:induction false} DescEmpty(n: nat, prefix: seq<nat>, c: nat)
    requires c <= n && Desc(n, prefix, c) == []
    ensures forall v :: c <= v < n ==> v in prefix
    decreases n - c
  {
    if c < n {
      DescEmpty(n, prefix, c + 1);
    }
  }

  /** A level entered with fewer than n indices chosen below it receives a candidate. */
  lemma DescNonEmpty(n: nat, prefix: seq<nat>)
    requires Partial(prefix, n) && |prefix| < n
    ensures Desc(n, prefix, 0) != []
  {
    if Desc(n, prefix, 0) == [] {
      DescEmpty(n, prefix, 0);
      var all := Range(n);
      assert Values(all) <= Values(prefix) by {
        forall k | 0 <= k < n ensures all[k] in Values(prefix) {
          assert all[k] in prefix;
        }
      }
      InjectiveImage(prefix);
      InjectiveImage(all);
      SubsetCard(Values(all), Values(prefix));
      assert false;
    }
  }

  /** The state before the first step: only the dummy level, holding one entry. */
  lemma Initial(n: nat)
    ensures Machine(n, [[0]])
    ensures Pending(n, [[0]]) == AllPermutations(n)
  {
  }

  /** Once the dummy entry is popped nothing is left to emit. */
  lemma Final(n: nat, stacks: seq<seq<nat>>)
    requires Machine(n, stacks) && stacks[0] == []
    ensures |stacks| == 1 && Pending(n, stacks) == []
  {
  }

  /**
   * Entering level m + 1 <= n from a level whose stack is not empty pushes a
   * non-empty stack and keeps the machine's shape.
   */
  lemma PushShape(n: nat, stacks: seq<seq<nat>>)
    requires Machine(n, stacks) && |stacks| - 1 < n && stacks[|stacks| - 1] != []
    ensures var m := |stacks| - 1;
      Partial(Tops(stacks[1..m+1]), n) && |Tops(stacks[1..m+1])| < n
    ensures var m := |stacks| - 1;
      && Desc(n, Tops(stacks[1..m+1]), 0) != []
      && Machine(n, stacks + [Desc(n, Tops(stacks[1..m+1]), 0)])
  {
    var m := |stacks| - 1;
    MachinePartial(n, stacks, m);
    var P := Tops(stacks[1..m+1]);
    var next := stacks + [Desc(n, P, 0)];
    DescNonEmpty(n, P);
    assert forall l :: 0 <= l < |next| ==> next[l] != [] by {
      forall l | 0 <= l < |next| ensures next[l] != [] {
        if l <= m {
          assert next[l] == stacks[l];
        }
      }
    }
    forall l | 1 <= l < |next| && l <= n ensures LevelOk(n, next, l) {
      if l == m + 1 {
        assert next[1..l] == stacks[1..m+1];
      } else {
        assert next[1..l] == stacks[1..l];
        assert next[l] == stacks[l];
        assert LevelOk(n, stacks, l);
      }
    }
  }

  /** ... and leaves what remains to be emitted unchanged. */
  lemma PushStep(n: nat, stacks: seq<seq<nat>>)
    requires Machine(n, stacks) && |stacks| - 1 < n && stacks[|stacks| - 1] != []
    ensures var m := |stacks| - 1;
      && Partial(Tops(stacks[1..m+1]), n) && |Tops(stacks[1..m+1])| < n
      && Desc(n, Tops(stacks[1..m+1]), 0) != []
      && Machine(n, stacks + [Desc(n, Tops(stacks[1..m+1]), 0)])
      && Pending(n, stacks + [Desc(n, Tops(stacks[1..m+1]), 0)]) == Pending(n, stacks)
  {
    var m := |stacks| - 1;
    PushShape(n, stacks);
    var P := Tops(stacks[1..m+1]);
    PushPendingNext(n, stacks);
    PushPendingNow(n, stacks);
  }

  lemma PushPendingNext(n: nat, stacks: seq<seq<nat>>)
    requires Machine(n, stacks) && |stacks| - 1 < n && stacks[|stacks| - 1] != []
    ensures var m := |stacks| - 1;
      && Partial(Tops(stacks[1..m+1]), n) && |Tops(stacks[1..m+1])| < n
      && Machine(n, stacks + [Desc(n, Tops(stacks[1..m+1]), 0)])
      && Pending(n, stacks + [Desc(n, Tops(stacks[1..m+1]), 0)])
         == Candidates(n, Tops(stacks[1..m+1]), 0) + Rest(n, stacks)
  {
    var m := |stacks| - 1;
    PushShape(n, stacks);
    var P := Tops(stacks[1..m+1]);
    var next := stacks + [Desc(n, P, 0)];
    DescExpand(n, P, 0);
    AppendSlices(stacks, Desc(n, P, 0));
    PendingAt(n, next, stacks, P, Desc(n, P, 0));
  }

  lemma AppendSlices(s: seq<seq<nat>>, x: seq<nat>)
    requires s != []
    ensures (s + [x])[..|s|] == s && (s + [x])[1..|s|] == s[1..|s|] && (s + [x])[|s|] == x
  {
  }

  lemma PushPendingNow(n: nat, stacks: seq<seq<nat>>)
    requires Machine(n, stacks) && |stacks| - 1 < n && stacks[|stacks| - 1] != []
    ensures var m := |stacks| - 1;
      && Partial(Tops(stacks[1..m+1]), n) && |Tops(stacks[1..m+1])| < n
      && Pending(n, stacks) == Candidates(n, Tops(stacks[1..m+1]), 0) + Rest(n, stacks)
  {
    var m := |stacks| - 1;
    MachinePartial(n, stacks, m);
    MachinePrefix(n, stacks, m + 1);
    assert stacks[..m+1] == stacks;
    if m == 0 {
      assert Tops(stacks[1..m+1]) == [];
    } else {
      PushPendingLevel(n, stacks);
    }
  }

  lemma PushPendingLevel(n: nat, stacks: seq<seq<nat>>)
    requires Machine(n, stacks) && 1 <= |stacks| - 1 < n && stacks[|stacks| - 1] != []
    ensures var m := |stacks| - 1;
      && Partial(Tops(stacks[1..m+1]), n) && |Tops(stacks[1..m+1])| < n
      && Pending(n, stacks) == Candidates(n, Tops(stacks[1..m+1]), 0) + Rest(n, stacks)
  {
    var m := |stacks| - 1;
    assert forall l :: 0 <= l < |stacks| ==> stacks[l] != [];
    MachinePartial(n, stacks, m);
    PendingLevel(n, stacks);
    RestStep(n, stacks);
    ExpandTop(n, stacks);
    Regroup(Pending(n, stacks), Candidates(n, Tops(stacks[1..m+1]), 0), Expand(n, Tops(stacks[1..m]), Pop(stacks[m])),
            Rest(n, stacks[..m]), Rest(n, stacks));
  }

  /** x is a + t followed by b, and y is t + b: so x is a followed by y. */
  lemma Regroup<T>(x: seq<T>, a: seq<T>, t: seq<T>, b: seq<T>, y: seq<T>)
    requires x == (a + t) + b && y == t + b
    ensures x == a + y
  {
    ConcatAssoc(a, t, b);
  }

  /** The current stack yields the completions through its top, then those of the entries below. */
  lemma ExpandTop(n: nat, stacks: seq<seq<nat>>)
    requires Machine(n, stacks) && 1 <= |stacks| - 1 < n && stacks[|stacks| - 1] != []
    ensures var m := |stacks| - 1;
      && Partial(Tops(stacks[1..m]), n) && Partial(Tops(stacks[1..m+1]), n) && |Tops(stacks[1..m+1])| < n
      && Entries(n, Tops(stacks[1..m]), stacks[m])
      && Expand(n, Tops(stacks[1..m]), stacks[m])
         == Candidates(n, Tops(stacks[1..m+1]), 0) + Expand(n, Tops(stacks[1..m]), Pop(stacks[m]))
  {
    var m := |stacks| - 1;
    MachinePartial(n, stacks, m);
    MachinePartial(n, stacks, m - 1);
    var Q := Tops(stacks[1..m]);
    var top := Last(stacks[m]);
    TopsExtend(stacks, 1, m);
    assert Extend(n, Q, top) == Candidates(n, Q + [top], 0);
  }

  /** Pending with level n + 1 in use: only the levels below remain. */
  lemma PendingTop(n: nat, stacks: seq<seq<nat>>)
    requires Machine(n, stacks) && |stacks| == n + 2
    ensures Machine(n, stacks[..n+1]) && Pending(n, stacks) == Rest(n, stacks[..n+1])
  {
    MachinePrefix(n, stacks, n + 1);
  }

  /** At level n the top completes a permutation, which is emitted at once. */
  lemma ExpandLast(n: nat, stacks: seq<seq<nat>>)
    requires Machine(n, stacks) && |stacks| == n + 1 && n >= 1 && stacks[n] != []
    ensures && Partial(Tops(stacks[1..n]), n) && Partial(Tops(stacks[1..n+1]), n)
            && Entries(n, Tops(stacks[1..n]), stacks[n])
            && Expand(n, Tops(stacks[1..n]), stacks[n])
               == [Tops(stacks[1..n+1])] + Expand(n, Tops(stacks[1..n]), Pop(stacks[n]))
  {
    MachinePartial(n, stacks, n);
    MachinePartial(n, stacks, n - 1);
    var Q := Tops(stacks[1..n]);
    var top := Last(stacks[n]);
    TopsExtend(stacks, 1, n);
    assert Extend(n, Q, top) == [Q + [top]];
  }

  /** Entering level n + 1 keeps the machine's shape. */
  lemma EmitShape(n: nat, stacks: seq<seq<nat>>)
    requires Machine(n, stacks) && |stacks| == n + 1 && stacks[n] != []
    ensures IsPermutation(Tops(stacks[1..n+1]), n)
    ensures Machine(n, stacks + [[]])
  {
    MachinePartial(n, stacks, n);
    var next := stacks + [[]];
    assert forall l :: 0 <= l < |next| - 1 ==> next[l] != [] by {
      forall l | 0 <= l < |next| - 1 ensures next[l] != [] {
        assert next[l] == stacks[l];
      }
    }
    forall l | 1 <= l < |next| && l <= n ensures LevelOk(n, next, l) {
      assert next[1..l] == stacks[1..l];
      assert next[l] == stacks[l];
      assert LevelOk(n, stacks, l);
    }
  }

  /**
   * Entering level n + 1 emits the permutation formed by the tops of levels
   * 1..n; it is the next one pending.
   */
  lemma EmitStep(n: nat, stacks: seq<seq<nat>>)
    requires Machine(n, stacks) && |stacks| == n + 1 && stacks[n] != []
    ensures IsPermutation(Tops(stacks[1..n+1]), n)
    ensures Machine(n, stacks + [[]])
    ensures Pending(n, stacks) == [Tops(stacks[1..n+1])] + Pending(n, stacks + [[]])
  {
    EmitShape(n, stacks);
    var next := stacks + [[]];
    PendingTop(n, next);
    assert next[..n+1] == stacks;
    EmitPending(n, stacks);
  }

  /** What is pending at level n: the permutation on top, then the rest. */
  lemma EmitPending(n: nat, stacks: seq<seq<nat>>)
    requires Machine(n, stacks) && |stacks| == n + 1 && stacks[n] != []
    ensures Pending(n, stacks) == [Tops(stacks[1..n+1])] + Rest(n, stacks)
  {
    if n == 0 {
      assert Tops(stacks[1..1]) == [];
    } else {
      EmitPendingLevel(n, stacks);
    }
  }

  lemma EmitPendingLevel(n: nat, stacks: seq<seq<nat>>)
    requires Machine(n, stacks) && |stacks| == n + 1 && n >= 1 && stacks[n] != []
    ensures Pending(n, stacks) == [Tops(stacks[1..n+1])] + Rest(n, stacks)
  {
    assert forall l :: 0 <= l < |stacks| ==> stacks[l] != [];
    PendingLevel(n, stacks);
    RestStep(n, stacks);
    ExpandLast(n, stacks);
    Regroup(Pending(n, stacks), [Tops(stacks[1..n+1])], Expand(n, Tops(stacks[1..n]), Pop(stacks[n])),
            Rest(n, stacks[..n]), Rest(n, stacks));
  }

  /** Leaving an empty level pops the top of the level below and keeps the machine's shape. */
  lemma PopShape(n: nat, stacks: seq<seq<nat>>)
    requires Machine(n, stacks) && |stacks| >= 2 && stacks[|stacks| - 1] == []
    ensures var m := |stacks| - 1;
      Machine(n, stacks[..m-1] + [Pop(stacks[m-1])])
  {
    var m := |stacks| - 1;
    var next := stacks[..m-1] + [Pop(stacks[m-1])];
    forall l | 1 <= l < |next| && l <= n ensures LevelOk(n, next, l) {
      assert next[1..l] == stacks[1..l];
      if l < m - 1 {
        assert next[l] == stacks[l];
        assert LevelOk(n, stacks, l);
      } else {
        assert next[l] == Pop(stacks[l]);
        assert LevelOk(n, stacks, l);
      }
    }
  }

  /** ... and leaves what remains to be emitted unchanged. */
  lemma PopStep(n: nat, stacks: seq<seq<nat>>)
    requires Machine(n, stacks) && |stacks| >= 2 && stacks[|stacks| - 1] == []
    ensures var m := |stacks| - 1;
      && Machine(n, stacks[..m-1] + [Pop(stacks[m-1])])
      && Pending(n, stacks[..m-1] + [Pop(stacks[m-1])]) == Pending(n, stacks)
  {
    var m := |stacks| - 1;
    var below := stacks[..m];
    var next := stacks[..m-1] + [Pop(stacks[m-1])];
    PopShape(n, stacks);
    PopPendingNow(n, stacks, below);
    PopPendingNext(n, stacks, below, next);
  }

  /** The levels under an empty current level: a machine state with every level non-empty. */
  lemma BelowEmpty(n: nat, stacks: seq<seq<nat>>, below: seq<seq<nat>>)
    requires Machine(n, stacks) && |stacks| >= 2 && stacks[|stacks| - 1] == []
    requires below == stacks[..|stacks| - 1]
    ensures Machine(n, below) && |below| <= n + 1 && forall l :: 0 <= l < |below| ==> below[l] != []
  {
    MachinePrefix(n, stacks, |stacks| - 1);
  }

  /** With the current level empty, only what the levels below still yield is pending. */
  lemma PopPendingNow(n: nat, stacks: seq<seq<nat>>, below: seq<seq<nat>>)
    requires Machine(n, stacks) && |stacks| >= 2 && stacks[|stacks| - 1] == []
    requires below == stacks[..|stacks| - 1]
    ensures Machine(n, below) && |below| <= n + 1 && forall l :: 0 <= l < |below| ==> below[l] != []
    ensures Pending(n, stacks) == Rest(n, below)
  {
    var m := |stacks| - 1;
    BelowEmpty(n, stacks, below);
    if m == n + 1 {
      PendingTop(n, stacks);
    } else {
      PendingAt(n, stacks, below, Tops(stacks[1..m]), []);
    }
  }

  /** After the pop, the same is pending. */
  lemma PopPendingNext(n: nat, stacks: seq<seq<nat>>, below: seq<seq<nat>>, next: seq<seq<nat>>)
    requires Machine(n, stacks) && |stacks| >= 2 && stacks[|stacks| - 1] == []
    requires below == stacks[..|stacks| - 1]
    requires next == stacks[..|stacks| - 2] + [Pop(stacks[|stacks| - 2])]
    ensures Machine(n, below) && |below| <= n + 1 && forall l :: 0 <= l < |below| ==> below[l] != []
    ensures Machine(n, next)
    ensures Pending(n, next) == Rest(n, below)
  {
    PopShape(n, stacks);
    BelowEmpty(n, stacks, below);
    if |stacks| >= 3 {
      PopPendingLevel(n, stacks, below, next);
    } else {
      assert next == [[]];
    }
  }

  lemma PopPendingLevel(n: nat, stacks: seq<seq<nat>>, below: seq<seq<nat>>, next: seq<seq<nat>>)
    requires Machine(n, stacks) && |stacks| >= 3 && stacks[|stacks| - 1] == []
    requires below == stacks[..|stacks| - 1]
    requires next == stacks[..|stacks| - 2] + [Pop(stacks[|stacks| - 2])]
    requires Machine(n, below) && |below| <= n + 1 && forall l :: 0 <= l < |below| ==> below[l] != []
    requires Machine(n, next)
    ensures Pending(n, next) == Rest(n, below)
  {
    var m := |stacks| - 1;
    PopSlices(stacks, below, next);
    RestStep(n, below);
    PendingAt(n, next, stacks[..m-1], Tops(stacks[1..m-1]), Pop(stacks[m-1]));
  }

  lemma PopSlices(stacks: seq<seq<nat>>, below: seq<seq<nat>>, next: seq<seq<nat>>)
    requires |stacks| >= 3 && stacks[|stacks| - 2] != []
    requires below == stacks[..|stacks| - 1]
    requires next == stacks[..|stacks| - 2] + [Pop(stacks[|stacks| - 2])]
    ensures var m := |stacks| - 1;
      && |below| == m && |next| == m
      && below[1..m-1] == stacks[1..m-1] && next[1..m-1] == stacks[1..m-1]
      && below[..m-1] == stacks[..m-1] && next[..m-1] == stacks[..m-1]
      && below[m-1] == stacks[m-1] && next[m-1] == Pop(stacks[m-1])
  {
  }

  /**
   * Fill a freshly entered level: try every index from n-1 down to 0 and push
   * it unless it is on top of one of the levels 1..|stacks|-1 below.
   */
  method FillLevel(n: nat, stacks: seq<seq<nat>>) returns (stack: seq<nat>)
    requires stacks != [] && forall l :: 1 <= l < |stacks| ==> stacks[l] != []
    ensures stack == Desc(n, Tops(stacks[1..]), 0)
  {
    var prefix := Tops(stacks[1..]);
    var move := |stacks|;
    stack := [];
    var candidate := n;
    while candidate >= 1
      invariant 0 <= candidate <= n
      invariant stack == Desc(n, prefix, candidate)
    {
      var i := move - 1;
      while i >= 1 && candidate - 1 != Last(stacks[i])
        invariant 0 <= i < move
        invariant forall j :: i < j < move ==> Last(stacks[j]) != candidate - 1
      {
        i := i - 1;
      }
      if i >= 1 {
        assert prefix[i - 1] == candidate - 1;
      } else {
        assert forall k :: 0 <= k < |prefix| ==> prefix[k] == Last(stacks[k + 1]);
        stack := stack + [candidate - 1];
      }
      candidate := candidate - 1;
    }
  }

  /** Read the permutation off the tops of levels 1..n. */
  method ReadTops(n: nat, stacks: seq<seq<nat>>) returns (perm: seq<nat>)
    requires n < |stacks| && forall l :: 1 <= l <= n ==> stacks[l] != []
    ensures |perm| == n && forall k :: 0 <= k < n ==> perm[k] == Last(stacks[k + 1])
  {
    perm := [];
    var i := 1;
    while i <= n
      invariant 1 <= i <= n + 1 && |perm| == i - 1
      invariant forall k :: 0 <= k < i - 1 ==> perm[k] == Last(stacks[k + 1])
    {
      perm := perm + [Last(stacks[i])];
      i := i + 1;
    }
  }

  /** The climb to a level below n + 1: the new level is filled; nothing pending changes. */
  method Push(n: nat, stacks: seq<seq<nat>>) returns (next: seq<seq<nat>>)
    requires Machine(n, stacks) && |stacks| - 1 < n && stacks[|stacks| - 1] != []
    ensures Machine(n, next) && |next| == |stacks| + 1
    ensures Pending(n, next) == Pending(n, stacks)
    ensures Phase(n, next) < Phase(n, stacks)
  {
    var stack := FillLevel(n, stacks);
    PushStep(n, stacks);
    assert stacks[1..] == stacks[1..|stacks|];
    next := stacks + [stack];
  }

  /** The climb to level n + 1: the permutation on the tops is emitted. */
  method Emit(n: nat, stacks: seq<seq<nat>>) returns (perm: seq<nat>, next: seq<seq<nat>>)
    requires Machine(n, stacks) && |stacks| - 1 == n && stacks[n] != []
    ensures IsPermutation(perm, n)
    ensures Machine(n, next) && |next| == n + 2
    ensures Pending(n, stacks) == [perm] + Pending(n, next)
  {
    perm := ReadTops(n, stacks);
    EmitStep(n, stacks);
    assert perm == Tops(stacks[1..n+1]);
    next := stacks + [[]];
  }

  /** The drop from an empty level: pop the level below; nothing pending changes. */
  method Drop(n: nat, stacks: seq<seq<nat>>) returns (next: seq<seq<nat>>)
    requires Machine(n, stacks) && |stacks| >= 2 && stacks[|stacks| - 1] == []
    ensures Machine(n, next) && |next| == |stacks| - 1
    ensures Pending(n, next) == Pending(n, stacks)
    ensures Phase(n, next) < Phase(n, stacks)
  {
    var move := |stacks| - 1;
    PopStep(n, stacks);
    next := stacks[..move-1] + [Pop(stacks[move-1])];
  }
}
