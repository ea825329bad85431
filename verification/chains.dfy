/** Parent-link walks over an arena whose nodes are the indices 0..n-1 and whose
    parent links are given as a sequence (-1 is the nil parent). This is the loop
    `for ptr := node; ptr != nil; ptr = ptr.Parent` that every weight update of
    tree/tree.go runs. */
module Chains {
  import opened Seqs

  /** The nodes met by following parent links upward from `i` for at most `fuel`
      steps; the walk stops at the first index outside the arena (the nil parent). */
  function Walk(parents: seq<int>, i: int, fuel: nat): (w: seq<nat>)
    ensures forall k :: 0 <= k < |w| ==> w[k] < |parents|
    ensures fuel > 0 && 0 <= i < |parents| ==> |w| > 0 && w[0] == i
    decreases fuel
  {
    if fuel == 0 || i < 0 || i >= |parents| then []
    else [i as nat] + Walk(parents, parents[i], fuel - 1)
  }

  /** The ancestor chain of `i`, `i` itself first: the nodes the upward loop visits
      when it stops, which it does within |parents| steps on an acyclic arena. */
  function Chain(parents: seq<int>, i: int): seq<nat> {
    Walk(parents, i, |parents|)
  }

  predicate ValidParents(parents: seq<int>) {
    forall i :: 0 <= i < |parents| ==> -1 <= parents[i] < |parents|
  }

  /** The walk `w` stopped at a node whose parent is nil. */
  predicate EndsAtRoot(parents: seq<int>, w: seq<nat>)
    requires forall k :: 0 <= k < |w| ==> w[k] < |parents|
  {
    |w| > 0 && parents[w[|w| - 1]] == -1
  }

  /** No parent cycle: the chain of every node reaches a node without a parent and
      never repeats a node, so every upward loop terminates. */
  predicate Acyclic(parents: seq<int>) {
    && ValidParents(parents)
    && forall i :: 0 <= i < |parents| ==>
         EndsAtRoot(parents, Chain(parents, i)) && Distinct(Chain(parents, i))
  }

  /** Consecutive nodes of a walk are linked by the parent relation. */
  lemma {:induction false} WalkStep(parents: seq<int>, i: int, fuel: nat, m: nat)
    requires m + 1 < |Walk(parents, i, fuel)|
    ensures Walk(parents, i, fuel)[m + 1] == parents[Walk(parents, i, fuel)[m]]
    decreases fuel
  {
    if m > 0 {
      WalkStep(parents, parents[i], fuel - 1, m - 1);
    }
  }

  /** Once a walk has reached a root, more fuel does not change it. */
  lemma {:induction false} WalkMoreFuel(parents: seq<int>, i: int, f: nat, g: nat)
    requires ValidParents(parents)
    requires f <= g
    requires EndsAtRoot(parents, Walk(parents, i, f))
    ensures Walk(parents, i, g) == Walk(parents, i, f)
    decreases f
  {
    var w := Walk(parents, i, f);
    if parents[i] != -1 {
      assert |w| > 1;
      assert w[1..] == Walk(parents, parents[i], f - 1);
      WalkMoreFuel(parents, parents[i], f - 1, g - 1);
    }
  }

  /** A chain's last node has no parent; every earlier node's parent is the next one. */
  lemma ChainLinks(parents: seq<int>, i: int, m: nat)
    requires Acyclic(parents) && 0 <= i < |parents|
    requires m < |Chain(parents, i)|
    ensures m + 1 < |Chain(parents, i)| <==> parents[Chain(parents, i)[m]] != -1
    ensures m + 1 < |Chain(parents, i)| ==> Chain(parents, i)[m + 1] == parents[Chain(parents, i)[m]]
  {
    if m + 1 < |Chain(parents, i)| {
      WalkStep(parents, i, |parents|, m);
    }
  }

  /** The chain of a node with a parent is the node followed by its parent's chain. */
  lemma ChainCons(parents: seq<int>, i: int)
    requires Acyclic(parents) && 0 <= i < |parents| && parents[i] != -1
    ensures Chain(parents, i) == [i as nat] + Chain(parents, parents[i])
  {
    var n := |parents|;
    var c := Chain(parents, i);
    ChainLinks(parents, i, 0);
    assert c[1..] == Walk(parents, parents[i], n - 1);
    WalkMoreFuel(parents, parents[i], n - 1, n);
  }

  /** The chain of any node on `i`'s chain is the rest of `i`'s chain from there. */
  lemma {:induction false} ChainSuffix(parents: seq<int>, i: int, m: nat)
    requires Acyclic(parents) && 0 <= i < |parents|
    requires m < |Chain(parents, i)|
    ensures Chain(parents, Chain(parents, i)[m]) == Chain(parents, i)[m..]
    decreases m
  {
    if m > 0 {
      ChainLinks(parents, i, 0);
      ChainCons(parents, i);
      ChainSuffix(parents, parents[i], m - 1);
    }
  }

  /** Parent links that always point to a smaller index (as in an arena filled in
      pre-order) give walks that strictly decrease and end at a root. */
  lemma {:induction false} DescendingWalk(parents: seq<int>, i: nat, fuel: nat)
    requires ValidParents(parents)
    requires forall k :: 0 <= k < |parents| ==> parents[k] < k
    requires i < |parents| && i < fuel
    ensures EndsAtRoot(parents, Walk(parents, i, fuel))
    ensures forall a, b :: 0 <= a < b < |Walk(parents, i, fuel)| ==>
              Walk(parents, i, fuel)[a] > Walk(parents, i, fuel)[b]
    decreases i
  {
    var w := Walk(parents, i, fuel);
    if parents[i] != -1 {
      var p := parents[i];
      DescendingWalk(parents, p, fuel - 1);
      var tail := Walk(parents, p, fuel - 1);
      assert w == [i] + tail;
      forall a, b | 0 <= a < b < |w|
        ensures w[a] > w[b]
      {
        if a == 0 {
          assert tail[0] == p;
          assert w[b] == tail[b - 1] <= p;
        } else {
          assert w[a] == tail[a - 1] && w[b] == tail[b - 1];
        }
      }
    }
  }

  lemma DescendingIsAcyclic(parents: seq<int>)
    requires ValidParents(parents)
    requires forall k :: 0 <= k < |parents| ==> parents[k] < k
    ensures Acyclic(parents)
  {
    forall i | 0 <= i < |parents|
      ensures EndsAtRoot(parents, Chain(parents, i)) && Distinct(Chain(parents, i))
    {
      DescendingWalk(parents, i, |parents|);
    }
  }

  // ---------------------------------------------------------------- walks that reach a root

  /** A walk that meets a node without a parent stops there. */
  lemma {:induction false} WalkStopsAtRoot(parents: seq<int>, i: int, fuel: nat, m: nat)
    requires m < |Walk(parents, i, fuel)| && parents[Walk(parents, i, fuel)[m]] == -1
    ensures |Walk(parents, i, fuel)| == m + 1
    decreases m
  {
    if m > 0 {
      WalkStopsAtRoot(parents, parents[i], fuel - 1, m - 1);
    }
  }

  /** Once two positions of a walk hold the same node, the walk repeats itself
      from there on. */
  lemma {:induction false} WalkRepeats(parents: seq<int>, i: int, fuel: nat, a: nat, b: nat, j: nat)
    requires a < b && b + j < |Walk(parents, i, fuel)|
    requires Walk(parents, i, fuel)[a] == Walk(parents, i, fuel)[b]
    ensures Walk(parents, i, fuel)[a + j] == Walk(parents, i, fuel)[b + j]
    decreases j
  {
    if j > 0 {
      WalkRepeats(parents, i, fuel, a, b, j - 1);
      WalkStep(parents, i, fuel, a + j - 1);
      WalkStep(parents, i, fuel, b + j - 1);
    }
  }

  /** A walk that meets a node without a parent ends there and repeats no node. */
  lemma WalkToRoot(parents: seq<int>, i: int, fuel: nat, m: nat)
    requires m < |Walk(parents, i, fuel)| && parents[Walk(parents, i, fuel)[m]] == -1
    ensures |Walk(parents, i, fuel)| == m + 1
    ensures EndsAtRoot(parents, Walk(parents, i, fuel)) && Distinct(Walk(parents, i, fuel))
  {
    var w := Walk(parents, i, fuel);
    WalkStopsAtRoot(parents, i, fuel, m);
    forall a, b | 0 <= a < b < |w|
      ensures w[a] != w[b]
    {
      if w[a] == w[b] {
        WalkRepeats(parents, i, fuel, a, b, m - b);
        WalkStopsAtRoot(parents, i, fuel, a + m - b);
      }
    }
  }

  /** A walk is never longer than its fuel. */
  lemma {:induction false} WalkLength(parents: seq<int>, i: int, fuel: nat)
    ensures |Walk(parents, i, fuel)| <= fuel
    decreases fuel
  {
    if fuel > 0 && 0 <= i < |parents| {
      WalkLength(parents, parents[i], fuel - 1);
    }
  }

  /** A walk that stops short of its fuel is unchanged by one step less fuel. */
  lemma {:induction false} WalkShort(parents: seq<int>, i: int, fuel: nat)
    requires |Walk(parents, i, fuel + 1)| <= fuel
    ensures Walk(parents, i, fuel) == Walk(parents, i, fuel + 1)
    decreases fuel
  {
    if fuel > 0 && 0 <= i < |parents| {
      WalkShort(parents, parents[i], fuel - 1);
    }
  }

  /** The walk from the `k`-th node of a walk is the rest of that walk. */
  lemma {:induction false} WalkDrop(parents: seq<int>, i: int, fuel: nat, k: nat)
    requires k < |Walk(parents, i, fuel)|
    ensures k <= fuel
    ensures Walk(parents, Walk(parents, i, fuel)[k], fuel - k) == Walk(parents, i, fuel)[k..]
    decreases k
  {
    if k > 0 {
      var w := Walk(parents, i, fuel);
      assert w[1..] == Walk(parents, parents[i], fuel - 1);
      WalkDrop(parents, parents[i], fuel - 1, k - 1);
      assert w[1..][k - 1..] == w[k..];
    }
  }

  /** `r` has no parent and lies on the chain of `x`: `x` hangs below `r`. */
  predicate RootedAt(parents: seq<int>, r: nat, x: nat) {
    r < |parents| && parents[r] == -1 && r in Chain(parents, x)
  }

  /** The chain of a node below a root ends at that root and repeats no node, even
      when other parts of the arena have parent cycles. */
  lemma RootedChain(parents: seq<int>, r: nat, x: nat)
    requires RootedAt(parents, r, x)
    ensures EndsAtRoot(parents, Chain(parents, x)) && Distinct(Chain(parents, x))
    ensures Chain(parents, x)[|Chain(parents, x)| - 1] == r
  {
    var w := Chain(parents, x);
    var m :| 0 <= m < |w| && w[m] == r;
    WalkToRoot(parents, x, |parents|, m);
  }

  /** Every node on the chain of a node below `r` is below `r` too, and its chain
      is the rest of that chain. */
  lemma RootedSuffix(parents: seq<int>, r: nat, x: nat, k: nat)
    requires ValidParents(parents) && RootedAt(parents, r, x) && k < |Chain(parents, x)|
    ensures Chain(parents, Chain(parents, x)[k]) == Chain(parents, x)[k..]
    ensures RootedAt(parents, r, Chain(parents, x)[k])
  {
    var w := Chain(parents, x);
    var n := |parents|;
    RootedChain(parents, r, x);
    WalkDrop(parents, x, n, k);
    var v := Walk(parents, w[k], n - k);
    assert v[|v| - 1] == w[|w| - 1];
    WalkMoreFuel(parents, w[k], n - k, n);
    assert w[|w| - 1] in w[k..];
  }

  /** A node whose parent is below `r` is below `r`, and its chain is itself
      followed by its parent's chain. */
  lemma RootedChild(parents: seq<int>, r: nat, q: nat, c: nat)
    requires ValidParents(parents) && RootedAt(parents, r, q) && c < |parents| && parents[c] == q
    ensures Chain(parents, c) == [c] + Chain(parents, q)
    ensures RootedAt(parents, r, c)
  {
    var n := |parents|;
    var w := Chain(parents, q);
    RootedChain(parents, r, q);
    var m := |w| - 1;
    forall j | 0 <= j < |w|
      ensures w[j] != c
    {
      if w[j] == c {
        assert j < m;
        WalkStep(parents, q, n, j);
      }
    }
    var cw := [c] + w;
    assert Distinct(cw) by {
      forall a, b | 0 <= a < b < |cw|
        ensures cw[a] != cw[b]
      {
        if a > 0 {
          assert cw[a] == w[a - 1] && cw[b] == w[b - 1];
        } else {
          assert cw[b] == w[b - 1];
        }
      }
    }
    DistinctBound(cw, n);
    WalkShort(parents, q, n - 1);
    assert Chain(parents, c) == [c] + Walk(parents, q, n - 1);
    assert w[m] in Chain(parents, c);
  }
}
