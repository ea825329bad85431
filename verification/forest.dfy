/** Parent links and child lists of one arena, seen together. When every listed
    child names its lister as parent and the parent links have no cycle, the
    pre-order listing from any node is defined, never repeats a node, and lists
    only nodes of that node's subtree; when in addition every parent lists its
    children, it lists all of them. Both trees of tree/tree.go rely on this. */
module Forest {
  import opened Results
  import opened Seqs
  import Chains
  import opened Traversal

  /** Every listed child names its lister as parent, and no list repeats a node. */
  predicate PointsBack(parents: seq<int>, adj: seq<seq<nat>>) {
    && |parents| == |adj|
    && Chains.ValidParents(parents)
    && ValidAdj(adj)
    && (forall j, k :: 0 <= j < |adj| && 0 <= k < |adj[j]| ==> parents[adj[j][k]] == j)
    && (forall j :: 0 <= j < |adj| ==> Distinct(adj[j]))
  }

  /** In addition, every node with a parent is listed by it. */
  predicate Linked(parents: seq<int>, adj: seq<seq<nat>>) {
    && PointsBack(parents, adj)
    && forall x :: 0 <= x < |parents| && parents[x] != -1 ==> x in adj[parents[x]]
  }

  /** The chain of a listed child is the child followed by its lister's chain. */
  lemma ChildChain(parents: seq<int>, adj: seq<seq<nat>>, q: nat, c: nat)
    requires PointsBack(parents, adj) && Chains.Acyclic(parents) && q < |adj| && c in adj[q]
    ensures c < |parents| && parents[c] == q
    ensures Chains.Chain(parents, c) == [c] + Chains.Chain(parents, q)
  {
    var k :| 0 <= k < |adj[q]| && adj[q][k] == c;
    Chains.ChainCons(parents, c);
  }

  lemma ChainHead(parents: seq<int>, i: nat)
    requires Chains.Acyclic(parents) && i < |parents|
    ensures |Chains.Chain(parents, i)| > 0 && Chains.Chain(parents, i)[0] == i
    ensures Distinct(Chains.Chain(parents, i))
    ensures |Chains.Chain(parents, i)| <= |parents|
  {
    DistinctBound(Chains.Chain(parents, i), |parents|);
  }

  // ---------------------------------------------------------------- defined

  /** With depth `fuel` to spare beyond the node's depth, the listing is defined:
      no path below a node is longer than the arena is large. */
  lemma {:induction false} DefinedFrom(parents: seq<int>, adj: seq<seq<nat>>, i: nat, fuel: nat)
    requires PointsBack(parents, adj) && Chains.Acyclic(parents) && i < |adj|
    requires fuel + |Chains.Chain(parents, i)| > |adj|
    ensures PreOrder(adj, i, fuel).Some?
    decreases fuel, 0
  {
    ChainHead(parents, i);
    DefinedFromList(parents, adj, i, adj[i], fuel - 1);
  }

  lemma {:induction false} DefinedFromList(parents: seq<int>, adj: seq<seq<nat>>, q: nat, cs: seq<nat>, fuel: nat)
    requires PointsBack(parents, adj) && Chains.Acyclic(parents) && q < |adj|
    requires AllBelow(cs, |adj|) && forall c :: c in cs ==> c in adj[q]
    requires fuel + |Chains.Chain(parents, q)| >= |adj|
    ensures PreOrderList(adj, cs, fuel).Some?
    decreases fuel, |cs|
  {
    if cs != [] {
      ChildChain(parents, adj, q, cs[0]);
      DefinedFrom(parents, adj, cs[0], fuel);
      DefinedFromList(parents, adj, q, cs[1..], fuel);
    }
  }

  /** With fuel the size of the arena, the listing from any node is defined. */
  lemma Defined(parents: seq<int>, adj: seq<seq<nat>>, i: nat)
    requires PointsBack(parents, adj) && Chains.Acyclic(parents) && i < |adj|
    ensures PreOrder(adj, i, |adj|).Some?
  {
    ChainHead(parents, i);
    DefinedFrom(parents, adj, i, |adj|);
  }

  // ---------------------------------------------------------------- sound

  /** Every node listed from `i` has `i` on its parent chain. */
  lemma {:induction false} ListedBelow(parents: seq<int>, adj: seq<seq<nat>>, i: nat, fuel: nat)
    requires PointsBack(parents, adj) && Chains.Acyclic(parents) && i < |adj|
    requires PreOrder(adj, i, fuel).Some?
    ensures forall x :: x in PreOrder(adj, i, fuel).value ==> i in Chains.Chain(parents, x)
    decreases fuel, 0
  {
    var l := PreOrder(adj, i, fuel).value;
    assert l == [i] + PreOrderList(adj, adj[i], fuel - 1).value;
    ListedBelowList(parents, adj, i, adj[i], fuel - 1);
    ChainHead(parents, i);
  }

  lemma {:induction false} ListedBelowList(parents: seq<int>, adj: seq<seq<nat>>, q: nat, cs: seq<nat>, fuel: nat)
    requires PointsBack(parents, adj) && Chains.Acyclic(parents) && q < |adj|
    requires AllBelow(cs, |adj|) && forall c :: c in cs ==> c in adj[q]
    requires PreOrderList(adj, cs, fuel).Some?
    ensures forall x :: x in PreOrderList(adj, cs, fuel).value ==>
              q in Chains.Chain(parents, x) && exists c :: c in cs && c in Chains.Chain(parents, x)
    decreases fuel, |cs|
  {
    if cs != [] {
      var c := cs[0];
      var l0 := PreOrder(adj, c, fuel).value;
      ChildChain(parents, adj, q, c);
      ListedBelow(parents, adj, c, fuel);
      ListedBelowList(parents, adj, q, cs[1..], fuel);
      forall x | x in l0
        ensures q in Chains.Chain(parents, x)
      {
        var m :| 0 <= m < |Chains.Chain(parents, x)| && Chains.Chain(parents, x)[m] == c;
        Chains.ChainSuffix(parents, x, m);
        assert Chains.Chain(parents, c)[1] == q;
      }
    }
  }

  // ---------------------------------------------------------------- distinct

  /** Two different children of `q` have no common descendant: the chain of `x`
      passes through exactly one child of `q`. */
  lemma SiblingsDisjoint(parents: seq<int>, adj: seq<seq<nat>>, q: nat, c: nat, d: nat, x: nat, y: nat)
    requires PointsBack(parents, adj) && Chains.Acyclic(parents) && q < |adj| && x < |adj| && y < |adj|
    requires c in adj[q] && d in adj[q] && c != d
    requires c in Chains.Chain(parents, x) && d in Chains.Chain(parents, y)
    ensures x != y
  {
    var w := Chains.Chain(parents, x);
    ChildChain(parents, adj, q, c);
    var m :| 0 <= m < |w| && w[m] == c;
    Chains.ChainLinks(parents, x, m);
    ChainHead(parents, x);
    forall k | 0 <= k < |w| && w[k] in adj[q]
      ensures w[k] == c
    {
      ChildChain(parents, adj, q, w[k]);
      Chains.ChainLinks(parents, x, k);
    }
    assert d !in w;
  }

  /** A node is not in the subtree of its own child. */
  lemma NotBelowChild(parents: seq<int>, adj: seq<seq<nat>>, q: nat, c: nat)
    requires PointsBack(parents, adj) && Chains.Acyclic(parents) && q < |adj| && c in adj[q]
    ensures c !in Chains.Chain(parents, q)
  {
    ChildChain(parents, adj, q, c);
    var w := Chains.Chain(parents, c);
    ChainHead(parents, c);
    forall k | 0 <= k < |Chains.Chain(parents, q)|
      ensures Chains.Chain(parents, q)[k] != c
    {
      assert Chains.Chain(parents, q)[k] == w[k + 1] && c == w[0];
    }
  }

  /** The listing never repeats a node. */
  lemma {:induction false} ListingDistinct(parents: seq<int>, adj: seq<seq<nat>>, i: nat, fuel: nat)
    requires PointsBack(parents, adj) && Chains.Acyclic(parents) && i < |adj|
    requires PreOrder(adj, i, fuel).Some?
    ensures Distinct(PreOrder(adj, i, fuel).value)
    decreases fuel, 0
  {
    var tail := PreOrderList(adj, adj[i], fuel - 1).value;
    ListingDistinctList(parents, adj, i, adj[i], fuel - 1);
    ListedBelowList(parents, adj, i, adj[i], fuel - 1);
    forall x | x in tail
      ensures x != i
    {
      var c :| c in adj[i] && c in Chains.Chain(parents, x);
      NotBelowChild(parents, adj, i, c);
    }
    assert PreOrder(adj, i, fuel).value == [i] + tail;
    assert Elems([i]) == {i};
    assert Avoids(tail, Elems([i])) by {
      forall k | 0 <= k < |tail|
        ensures tail[k] !in Elems([i])
      {
        assert tail[k] in tail;
      }
    }
    DistinctConcat([i], tail);
  }

  lemma {:induction false} ListingDistinctList(parents: seq<int>, adj: seq<seq<nat>>, q: nat, cs: seq<nat>, fuel: nat)
    requires PointsBack(parents, adj) && Chains.Acyclic(parents) && q < |adj|
    requires AllBelow(cs, |adj|) && forall c :: c in cs ==> c in adj[q]
    requires Distinct(cs)
    requires PreOrderList(adj, cs, fuel).Some?
    ensures Distinct(PreOrderList(adj, cs, fuel).value)
    decreases fuel, |cs|
  {
    if cs != [] {
      var c := cs[0];
      var l0 := PreOrder(adj, c, fuel).value;
      var l1 := PreOrderList(adj, cs[1..], fuel).value;
      ListingDistinct(parents, adj, c, fuel);
      ListingDistinctList(parents, adj, q, cs[1..], fuel);
      ListedBelow(parents, adj, c, fuel);
      ListedBelowList(parents, adj, q, cs[1..], fuel);
      forall x, y | x in l0 && y in l1
        ensures x != y
      {
        var d :| d in cs[1..] && d in Chains.Chain(parents, y);
        var j :| 0 <= j < |cs[1..]| && cs[1..][j] == d;
        assert d == cs[j + 1];
        SiblingsDisjoint(parents, adj, q, c, d, x, y);
      }
      DistinctConcat(l0, l1);
    }
  }

  // ---------------------------------------------------------------- complete

  /** When every parent lists its children, the listing from `i` holds every node
      that has `i` on its parent chain. */
  lemma {:induction false} ListingComplete(parents: seq<int>, adj: seq<seq<nat>>, i: nat, x: nat, m: nat)
    requires Linked(parents, adj) && Chains.Acyclic(parents) && i < |adj| && x < |adj|
    requires m < |Chains.Chain(parents, x)| && Chains.Chain(parents, x)[m] == i
    requires PreOrder(adj, i, |adj|).Some?
    ensures x in PreOrder(adj, i, |adj|).value
    decreases m
  {
    var l := PreOrder(adj, i, |adj|).value;
    if m > 0 {
      Chains.ChainLinks(parents, x, 0);
      var p := parents[x];
      Chains.ChainCons(parents, x);
      assert Chains.Chain(parents, p)[m - 1] == i;
      ListingComplete(parents, adj, i, p, m - 1);
      PreOrderReach(adj, i, |adj|);
    }
  }

  /** The listing from `i` holds exactly the nodes with `i` on their chain, each once. */
  lemma ListingExact(parents: seq<int>, adj: seq<seq<nat>>, i: nat)
    requires Linked(parents, adj) && Chains.Acyclic(parents) && i < |adj|
    ensures PreOrder(adj, i, |adj|).Some?
    ensures Distinct(PreOrder(adj, i, |adj|).value)
    ensures forall x :: 0 <= x < |adj| ==>
              (x in PreOrder(adj, i, |adj|).value <==> i in Chains.Chain(parents, x))
  {
    Defined(parents, adj, i);
    ListingDistinct(parents, adj, i, |adj|);
    ListedBelow(parents, adj, i, |adj|);
    forall x | 0 <= x < |adj| && i in Chains.Chain(parents, x)
      ensures x in PreOrder(adj, i, |adj|).value
    {
      var m :| 0 <= m < |Chains.Chain(parents, x)| && Chains.Chain(parents, x)[m] == i;
      ListingComplete(parents, adj, i, x, m);
    }
  }

  // ---------------------------------------------------------------- one root's part of any arena

  /** The parent links with every node that does not hang below `r` cut loose. */
  function Prune(parents: seq<int>, r: nat): (p: seq<int>)
    ensures |p| == |parents|
    ensures forall x :: 0 <= x < |p| ==> p[x] == if Chains.RootedAt(parents, r, x) then parents[x] else -1
  {
    seq(|parents|, x requires 0 <= x < |parents| =>
      if Chains.RootedAt(parents, r, x) then parents[x] else -1)
  }

  /** The child lists with every node that does not hang below `r` childless. */
  function PruneAdj(parents: seq<int>, adj: seq<seq<nat>>, r: nat): (a: seq<seq<nat>>)
    requires |adj| == |parents|
    ensures |a| == |adj|
    ensures forall x :: 0 <= x < |a| ==> a[x] == if Chains.RootedAt(parents, r, x) then adj[x] else []
  {
    seq(|adj|, x requires 0 <= x < |adj| =>
      if Chains.RootedAt(parents, r, x) then adj[x] else [])
  }

  /** Two parent sequences that agree on every node of a walk give the same walk. */
  lemma {:induction false} WalkAgree(p: seq<int>, q: seq<int>, i: int, fuel: nat)
    requires |p| == |q|
    requires forall k :: 0 <= k < |Chains.Walk(p, i, fuel)| ==>
               q[Chains.Walk(p, i, fuel)[k]] == p[Chains.Walk(p, i, fuel)[k]]
    ensures Chains.Walk(q, i, fuel) == Chains.Walk(p, i, fuel)
    decreases fuel
  {
    var w := Chains.Walk(p, i, fuel);
    if fuel > 0 && 0 <= i < |p| {
      assert q[i] == p[i] by { assert w[0] == i; }
      var t := Chains.Walk(p, p[i], fuel - 1);
      assert w == [i as nat] + t;
      forall k | 0 <= k < |t|
        ensures q[t[k]] == p[t[k]]
      {
        var j := k + 1;
        assert w[j] == t[k];
      }
      WalkAgree(p, q, p[i], fuel - 1);
    }
  }

  /** After pruning, a node below `r` keeps its chain and every other node is a
      chain of its own. */
  lemma PrunedChain(parents: seq<int>, r: nat, x: nat)
    requires Chains.ValidParents(parents) && x < |parents|
    ensures Chains.Chain(Prune(parents, r), x) ==
              if Chains.RootedAt(parents, r, x) then Chains.Chain(parents, x) else [x]
  {
    var pr := Prune(parents, r);
    var w := Chains.Chain(parents, x);
    if Chains.RootedAt(parents, r, x) {
      forall k | 0 <= k < |w|
        ensures pr[w[k]] == parents[w[k]]
      {
        Chains.RootedSuffix(parents, r, x, k);
      }
      WalkAgree(parents, pr, x, |parents|);
    } else {
      assert Chains.Chain(pr, x) == [x] + Chains.Walk(pr, -1, |parents| - 1);
    }
  }

  /** A root lies below itself. */
  lemma RootBelowItself(parents: seq<int>, r: nat)
    requires r < |parents| && parents[r] == -1
    ensures Chains.Chain(parents, r) == [r]
    ensures Chains.RootedAt(parents, r, r)
  {
    assert Chains.Chain(parents, r) == [r] + Chains.Walk(parents, -1, |parents| - 1);
  }

  /** The pruned parent links have no cycle, whatever the rest of the arena holds. */
  lemma PrunedAcyclic(parents: seq<int>, r: nat)
    requires Chains.ValidParents(parents) && r < |parents| && parents[r] == -1
    ensures Chains.Acyclic(Prune(parents, r))
  {
    var pr := Prune(parents, r);
    RootBelowItself(parents, r);
    forall x | 0 <= x < |pr|
      ensures Chains.EndsAtRoot(pr, Chains.Chain(pr, x)) && Distinct(Chains.Chain(pr, x))
    {
      PrunedChain(parents, r, x);
      if Chains.RootedAt(parents, r, x) {
        Chains.RootedChain(parents, r, x);
      }
    }
  }

  /** A child listed by a node below `r` keeps that node as parent after pruning. */
  lemma PrunedPointsBack(parents: seq<int>, adj: seq<seq<nat>>, r: nat, j: nat, k: nat)
    requires Linked(parents, adj) && r < |parents| && parents[r] == -1
    requires j < |adj| && k < |PruneAdj(parents, adj, r)[j]|
    ensures Prune(parents, r)[PruneAdj(parents, adj, r)[j][k]] == j
  {
    Chains.RootedChild(parents, r, j, adj[j][k]);
  }

  /** A node that keeps its parent after pruning is still listed by it. */
  lemma PrunedListed(parents: seq<int>, adj: seq<seq<nat>>, r: nat, x: nat)
    requires Linked(parents, adj) && r < |parents| && parents[r] == -1
    requires x < |parents| && Prune(parents, r)[x] != -1
    ensures x in PruneAdj(parents, adj, r)[parents[x]]
  {
    var w := Chains.Chain(parents, x);
    Chains.RootedChain(parents, r, x);
    assert |w| > 1 by { assert w[0] == x != r == w[|w| - 1]; }
    Chains.WalkStep(parents, x, |parents|, 0);
    Chains.RootedSuffix(parents, r, x, 1);
  }

  /** Pruning keeps the parent links and child lists in step. */
  lemma PrunedLinked(parents: seq<int>, adj: seq<seq<nat>>, r: nat)
    requires Linked(parents, adj) && r < |parents| && parents[r] == -1
    ensures Linked(Prune(parents, r), PruneAdj(parents, adj, r))
  {
    var pr := Prune(parents, r);
    var pa := PruneAdj(parents, adj, r);
    forall j, k | 0 <= j < |pa| && 0 <= k < |pa[j]|
      ensures pr[pa[j][k]] == j
    {
      PrunedPointsBack(parents, adj, r, j, k);
    }
    forall x | 0 <= x < |pr| && pr[x] != -1
      ensures x in pa[pr[x]]
    {
      PrunedListed(parents, adj, r, x);
    }
  }

  /** The listing from a node depends only on the child lists of the nodes it can
      reach: a set closed under children on which two arenas agree. */
  lemma {:induction false} PreOrderAgree(adj: seq<seq<nat>>, b: seq<seq<nat>>, s: set<nat>, i: nat, fuel: nat)
    requires ValidAdj(adj) && ValidAdj(b) && |adj| == |b| && i < |adj|
    requires forall x :: x in s ==> x < |adj| && b[x] == adj[x]
    requires forall x, c :: x in s && c in adj[x] ==> c in s
    requires i in s
    ensures PreOrder(b, i, fuel) == PreOrder(adj, i, fuel)
    decreases fuel, 0
  {
    if fuel > 0 {
      PreOrderListAgree(adj, b, s, adj[i], fuel - 1);
    }
  }

  lemma {:induction false} PreOrderListAgree(adj: seq<seq<nat>>, b: seq<seq<nat>>, s: set<nat>, cs: seq<nat>, fuel: nat)
    requires ValidAdj(adj) && ValidAdj(b) && |adj| == |b| && AllBelow(cs, |adj|)
    requires forall x :: x in s ==> x < |adj| && b[x] == adj[x]
    requires forall x, c :: x in s && c in adj[x] ==> c in s
    requires forall c :: c in cs ==> c in s
    ensures PreOrderList(b, cs, fuel) == PreOrderList(adj, cs, fuel)
    decreases fuel, |cs|
  {
    if cs != [] {
      PreOrderAgree(adj, b, s, cs[0], fuel);
      PreOrderListAgree(adj, b, s, cs[1..], fuel);
    }
  }

  /** The nodes below `r`: closed under children. */
  function Below(parents: seq<int>, r: nat): set<nat> {
    set x: nat | x < |parents| && Chains.RootedAt(parents, r, x)
  }

  lemma BelowClosed(parents: seq<int>, adj: seq<seq<nat>>, r: nat)
    requires Linked(parents, adj) && r < |adj| && parents[r] == -1
    ensures r in Below(parents, r)
    ensures forall x :: x in Below(parents, r) ==> x < |adj| && PruneAdj(parents, adj, r)[x] == adj[x]
    ensures forall x, c :: x in Below(parents, r) && c in adj[x] ==> c in Below(parents, r)
  {
    RootBelowItself(parents, r);
    forall x, c | x in Below(parents, r) && c in adj[x]
      ensures c in Below(parents, r)
    {
      Chains.RootedChild(parents, r, x, c);
    }
  }

  /** The listing from `r` is the same in the pruned arena. */
  lemma PrunedListing(parents: seq<int>, adj: seq<seq<nat>>, r: nat)
    requires Linked(parents, adj) && r < |adj| && parents[r] == -1
    ensures Linked(Prune(parents, r), PruneAdj(parents, adj, r))
    ensures Chains.Acyclic(Prune(parents, r))
    ensures PreOrder(adj, r, |adj|) == PreOrder(PruneAdj(parents, adj, r), r, |adj|)
  {
    PrunedAcyclic(parents, r);
    PrunedLinked(parents, adj, r);
    BelowClosed(parents, adj, r);
    PreOrderAgree(adj, PruneAdj(parents, adj, r), Below(parents, r), r, |adj|);
  }

  /** The listing from a node without a parent holds exactly the nodes below it,
      each once, even when other parts of the arena have parent cycles: those
      nodes are never reached from it. */
  lemma RootedListing(parents: seq<int>, adj: seq<seq<nat>>, r: nat)
    requires Linked(parents, adj) && r < |adj| && parents[r] == -1
    ensures PreOrder(adj, r, |adj|).Some?
    ensures Distinct(PreOrder(adj, r, |adj|).value)
    ensures forall x :: 0 <= x < |adj| ==>
              (x in PreOrder(adj, r, |adj|).value <==> r in Chains.Chain(parents, x))
  {
    var pr := Prune(parents, r);
    var pa := PruneAdj(parents, adj, r);
    PrunedListing(parents, adj, r);
    ListingExact(pr, pa, r);
    RootBelowItself(parents, r);
    forall x | 0 <= x < |adj|
      ensures r in Chains.Chain(pr, x) <==> r in Chains.Chain(parents, x)
    {
      PrunedChain(parents, r, x);
    }
  }
}
