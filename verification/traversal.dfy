/** Depth-first traversals over child lists: an arena of n nodes whose child links
    are given as `adj[i]`, the children of node `i` in order. Both the plain tree
    and the partition tree of tree/tree.go traverse their nodes this way. */
module Traversal {
  import opened Results
  import opened Seqs

  /** Every child link names a node of the arena. */
  predicate ValidAdj(adj: seq<seq<nat>>) {
    forall i, k :: 0 <= i < |adj| && 0 <= k < |adj[i]| ==> adj[i][k] < |adj|
  }

  predicate AllBelow(s: seq<nat>, n: nat) {
    forall k :: 0 <= k < |s| ==> s[k] < n
  }

  function Elems(s: seq<nat>): set<nat> {
    set x | x in s
  }

  /** No element of `s` is in `vis`. */
  predicate Avoids(s: seq<nat>, vis: set<nat>) {
    forall k :: 0 <= k < |s| ==> s[k] !in vis
  }

  /** The pre-order listing of the nodes reachable from `i`: `i`, then the listing
      of each child in child order. None when the recursion goes deeper than
      `fuel`; with fuel |adj| that happens only if a cycle of child links is
      reachable from `i`, where the recursive Go code never returns. */
  function PreOrder(adj: seq<seq<nat>>, i: nat, fuel: nat): (r: Option<seq<nat>>)
    requires ValidAdj(adj) && i < |adj|
    ensures r.Some? ==> |r.value| > 0 && r.value[0] == i && AllBelow(r.value, |adj|)
    decreases fuel, 0
  {
    if fuel == 0 then None
    else match PreOrderList(adj, adj[i], fuel - 1)
      case None => None
      case Some(l) => Some([i] + l)
  }

  /** The pre-order listings of the nodes `cs`, one after the other. */
  function PreOrderList(adj: seq<seq<nat>>, cs: seq<nat>, fuel: nat): (r: Option<seq<nat>>)
    requires ValidAdj(adj) && AllBelow(cs, |adj|)
    ensures r.Some? ==> AllBelow(r.value, |adj|)
    decreases fuel, |cs|
  {
    if cs == [] then Some([])
    else match PreOrder(adj, cs[0], fuel)
      case None => None
      case Some(l0) =>
        match PreOrderList(adj, cs[1..], fuel)
        case None => None
        case Some(l1) => Some(l0 + l1)
  }

  /** The listing of `i` is exactly what can be reached from `i`: it contains every
      child of every listed node, and each listed node after `i` is a child of a
      node listed before it. */
  lemma {:induction false} PreOrderReach(adj: seq<seq<nat>>, i: nat, fuel: nat)
    requires ValidAdj(adj) && i < |adj| && PreOrder(adj, i, fuel).Some?
    ensures forall x, c :: x in PreOrder(adj, i, fuel).value && c in adj[x] ==>
              c in PreOrder(adj, i, fuel).value
    ensures forall k :: 0 < k < |PreOrder(adj, i, fuel).value| ==>
              exists j :: 0 <= j < k &&
                PreOrder(adj, i, fuel).value[k] in adj[PreOrder(adj, i, fuel).value[j]]
    decreases fuel, 0
  {
    var l := PreOrder(adj, i, fuel).value;
    var tail := PreOrderList(adj, adj[i], fuel - 1).value;
    PreOrderListReach(adj, adj[i], fuel - 1);
    assert l == [i] + tail;
    forall k | 0 < k < |l|
      ensures exists j :: 0 <= j < k && l[k] in adj[l[j]]
    {
      assert l[k] == tail[k - 1];
      if tail[k - 1] in adj[i] {
        assert l[0] == i;
      } else {
        var j :| 0 <= j < k - 1 && tail[k - 1] in adj[tail[j]];
        assert l[j + 1] == tail[j];
      }
    }
  }

  lemma {:induction false} PreOrderListReach(adj: seq<seq<nat>>, cs: seq<nat>, fuel: nat)
    requires ValidAdj(adj) && AllBelow(cs, |adj|) && PreOrderList(adj, cs, fuel).Some?
    ensures forall c :: c in cs ==> c in PreOrderList(adj, cs, fuel).value
    ensures forall x, c :: x in PreOrderList(adj, cs, fuel).value && c in adj[x] ==>
              c in PreOrderList(adj, cs, fuel).value
    ensures forall k :: 0 <= k < |PreOrderList(adj, cs, fuel).value| ==>
              PreOrderList(adj, cs, fuel).value[k] in cs ||
              exists j :: 0 <= j < k &&
                PreOrderList(adj, cs, fuel).value[k] in adj[PreOrderList(adj, cs, fuel).value[j]]
    decreases fuel, |cs|
  {
    if cs != [] {
      var l := PreOrderList(adj, cs, fuel).value;
      var l0 := PreOrder(adj, cs[0], fuel).value;
      var l1 := PreOrderList(adj, cs[1..], fuel).value;
      PreOrderReach(adj, cs[0], fuel);
      PreOrderListReach(adj, cs[1..], fuel);
      assert l == l0 + l1;
      assert cs == [cs[0]] + cs[1..];
      forall k | 0 <= k < |l|
        ensures l[k] in cs || exists j :: 0 <= j < k && l[k] in adj[l[j]]
      {
        ReachedConcat(adj, cs, l0, l1, k);
      }
    }
  }

  /** Position `k` of a listing of `cs[0]` followed by a listing of `cs[1..]` is
      one of `cs` or a child of an earlier position. */
  lemma ReachedConcat(adj: seq<seq<nat>>, cs: seq<nat>, l0: seq<nat>, l1: seq<nat>, k: nat)
    requires ValidAdj(adj) && AllBelow(l0, |adj|) && AllBelow(l1, |adj|)
    requires cs != [] && |l0| > 0 && l0[0] == cs[0] && k < |l0| + |l1|
    requires forall k :: 0 < k < |l0| ==> exists j :: 0 <= j < k && l0[k] in adj[l0[j]]
    requires forall k :: 0 <= k < |l1| ==> l1[k] in cs[1..] || exists j :: 0 <= j < k && l1[k] in adj[l1[j]]
    ensures (l0 + l1)[k] in cs || exists j :: 0 <= j < k && (l0 + l1)[k] in adj[(l0 + l1)[j]]
  {
    var l := l0 + l1;
    if k < |l0| {
      assert l[k] == l0[k];
      if k > 0 {
        var j :| 0 <= j < k && l0[k] in adj[l0[j]];
        assert l[j] == l0[j];
      }
    } else {
      assert l[k] == l1[k - |l0|];
      if l1[k - |l0|] !in cs[1..] {
        var j :| 0 <= j < k - |l0| && l1[k - |l0|] in adj[l1[j]];
        assert l[j + |l0|] == l1[j];
      }
    }
  }

  /** isAcyclicDFS: false as soon as it reaches a node already in `vis`; otherwise
      marks the node and visits its children in order. Returns the verdict and the
      marks it leaves behind (the Go code mutates a shared map). */
  function Dfs(adj: seq<seq<nat>>, i: nat, vis: set<nat>): (r: (bool, set<nat>))
    requires ValidAdj(adj) && i < |adj| && vis <= Indices(|adj|)
    ensures vis <= r.1 <= Indices(|adj|)
    decreases |Indices(|adj|) - vis|, 0
  {
    if i in vis then (false, vis)
    else
      var u := Indices(|adj|);
      assert u - vis == (u - (vis + {i})) + {i};
      DfsList(adj, adj[i], vis + {i})
  }

  /** The loop over the children of one node in isAcyclicDFS. */
  function DfsList(adj: seq<seq<nat>>, cs: seq<nat>, vis: set<nat>): (r: (bool, set<nat>))
    requires ValidAdj(adj) && AllBelow(cs, |adj|) && vis <= Indices(|adj|)
    ensures vis <= r.1 <= Indices(|adj|)
    decreases |Indices(|adj|) - vis|, 1, |cs|
  {
    if cs == [] then (true, vis)
    else
      var first := Dfs(adj, cs[0], vis);
      if !first.0 then (false, first.1)
      else
        SubsetCard(Indices(|adj|) - first.1, Indices(|adj|) - vis);
        DfsList(adj, cs[1..], first.1)
  }

  lemma DistinctConcat(a: seq<nat>, b: seq<nat>)
    ensures Distinct(a + b) <==> Distinct(a) && Distinct(b) && Avoids(b, Elems(a))
  {
    var ab := a + b;
    if Distinct(a) && Distinct(b) && Avoids(b, Elems(a)) {
      forall i, j | 0 <= i < j < |ab|
        ensures ab[i] != ab[j]
      {
        if j >= |a| && i < |a| {
          assert ab[i] in Elems(a);
          assert ab[j] == b[j - |a|];
        }
      }
    }
    if Distinct(ab) {
      forall i, j | 0 <= i < j < |a|
        ensures a[i] != a[j]
      {
        assert a[i] == ab[i] && a[j] == ab[j];
      }
      forall i, j | 0 <= i < j < |b|
        ensures b[i] != b[j]
      {
        assert b[i] == ab[i + |a|] && b[j] == ab[j + |a|];
      }
      forall k, i | 0 <= k < |b| && 0 <= i < |a|
        ensures a[i] != b[k]
      {
        assert a[i] == ab[i] && b[k] == ab[k + |a|];
      }
    }
  }

  lemma AvoidsConcat(a: seq<nat>, b: seq<nat>, vis: set<nat>)
    ensures Avoids(a + b, vis) <==> Avoids(a, vis) && Avoids(b, vis)
  {
    assert forall k :: 0 <= k < |a| ==> (a + b)[k] == a[k];
    assert forall k :: 0 <= k < |b| ==> (a + b)[k + |a|] == b[k];
  }

  lemma AvoidsUnion(s: seq<nat>, v: set<nat>, w: set<nat>)
    ensures Avoids(s, v + w) <==> Avoids(s, v) && Avoids(s, w)
  {
  }

  /** isAcyclicDFS returns false exactly when the pre-order walk from `i` reaches a
      node twice or a node already marked; when it returns true it has marked every
      node of the listing. */
  lemma {:induction false} DfsMatchesPreOrder(adj: seq<seq<nat>>, i: nat, vis: set<nat>, fuel: nat)
    requires ValidAdj(adj) && i < |adj| && vis <= Indices(|adj|)
    requires PreOrder(adj, i, fuel).Some?
    ensures Dfs(adj, i, vis).0 ==
              (Distinct(PreOrder(adj, i, fuel).value) && Avoids(PreOrder(adj, i, fuel).value, vis))
    ensures Dfs(adj, i, vis).0 ==> Dfs(adj, i, vis).1 == vis + Elems(PreOrder(adj, i, fuel).value)
    decreases fuel, 0
  {
    var l := PreOrder(adj, i, fuel).value;
    var tail := PreOrderList(adj, adj[i], fuel - 1).value;
    assert l == [i] + tail;
    DistinctConcat([i], tail);
    AvoidsConcat([i], tail, vis);
    assert Elems([i]) == {i};
    assert Distinct([i]);
    assert Avoids([i], vis) <==> i !in vis;
    assert Elems(l) == {i} + Elems(tail);
    if i !in vis {
      DfsListMatchesPreOrder(adj, adj[i], vis + {i}, fuel - 1);
      assert Avoids(tail, vis + {i}) <==> Avoids(tail, vis) && Avoids(tail, {i});
    }
  }

  lemma {:induction false} DfsListMatchesPreOrder(adj: seq<seq<nat>>, cs: seq<nat>, vis: set<nat>, fuel: nat)
    requires ValidAdj(adj) && AllBelow(cs, |adj|) && vis <= Indices(|adj|)
    requires PreOrderList(adj, cs, fuel).Some?
    ensures DfsList(adj, cs, vis).0 ==
              (Distinct(PreOrderList(adj, cs, fuel).value) && Avoids(PreOrderList(adj, cs, fuel).value, vis))
    ensures DfsList(adj, cs, vis).0 ==>
              DfsList(adj, cs, vis).1 == vis + Elems(PreOrderList(adj, cs, fuel).value)
    decreases fuel, |cs|
  {
    if cs != [] {
      var l0 := PreOrder(adj, cs[0], fuel).value;
      var l1 := PreOrderList(adj, cs[1..], fuel).value;
      assert PreOrderList(adj, cs, fuel).value == l0 + l1;
      DistinctConcat(l0, l1);
      DfsMatchesPreOrder(adj, cs[0], vis, fuel);
      var first := Dfs(adj, cs[0], vis);
      AvoidsConcat(l0, l1, vis);
      if first.0 {
        DfsListMatchesPreOrder(adj, cs[1..], first.1, fuel);
        assert Elems(l0 + l1) == Elems(l0) + Elems(l1);
        AvoidsUnion(l1, vis, Elems(l0));
      }
    }
  }
}
