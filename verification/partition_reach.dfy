/** What a traversal of the partition tree from a node reaches: on a tree whose
    child lists point back (every listed child names its lister as parent) and
    whose parent links have no cycle, the pre-order listing of tree/tree.go's
    recursive walks is always defined, and every node it lists hangs below the
    start node through live child links. */
module PartitionReach {
  import opened Results
  import opened Seqs
  import Chains
  import Traversal
  import Forest
  import opened PartitionTree
  import opened PartitionInvariant

  /** The order in which mapNameToPartitionNodeFunc (and copyTree) visit the nodes
      below `i`; None when the recursion would not return. */
  function Listing(a: Arena, i: nat): (r: Option<seq<nat>>)
    requires WellIndexed(a) && i < |a|
    ensures r.Some? ==> |r.value| > 0 && r.value[0] == i
    ensures r.Some? ==> forall k :: 0 <= k < |r.value| ==> r.value[k] < |a|
  {
    WellIndexedLinks(a);
    Traversal.PreOrder(ChildLists(a), i, |a|)
  }

  /** A listed child of `q` has `q`'s chain behind it, one node longer. */
  lemma ChildChain(a: Arena, q: nat, c: nat)
    requires PointsBack(a) && Acyclic(a) && q < |a| && c in a[q].children
    ensures c < |a| && a[c].parent == q
    ensures Chain(a, c) == [c] + Chain(a, q)
    ensures Attached(a, q) ==> Attached(a, c)
  {
    var k :| 0 <= k < |a[q].children| && a[q].children[k] == c;
    assert a[c].parent == q;
    Chains.ChainCons(Parents(a), c);
    var cc := Chain(a, c);
    if Attached(a, q) {
      forall m | 0 < m < |cc|
        ensures cc[m - 1] in a[cc[m]].children
      {
        if m > 1 {
          assert cc[m - 1] == Chain(a, q)[m - 2] && cc[m] == Chain(a, q)[m - 1];
        }
      }
    }
  }

  /** A node without a parent is trivially attached: its chain is itself. */
  lemma RootAttached(a: Arena, root: nat)
    requires Acyclic(a) && root < |a| && a[root].parent == -1
    ensures Chain(a, root) == [root]
    ensures Attached(a, root)
  {
    ChainBasics(a, root);
    Chains.ChainLinks(Parents(a), root, 0);
  }

  /** Every node listed from an attached node `i` is attached and has `i` on its
      chain, that is, lies in `i`'s subtree. */
  lemma {:induction false} ListedBelow(a: Arena, i: nat, fuel: nat)
    requires PointsBack(a) && Acyclic(a) && i < |a| && Attached(a, i)
    requires Traversal.ValidAdj(ChildLists(a))
    requires Traversal.PreOrder(ChildLists(a), i, fuel).Some?
    ensures forall x :: x in Traversal.PreOrder(ChildLists(a), i, fuel).value ==>
              x < |a| && Attached(a, x) && i in Chain(a, x)
    decreases fuel, 0
  {
    var l := Traversal.PreOrder(ChildLists(a), i, fuel).value;
    var tail := Traversal.PreOrderList(ChildLists(a), a[i].children, fuel - 1).value;
    assert l == [i] + tail;
    ListedListBelow(a, i, a[i].children, fuel - 1);
    ChainBasics(a, i);
  }

  lemma {:induction false} ListedListBelow(a: Arena, q: nat, cs: seq<nat>, fuel: nat)
    requires PointsBack(a) && Acyclic(a) && q < |a| && Attached(a, q)
    requires Traversal.ValidAdj(ChildLists(a)) && Traversal.AllBelow(cs, |a|)
    requires forall c :: c in cs ==> c in a[q].children
    requires Traversal.PreOrderList(ChildLists(a), cs, fuel).Some?
    ensures forall x :: x in Traversal.PreOrderList(ChildLists(a), cs, fuel).value ==>
              x < |a| && Attached(a, x) && q in Chain(a, x)
    decreases fuel, |cs|
  {
    if cs != [] {
      var c := cs[0];
      var l0 := Traversal.PreOrder(ChildLists(a), c, fuel).value;
      var l1 := Traversal.PreOrderList(ChildLists(a), cs[1..], fuel).value;
      ChildChain(a, q, c);
      ListedBelow(a, c, fuel);
      ListedListBelow(a, q, cs[1..], fuel);
      forall x | x in l0
        ensures q in Chain(a, x)
      {
        var m :| 0 <= m < |Chain(a, x)| && Chain(a, x)[m] == c;
        Chains.ChainSuffix(Parents(a), x, m);
        assert Chain(a, c)[1] == q;
      }
    }
  }

  /** The partition tree's links, seen as parent links and child lists. */
  lemma ForestView(a: Arena)
    requires PointsBack(a)
    ensures Forest.PointsBack(Parents(a), ChildLists(a))
  {
    WellIndexedLinks(a);
  }

  /** From any node of a well-linked acyclic tree the listing is defined, and it
      holds exactly nodes hanging below the start node. */
  lemma ListingDefined(a: Arena, i: nat)
    requires PointsBack(a) && Acyclic(a) && i < |a| && Attached(a, i)
    ensures Listing(a, i).Some?
    ensures forall x :: x in Listing(a, i).value ==> Attached(a, x) && i in Chain(a, x)
  {
    ForestView(a);
    Forest.Defined(Parents(a), ChildLists(a), i);
    ListedBelow(a, i, |a|);
  }
}
