/** NewPartitionTree and copyTree: a partition tree with the shape of a plain
    tree, every size zero. The copies are allocated in the order copyTree creates
    them, which is the pre-order of the plain tree, so the copy of the k-th
    listed node sits at arena index k. */
module PartitionCopy {
  import opened Results
  import opened Seqs
  import Chains
  import opened Traversal
  import Forest
  import PlainTree
  import opened PartitionTree
  import opened PartitionInvariant
  import opened PartitionReach
  import opened InitialSize

  /** copyTree(node `i`, parent): the copies of `i`'s subtree, allocated from
      arena index `base` on, the copy of `i` first with `parent` as its Parent.
      None when the recursion would not return. */
  function CopyNode(t: PlainTree.Tree, i: nat, parent: int, base: nat, fuel: nat): (r: Option<Arena>)
    requires PlainTree.WellIndexed(t) && i < |t|
    ensures r.Some? ==> |r.value| > 0 && r.value[0].name == t[i].name && r.value[0].parent == parent
    ensures r.Some? ==> r.value[0].nodeSize == 0 && r.value[0].subTreeSize == 0
    ensures r.Some? ==> |r.value[0].children| == |t[i].children|
    decreases fuel, 0
  {
    if fuel == 0 then None
    else match CopyList(t, t[i].children, base, base + 1, fuel - 1)
      case None => None
      case Some(res) => Some([PartitionNode(t[i].name, parent, res.0, 0, 0)] + res.1)
  }

  /** The loop of copyTree over the children `cs` of the node copied at `parent`:
      the indices of the children's copies, in order, and all the copies made. */
  function CopyList(t: PlainTree.Tree, cs: seq<nat>, parent: nat, base: nat, fuel: nat)
    : (r: Option<(seq<nat>, Arena)>)
    requires PlainTree.WellIndexed(t) && AllBelow(cs, |t|)
    ensures r.Some? ==> |r.value.0| == |cs|
    ensures r.Some? && cs != [] ==> r.value.0[0] == base && |r.value.1| > 0 && r.value.1[0].parent == parent
    decreases fuel, |cs|
  {
    if cs == [] then Some(([], []))
    else match CopyNode(t, cs[0], parent, base, fuel)
      case None => None
      case Some(n0) =>
        match CopyList(t, cs[1..], parent, base + |n0|, fuel)
        case None => None
        case Some(rest) => Some(([base] + rest.0, n0 + rest.1))
  }

  // ---------------------------------------------------------------- the copy relation

  /** Position `k` of the copies `s`, allocated from index `base`, copies the
      plain node `l[k]`: same name, sizes zero, the m-th child is the copy of the
      original's m-th child, allocated after it, and names it as Parent; the
      Parent is allocated before it and lists it, unless it is the outside node
      `p`, whose list of copies is `kids`. */
  predicate CopiedAt(t: PlainTree.Tree, l: seq<nat>, s: Arena, base: nat, p: int, kids: seq<nat>, k: nat)
    requires |s| == |l| && AllBelow(l, |t|) && k < |s|
  {
    && s[k].name == t[l[k]].name
    && s[k].nodeSize == 0 && s[k].subTreeSize == 0
    && |s[k].children| == |t[l[k]].children|
    && (forall m, n :: 0 <= m < n < |s[k].children| ==> s[k].children[m] < s[k].children[n])
    && (forall m :: 0 <= m < |s[k].children| ==>
          && base + k < s[k].children[m] < base + |s|
          && l[s[k].children[m] - base] == t[l[k]].children[m]
          && s[s[k].children[m] - base].parent == base + k)
    && ((s[k].parent == p && base + k in kids) ||
        (base <= s[k].parent < base + k && base + k in s[s[k].parent - base].children))
  }

  predicate Copied(t: PlainTree.Tree, l: seq<nat>, s: Arena, base: nat, p: int, kids: seq<nat>) {
    && |s| == |l| && AllBelow(l, |t|)
    && forall k :: 0 <= k < |s| ==> CopiedAt(t, l, s, base, p, kids, k)
  }

  /** `kids` are the copies of the nodes `cs`, in increasing index order, each
      naming `p` as Parent. */
  predicate KidsOf(l: seq<nat>, s: Arena, base: nat, p: int, cs: seq<nat>, kids: seq<nat>)
    requires |s| == |l|
  {
    && |kids| == |cs|
    && (forall m, n :: 0 <= m < n < |kids| ==> kids[m] < kids[n])
    && forall m :: 0 <= m < |kids| ==>
         base <= kids[m] < base + |s| && l[kids[m] - base] == cs[m] && s[kids[m] - base].parent == p
  }

  /** Copies made one after the other stay copies when put side by side. */
  lemma CopiedConcatLeft(t: PlainTree.Tree, l0: seq<nat>, s0: Arena, l1: seq<nat>, s1: Arena,
                         base: nat, p: int, kids0: seq<nat>, kids1: seq<nat>, k: nat)
    requires |s0| == |l0| && AllBelow(l0, |t|) && |s1| == |l1| && AllBelow(l1, |t|)
    requires k < |s0| && CopiedAt(t, l0, s0, base, p, kids0, k)
    ensures |s0 + s1| == |l0 + l1| && AllBelow(l0 + l1, |t|)
    ensures CopiedAt(t, l0 + l1, s0 + s1, base, p, kids0 + kids1, k)
  {
    var s, l := s0 + s1, l0 + l1;
    assert s[k] == s0[k] && l[k] == l0[k];
    forall m | 0 <= m < |s[k].children|
      ensures s[s[k].children[m] - base] == s0[s[k].children[m] - base]
      ensures l[s[k].children[m] - base] == l0[s[k].children[m] - base]
    {
    }
    if s[k].parent != p {
      assert s[s[k].parent - base] == s0[s[k].parent - base];
    }
  }

  lemma CopiedConcatRight(t: PlainTree.Tree, l0: seq<nat>, s0: Arena, l1: seq<nat>, s1: Arena,
                          base: nat, p: int, kids0: seq<nat>, kids1: seq<nat>, k: nat)
    requires |s0| == |l0| && AllBelow(l0, |t|) && |s1| == |l1| && AllBelow(l1, |t|)
    requires p < base && k < |s1| && CopiedAt(t, l1, s1, base + |s0|, p, kids1, k)
    ensures |s0 + s1| == |l0 + l1| && AllBelow(l0 + l1, |t|)
    ensures CopiedAt(t, l0 + l1, s0 + s1, base, p, kids0 + kids1, |s0| + k)
  {
    var s, l := s0 + s1, l0 + l1;
    var k' := |s0| + k;
    assert s[k'] == s1[k] && l[k'] == l1[k];
    forall m | 0 <= m < |s[k'].children|
      ensures s[s[k'].children[m] - base] == s1[s[k'].children[m] - base - |s0|]
      ensures l[s[k'].children[m] - base] == l1[s[k'].children[m] - base - |s0|]
    {
    }
    if s[k'].parent != p {
      assert s[s[k'].parent - base] == s1[s[k'].parent - base - |s0|];
    }
  }

  lemma CopiedConcat(t: PlainTree.Tree, l0: seq<nat>, s0: Arena, l1: seq<nat>, s1: Arena,
                     base: nat, p: int, kids0: seq<nat>, kids1: seq<nat>)
    requires Copied(t, l0, s0, base, p, kids0) && Copied(t, l1, s1, base + |s0|, p, kids1)
    requires p < base
    ensures Copied(t, l0 + l1, s0 + s1, base, p, kids0 + kids1)
  {
    forall k | 0 <= k < |s0| + |s1|
      ensures CopiedAt(t, l0 + l1, s0 + s1, base, p, kids0 + kids1, k)
    {
      if k < |s0| {
        CopiedConcatLeft(t, l0, s0, l1, s1, base, p, kids0, kids1, k);
      } else {
        CopiedConcatRight(t, l0, s0, l1, s1, base, p, kids0, kids1, k - |s0|);
      }
    }
  }

  /** The copy of a node, put in front of the copies of its children. */
  lemma CopiedConsHead(t: PlainTree.Tree, i: nat, parent: int, base: nat,
                       l: seq<nat>, nodes: Arena, kids: seq<nat>)
    requires PlainTree.WellIndexed(t) && i < |t| && |nodes| == |l| && AllBelow(l, |t|)
    requires KidsOf(l, nodes, base + 1, base, t[i].children, kids)
    ensures |[PartitionNode(t[i].name, parent, kids, 0, 0)] + nodes| == |[i] + l|
    ensures AllBelow([i] + l, |t|)
    ensures CopiedAt(t, [i] + l, [PartitionNode(t[i].name, parent, kids, 0, 0)] + nodes,
                     base, parent, [base], 0)
  {
    var s := [PartitionNode(t[i].name, parent, kids, 0, 0)] + nodes;
    var l' := [i] + l;
    forall m | 0 <= m < |kids|
      ensures s[kids[m] - base] == nodes[kids[m] - base - 1]
      ensures l'[kids[m] - base] == l[kids[m] - base - 1]
    {
    }
  }

  /** The copies of the children, behind the copy of their parent. */
  lemma CopiedConsTail(t: PlainTree.Tree, i: nat, parent: int, base: nat,
                       l: seq<nat>, nodes: Arena, kids: seq<nat>, k: nat)
    requires PlainTree.WellIndexed(t) && i < |t| && |nodes| == |l| && AllBelow(l, |t|)
    requires k < |nodes| && CopiedAt(t, l, nodes, base + 1, base, kids, k)
    ensures |[PartitionNode(t[i].name, parent, kids, 0, 0)] + nodes| == |[i] + l|
    ensures AllBelow([i] + l, |t|)
    ensures CopiedAt(t, [i] + l, [PartitionNode(t[i].name, parent, kids, 0, 0)] + nodes,
                     base, parent, [base], k + 1)
  {
    var s := [PartitionNode(t[i].name, parent, kids, 0, 0)] + nodes;
    var l' := [i] + l;
    var j := k + 1;
    assert s[j] == nodes[k] && l'[j] == l[k];
    var cs := s[j].children;
    forall m | 0 <= m < |cs|
      ensures s[cs[m] - base] == nodes[cs[m] - base - 1]
      ensures l'[cs[m] - base] == l[cs[m] - base - 1]
    {
    }
    if s[j].parent != base {
      assert s[s[j].parent - base] == nodes[s[j].parent - base - 1];
    }
  }

  // ---------------------------------------------------------------- copy = listing

  /** copyTree copies exactly the nodes of the pre-order listing, each into the
      arena index of its position: it returns whenever the listing is defined,
      and the copies keep names, child order and the child-parent links. */
  lemma {:induction false} CopyNodeMirrors(t: PlainTree.Tree, i: nat, parent: int, base: nat, fuel: nat)
    requires PlainTree.WellIndexed(t) && i < |t| && -1 <= parent < base
    ensures CopyNode(t, i, parent, base, fuel).Some? <==> PreOrder(PlainTree.ChildLists(t), i, fuel).Some?
    ensures CopyNode(t, i, parent, base, fuel).Some? ==>
              Copied(t, PreOrder(PlainTree.ChildLists(t), i, fuel).value,
                     CopyNode(t, i, parent, base, fuel).value, base, parent, [base])
    decreases fuel, 0
  {
    PlainTree.WellIndexedLinks(t);
    var adj := PlainTree.ChildLists(t);
    if fuel > 0 {
      CopyListMirrors(t, t[i].children, base, base + 1, fuel - 1);
      var res := CopyList(t, t[i].children, base, base + 1, fuel - 1);
      if res.Some? {
        var l := PreOrderList(adj, adj[i], fuel - 1).value;
        var (kids, nodes) := res.value;
        CopiedConsHead(t, i, parent, base, l, nodes, kids);
        forall k | 0 < k <= |nodes|
          ensures CopiedAt(t, [i] + l, [PartitionNode(t[i].name, parent, kids, 0, 0)] + nodes,
                           base, parent, [base], k)
        {
          CopiedConsTail(t, i, parent, base, l, nodes, kids, k - 1);
        }
      }
    }
  }

  lemma {:induction false} CopyListMirrors(t: PlainTree.Tree, cs: seq<nat>, parent: nat, base: nat, fuel: nat)
    requires PlainTree.WellIndexed(t) && AllBelow(cs, |t|) && parent < base
    ensures CopyList(t, cs, parent, base, fuel).Some? <==> PreOrderList(PlainTree.ChildLists(t), cs, fuel).Some?
    ensures CopyList(t, cs, parent, base, fuel).Some? ==>
              var (kids, nodes) := CopyList(t, cs, parent, base, fuel).value;
              var l := PreOrderList(PlainTree.ChildLists(t), cs, fuel).value;
              Copied(t, l, nodes, base, parent, kids) && KidsOf(l, nodes, base, parent, cs, kids)
    decreases fuel, |cs|
  {
    PlainTree.WellIndexedLinks(t);
    var adj := PlainTree.ChildLists(t);
    if cs != [] {
      CopyNodeMirrors(t, cs[0], parent, base, fuel);
      var n0 := CopyNode(t, cs[0], parent, base, fuel);
      if n0.Some? {
        var s0 := n0.value;
        CopyListMirrors(t, cs[1..], parent, base + |s0|, fuel);
        var rest := CopyList(t, cs[1..], parent, base + |s0|, fuel);
        if rest.Some? {
          var l0 := PreOrder(adj, cs[0], fuel).value;
          var l1 := PreOrderList(adj, cs[1..], fuel).value;
          var (kids1, s1) := rest.value;
          CopiedConcat(t, l0, s0, l1, s1, base, parent, [base], kids1);
          KidsCons(t, cs, l0, s0, l1, s1, base, parent, kids1);
        }
      }
    }
  }

  /** The list of copies of `cs`: the first child's copy at `base`, then those of
      the others. */
  lemma KidsCons(t: PlainTree.Tree, cs: seq<nat>, l0: seq<nat>, s0: Arena, l1: seq<nat>, s1: Arena,
                 base: nat, p: int, kids1: seq<nat>)
    requires cs != [] && |s0| == |l0| > 0 && l0[0] == cs[0] && |s1| == |l1|
    requires s0[0].parent == p
    requires KidsOf(l1, s1, base + |s0|, p, cs[1..], kids1)
    ensures KidsOf(l0 + l1, s0 + s1, base, p, cs, [base] + kids1)
  {
    var kids := [base] + kids1;
    forall m | 0 <= m < |kids|
      ensures base <= kids[m] < base + |s0 + s1|
      ensures (l0 + l1)[kids[m] - base] == cs[m] && (s0 + s1)[kids[m] - base].parent == p
    {
      if m > 0 {
        assert kids[m] == kids1[m - 1];
        assert cs[m] == cs[1..][m - 1];
      }
    }
  }

  // ---------------------------------------------------------------- NewPartitionTree

  /** NewPartitionTree: the copy of the plain tree below `root`, whose copy is
      the partition root at index 0. */
  function NewPartitionTree(t: PlainTree.Tree, root: nat): (r: Result<Arena>)
    requires PlainTree.WellIndexed(t) && root < |t|
    ensures r.Success? <==> PreOrder(PlainTree.ChildLists(t), root, |t|).Some?
    ensures r.Failure? ==> r.error == Unbounded
    ensures r.Success? ==> Copied(t, PreOrder(PlainTree.ChildLists(t), root, |t|).value, r.value, 0, -1, [0])
  {
    CopyNodeMirrors(t, root, -1, 0, |t|);
    match CopyNode(t, root, -1, 0, |t|)
    case None => Failure(Unbounded)
    case Some(a) => Success(a)
  }

  // ---------------------------------------------------------------- the copy is a tree

  /** Node 0 has no parent; every other node's Parent was allocated before it and
      lists it. */
  predicate ParentsFirst(a: Arena) {
    && |a| > 0 && a[0].parent == -1
    && forall k :: 0 < k < |a| ==> 0 <= a[k].parent < k && k in a[a[k].parent].children
  }

  /** With every SubTreeSize zero, every sum over a child list is zero. */
  lemma {:induction false} SumZero(a: Arena, cs: seq<nat>)
    requires forall k :: 0 <= k < |cs| ==> cs[k] < |a| && a[cs[k]].subTreeSize == 0
    ensures SumSizes(a, cs) == 0
    decreases |cs|
  {
    if cs != [] {
      SumZero(a, cs[1..]);
    }
  }

  /** A whole copy, made from the partition root at index 0, is a well-linked
      tree with parents first, and with all sizes zero its sizes are consistent. */
  lemma CopyIsTree(t: PlainTree.Tree, l: seq<nat>, a: Arena)
    requires Copied(t, l, a, 0, -1, [0]) && |a| > 0
    ensures PointsBack(a) && ParentsFirst(a) && SizesConsistent(a)
  {
    forall k | 0 <= k < |a|
      ensures -1 <= a[k].parent < |a| && a[k].subTreeSize == 0
      ensures k > 0 ==> 0 <= a[k].parent < k && k in a[a[k].parent].children
      ensures forall m :: 0 <= m < |a[k].children| ==>
                a[k].children[m] < |a| && a[a[k].children[m]].parent == k
      ensures Distinct(a[k].children)
    {
      assert CopiedAt(t, l, a, 0, -1, [0], k);
      assert k in [0] ==> k == 0;
    }
    assert a[0].parent == -1 by {
      assert CopiedAt(t, l, a, 0, -1, [0], 0);
    }
    assert WellIndexed(a);
    forall j | 0 <= j < |a|
      ensures a[j].subTreeSize == a[j].nodeSize + SumSizes(a, a[j].children)
    {
      assert CopiedAt(t, l, a, 0, -1, [0], j);
      SumZero(a, a[j].children);
    }
  }

  /** Parents first: no parent cycle, and every node hangs below node 0 through
      live child links. */
  lemma ParentsFirstIsRooted(a: Arena, x: nat)
    requires PointsBack(a) && ParentsFirst(a) && x < |a|
    ensures Acyclic(a) && Attached(a, x) && 0 in Chain(a, x)
  {
    Chains.DescendingIsAcyclic(Parents(a));
    var c := Chain(a, x);
    ChainBasics(a, x);
    forall m | 0 < m < |c|
      ensures c[m - 1] in a[c[m]].children
    {
      Chains.ChainLinks(Parents(a), x, m - 1);
    }
    Chains.ChainLinks(Parents(a), x, |c| - 1);
    assert c[|c| - 1] == 0;
  }

  /** NewPartitionTree makes a well-linked acyclic tree rooted at index 0 whose
      SubTreeSizes are consistent, every node hanging below the root. */
  lemma NewPartitionTreeIsTree(t: PlainTree.Tree, root: nat)
    requires PlainTree.WellIndexed(t) && root < |t| && NewPartitionTree(t, root).Success?
    ensures var a := NewPartitionTree(t, root).value;
            && |a| > 0 && a[0].parent == -1 && a[0].name == t[root].name
            && PointsBack(a) && Acyclic(a) && SizesConsistent(a)
            && forall x :: 0 <= x < |a| ==> Attached(a, x) && 0 in Chain(a, x)
  {
    PlainTree.WellIndexedLinks(t);
    var l := PreOrder(PlainTree.ChildLists(t), root, |t|).value;
    var a := NewPartitionTree(t, root).value;
    CopyIsTree(t, l, a);
    assert CopiedAt(t, l, a, 0, -1, [0], 0);
    forall x | 0 <= x < |a|
      ensures Attached(a, x) && 0 in Chain(a, x)
    {
      ParentsFirstIsRooted(a, x);
    }
    ParentsFirstIsRooted(a, 0);
  }

  /** The names the copy holds are those of the listed plain nodes. */
  function ListedNames(t: PlainTree.Tree, l: seq<nat>): set<string>
    requires AllBelow(l, |t|)
  {
    set x | x in l :: t[x].name
  }

  /** The partition listing from the root of a copy visits every node. */
  lemma CopyListingAll(t: PlainTree.Tree, root: nat)
    requires PlainTree.WellIndexed(t) && root < |t| && NewPartitionTree(t, root).Success?
    ensures var a := NewPartitionTree(t, root).value;
            && |a| > 0 && WellIndexed(a) && Listing(a, 0).Some?
            && forall x :: 0 <= x < |a| ==> x in Listing(a, 0).value
  {
    var a := NewPartitionTree(t, root).value;
    PlainTree.WellIndexedLinks(t);
    CopyIsTree(t, PreOrder(PlainTree.ChildLists(t), root, |t|).value, a);
    ParentsFirstIsRooted(a, 0);
    ForestView(a);
    var parents, adj := Parents(a), ChildLists(a);
    forall x | 0 <= x < |parents| && parents[x] != -1
      ensures x in adj[parents[x]]
    {
      assert x != 0;
    }
    Forest.ListingExact(parents, adj, 0);
    forall x | 0 <= x < |a|
      ensures 0 in Chains.Chain(parents, x)
    {
      ParentsFirstIsRooted(a, x);
    }
  }

  /** Every name of a listed plain node is the name of one of its copies. */
  lemma CopyNames(t: PlainTree.Tree, l: seq<nat>, a: Arena, order: seq<nat>)
    requires Copied(t, l, a, 0, -1, [0])
    requires forall k :: 0 <= k < |order| ==> order[k] < |a|
    requires forall x :: 0 <= x < |a| ==> x in order
    ensures ListedNames(t, l) <= NamesOf(a, order)
  {
    forall y | y in l
      ensures t[y].name in NamesOf(a, order)
    {
      var k :| 0 <= k < |l| && l[k] == y;
      assert CopiedAt(t, l, a, 0, -1, [0], k);
      assert k in order;
    }
  }

  lemma NamesKnownWider(days: seq<Day>, names: set<string>, more: set<string>)
    requires NamesKnown(days, names) && names <= more
    ensures NamesKnown(days, more)
  {
  }

  /** A fresh partition tree can be seeded by SetInitialSize with any days whose
      names are names of the plain tree below the root; the sizes stay consistent
      and the root then holds the total of the applied days. */
  lemma NewPartitionTreeSeeds(t: PlainTree.Tree, root: nat, days: seq<Day>, initDays: int)
    requires PlainTree.WellIndexed(t) && root < |t| && NewPartitionTree(t, root).Success?
    requires NamesKnown(DaysApplied(days, initDays),
               ListedNames(t, PreOrder(PlainTree.ChildLists(t), root, |t|).value))
    ensures var a := NewPartitionTree(t, root).value;
            && |a| > 0 && WellIndexed(a) && a[0].parent == -1 && a[0].subTreeSize == 0
            && CanSeed(a, 0, days, initDays)
    ensures var a := NewPartitionTree(t, root).value;
            && SetInitialSize(a, 0, days, initDays).Success?
            && SizesConsistent(SetInitialSize(a, 0, days, initDays).value)
            && SetInitialSize(a, 0, days, initDays).value[0].subTreeSize ==
                 DaysTotal(DaysApplied(days, initDays))
            && SetInitialSize(a, 0, days, initDays).value[0].subTreeSize ==
                 TotalNodeSize(SetInitialSize(a, 0, days, initDays).value)
  {
    PlainTree.WellIndexedLinks(t);
    var l := PreOrder(PlainTree.ChildLists(t), root, |t|).value;
    var a := NewPartitionTree(t, root).value;
    NewPartitionTreeIsTree(t, root);
    CopyListingAll(t, root);
    var order := Listing(a, 0).value;
    CopyNames(t, l, a, order);
    NamesKnownWider(DaysApplied(days, initDays), ListedNames(t, l), NamesOf(a, order));
    SetInitialSizeKeepsSizes(a, 0, days, initDays);
    CopyTotalZero(t, root);
    var r := SetInitialSize(a, 0, days, initDays);
    assert TotalNodeSize(r.value) == TotalNodeSize(a) + DaysTotal(DaysApplied(days, initDays));
  }

  /** The copy's own sizes add up to zero. */
  lemma CopyTotalZero(t: PlainTree.Tree, root: nat)
    requires PlainTree.WellIndexed(t) && root < |t| && NewPartitionTree(t, root).Success?
    ensures TotalNodeSize(NewPartitionTree(t, root).value) == 0
  {
    var l := PreOrder(PlainTree.ChildLists(t), root, |t|).value;
    var a := NewPartitionTree(t, root).value;
    forall k | 0 <= k < |a|
      ensures a[k].nodeSize == 0
    {
      assert CopiedAt(t, l, a, 0, -1, [0], k);
    }
    TotalZero(a);
  }

  /** A copy starts with every own size zero. */
  lemma {:induction false} TotalZero(a: Arena)
    requires forall k :: 0 <= k < |a| ==> a[k].nodeSize == 0
    ensures TotalNodeSize(a) == 0
    decreases |a|
  {
    if a != [] {
      TotalZero(a[1..]);
    }
  }

  /** A tree NewTree accepts is always copied: copyTree returns, with one copy
      per node AllNodes lists. */
  lemma NewTreeCopies(edges: seq<PlainTree.Edge>)
    requires PlainTree.NewTree(edges).Success?
    ensures var (t, root) := PlainTree.NewTree(edges).value;
            && PlainTree.WellIndexed(t) && root < |t|
            && PlainTree.AllNodes(t, root).Success?
            && NewPartitionTree(t, root).Success?
            && |NewPartitionTree(t, root).value| == |PlainTree.AllNodes(t, root).value|
  {
    var (t, root) := PlainTree.NewTree(edges).value;
    var b := PlainTree.Build(edges);
    assert PlainTree.ValidateTree(b.nodes, b.root) == Success(true);
  }
}
