/** The subtree-sum invariant of the partition tree and how each primitive of
    tree/tree.go keeps it: AddToNodeSize, RemoveChild and AppendChild applied to a
    node whose parent chain is made of live child links. */
module PartitionInvariant {
  import opened Seqs
  import Chains
  import opened PartitionTree

  lemma ChainBasics(a: Arena, i: nat)
    requires Acyclic(a) && i < |a|
    ensures |Chain(a, i)| > 0 && Chain(a, i)[0] == i && Distinct(Chain(a, i))
    ensures forall k :: 0 <= k < |Chain(a, i)| ==> Chain(a, i)[k] < |a|
  {
  }

  /** A child of `j` lies on `i`'s chain only when `j` is a proper ancestor of `i`
      on that chain. */
  lemma ChainChildOwner(a: Arena, i: nat, j: nat)
    requires PointsBack(a) && Acyclic(a) && i < |a| && j < |a|
    ensures forall y :: y in a[j].children && y in Chain(a, i) ==> j in Chain(a, i) && j != i
  {
    var c := Chain(a, i);
    forall y | y in a[j].children && y in c
      ensures j in c && j != i
    {
      var k :| 0 <= k < |c| && c[k] == y;
      var kk :| 0 <= kk < |a[j].children| && a[j].children[kk] == y;
      assert a[y].parent == j;
      Chains.ChainLinks(Parents(a), i, k);
      assert c[k + 1] == j;
      assert c[0] == i;
    }
  }

  /** On an attached chain, the node below an ancestor is that ancestor's only
      child on the chain. */
  lemma ChainChildUnique(a: Arena, i: nat, m: nat)
    requires PointsBack(a) && Acyclic(a) && i < |a| && Attached(a, i)
    requires 0 < m < |Chain(a, i)|
    ensures Chain(a, i)[m - 1] in a[Chain(a, i)[m]].children
    ensures forall y :: y in a[Chain(a, i)[m]].children && y in Chain(a, i) ==> y == Chain(a, i)[m - 1]
  {
    var c := Chain(a, i);
    forall y | y in a[c[m]].children && y in c
      ensures y == c[m - 1]
    {
      var k :| 0 <= k < |c| && c[k] == y;
      var kk :| 0 <= kk < |a[c[m]].children| && a[c[m]].children[kk] == y;
      assert a[y].parent == c[m];
      Chains.ChainLinks(Parents(a), i, k);
      assert c[k + 1] == c[m];
    }
  }

  /** A node whose parent field names `p` is not on `p`'s chain. */
  lemma ChildOffChain(a: Arena, p: nat, c: nat)
    requires Acyclic(a) && p < |a| && c < |a| && a[c].parent == p
    ensures c !in Chain(a, p)
  {
    Chains.ChainCons(Parents(a), c);
    var cc := Chain(a, c);
    var cp := Chain(a, p);
    assert cc == [c] + cp;
    assert Distinct(cc);
    forall k | 0 <= k < |cp|
      ensures cp[k] != c
    {
      assert cp[k] == cc[k + 1] && c == cc[0];
    }
  }

  lemma {:induction false} SumFrame(a: Arena, r: Arena, cs: seq<nat>)
    requires forall k :: 0 <= k < |cs| ==> cs[k] < |a| && cs[k] < |r|
    requires forall k :: 0 <= k < |cs| ==> r[cs[k]].subTreeSize == a[cs[k]].subTreeSize
    ensures SumSizes(r, cs) == SumSizes(a, cs)
  {
    if cs != [] {
      SumFrame(a, r, cs[1..]);
    }
  }

  lemma {:induction false} SumShiftOne(a: Arena, r: Arena, cs: seq<nat>, x: nat, d: int)
    requires forall k :: 0 <= k < |cs| ==> cs[k] < |a| && cs[k] < |r|
    requires Distinct(cs) && x in cs
    requires r[x].subTreeSize == a[x].subTreeSize + d
    requires forall k :: 0 <= k < |cs| && cs[k] != x ==> r[cs[k]].subTreeSize == a[cs[k]].subTreeSize
    ensures SumSizes(r, cs) == SumSizes(a, cs) + d
  {
    if cs[0] == x {
      assert forall k :: 0 <= k < |cs[1..]| ==> cs[1..][k] == cs[k + 1] != x;
      SumFrame(a, r, cs[1..]);
    } else {
      assert x in cs[1..];
      SumShiftOne(a, r, cs[1..], x, d);
    }
  }

  lemma {:induction false} SumConcat(a: Arena, s: seq<nat>, t: seq<nat>)
    requires forall k :: 0 <= k < |s| ==> s[k] < |a|
    requires forall k :: 0 <= k < |t| ==> t[k] < |a|
    ensures SumSizes(a, s + t) == SumSizes(a, s) + SumSizes(a, t)
  {
    if s != [] {
      assert (s + t)[1..] == s[1..] + t;
      SumConcat(a, s[1..], t);
    } else {
      assert s + t == t;
    }
  }

  lemma {:induction false} SumRemoveFirst(a: Arena, cs: seq<nat>, c: nat)
    requires forall k :: 0 <= k < |cs| ==> cs[k] < |a|
    requires c in cs
    ensures SumSizes(a, RemoveFirst(cs, c)) == SumSizes(a, cs) - a[c].subTreeSize
  {
    RemoveFirstCons(cs, c);
    if cs[0] != c {
      assert c in cs[1..];
      SumRemoveFirst(a, cs[1..], c);
      var r := RemoveFirst(cs[1..], c);
      assert ([cs[0]] + r)[1..] == r;
    }
  }

  lemma SumAppend(a: Arena, cs: seq<nat>, c: nat)
    requires forall k :: 0 <= k < |cs| ==> cs[k] < |a|
    requires c < |a|
    ensures SumSizes(a, cs + [c]) == SumSizes(a, cs) + a[c].subTreeSize
  {
    SumConcat(a, cs, [c]);
  }

  lemma {:induction false} TotalSame(a: Arena, r: Arena)
    requires |a| == |r|
    requires forall j :: 0 <= j < |a| ==> r[j].nodeSize == a[j].nodeSize
    ensures TotalNodeSize(r) == TotalNodeSize(a)
  {
    if a != [] {
      TotalSame(a[1..], r[1..]);
    }
  }

  lemma {:induction false} TotalBump(a: Arena, r: Arena, i: nat, d: int)
    requires |a| == |r| && i < |a|
    requires r[i].nodeSize == a[i].nodeSize + d
    requires forall j :: 0 <= j < |a| && j != i ==> r[j].nodeSize == a[j].nodeSize
    ensures TotalNodeSize(r) == TotalNodeSize(a) + d
  {
    if i == 0 {
      TotalSame(a[1..], r[1..]);
    } else {
      TotalBump(a[1..], r[1..], i - 1, d);
    }
  }

  lemma SameShapePointsBack(a: Arena, r: Arena)
    requires SameShape(a, r) && PointsBack(a)
    ensures PointsBack(r)
  {
  }

  /** When every node on an attached chain of `i` gains `d` in SubTreeSize and no
      other node changes, the children's sum of node `j` gains `d` exactly when `j`
      is a proper ancestor of `i`. */
  lemma ChainShiftSum(a: Arena, r: Arena, i: nat, j: nat, d: int)
    requires PointsBack(a) && Acyclic(a) && i < |a| && j < |a| && Attached(a, i)
    requires |r| == |a|
    requires forall y :: 0 <= y < |a| ==>
               r[y].subTreeSize == a[y].subTreeSize + (if y in Chain(a, i) then d else 0)
    ensures SumSizes(r, a[j].children) ==
              SumSizes(a, a[j].children) + (if j in Chain(a, i) && j != i then d else 0)
  {
    var c := Chain(a, i);
    ChainBasics(a, i);
    ChainChildOwner(a, i, j);
    if j in c && j != i {
      var m :| 0 <= m < |c| && c[m] == j;
      ChainChildUnique(a, i, m);
      SumShiftOne(a, r, a[j].children, c[m - 1], d);
    } else {
      SumFrame(a, r, a[j].children);
    }
  }

  /** AddToNodeSize on an attached node keeps the subtree-sum invariant at every
      node, and the sum of all own sizes grows by exactly `tasks`. */
  lemma AddToNodeSizeKeepsSizes(a: Arena, i: nat, tasks: int)
    requires PointsBack(a) && Acyclic(a) && i < |a| && Attached(a, i)
    requires SizesConsistent(a)
    ensures SizesConsistent(AddToNodeSize(a, i, tasks))
    ensures PointsBack(AddToNodeSize(a, i, tasks))
    ensures TotalNodeSize(AddToNodeSize(a, i, tasks)) == TotalNodeSize(a) + tasks
  {
    var r := AddToNodeSize(a, i, tasks);
    TotalBump(a, r, i, tasks);
    SameShapePointsBack(a, r);
    ChainBasics(a, i);
    forall j | 0 <= j < |a|
      ensures r[j].subTreeSize == r[j].nodeSize + SumSizes(r, r[j].children)
    {
      ChainShiftSum(a, r, i, j, tasks);
    }
  }

  /** At the node itself, RemoveChild takes the child's weight out of both sides
      of the invariant. */
  lemma RemoveChildSumAtNode(a: Arena, p: nat, c: nat)
    requires PointsBack(a) && Acyclic(a) && p < |a| && c < |a|
    requires c in a[p].children
    ensures SumSizes(RemoveChild(a, p, c), RemoveChild(a, p, c)[p].children) ==
              SumSizes(a, a[p].children) - a[c].subTreeSize
  {
    var r := RemoveChild(a, p, c);
    var kept := RemoveFirst(a[p].children, c);
    ChainBasics(a, p);
    ChainChildOwner(a, p, p);
    assert forall k :: 0 <= k < |kept| ==> kept[k] in a[p].children && kept[k] !in Chain(a, p);
    SumFrame(a, r, kept);
    SumRemoveFirst(a, a[p].children, c);
  }

  /** RemoveChild of a listed child from an attached node keeps the invariant:
      the child's subtree weight leaves the node and all its ancestors together
      with the child. */
  lemma RemoveChildKeepsSizes(a: Arena, p: nat, c: nat)
    requires PointsBack(a) && Acyclic(a) && p < |a| && c < |a| && Attached(a, p)
    requires SizesConsistent(a) && c in a[p].children
    ensures SizesConsistent(RemoveChild(a, p, c))
    ensures PointsBack(RemoveChild(a, p, c))
  {
    RemoveChildPointsBack(a, p, c);
    var r := RemoveChild(a, p, c);
    var k :| 0 <= k < |a[p].children| && a[p].children[k] == c;
    ChildOffChain(a, p, c);
    ChainBasics(a, p);
    var d := -a[c].subTreeSize;
    assert forall y :: 0 <= y < |a| ==>
      r[y].subTreeSize == a[y].subTreeSize + (if y in Chain(a, p) then d else 0);
    forall j | 0 <= j < |a|
      ensures r[j].subTreeSize == r[j].nodeSize + SumSizes(r, r[j].children)
    {
      if j == p {
        RemoveChildSumAtNode(a, p, c);
      } else {
        ChainShiftSum(a, r, p, j, d);
      }
    }
  }

  lemma RemoveChildPointsBack(a: Arena, p: nat, c: nat)
    requires PointsBack(a) && Acyclic(a) && p < |a| && c < |a|
    ensures PointsBack(RemoveChild(a, p, c))
  {
    var r := RemoveChild(a, p, c);
    forall j, k | 0 <= j < |r| && 0 <= k < |r[j].children|
      ensures r[r[j].children[k]].parent == j
    {
      var y := r[j].children[k];
      assert y in a[j].children;
      var kk :| 0 <= kk < |a[j].children| && a[j].children[kk] == y;
    }
    forall j | 0 <= j < |r|
      ensures Distinct(r[j].children)
    {
      if j == p {
        RemoveFirstDistinct(a[p].children, c);
      }
    }
  }

  /** AppendChild of a node that still names `p` as its parent, onto an attached
      `p` that does not list it, keeps the invariant. */
  lemma AppendChildKeepsSizes(a: Arena, p: nat, c: nat)
    requires PointsBack(a) && Acyclic(a) && p < |a| && c < |a| && Attached(a, p)
    requires SizesConsistent(a) && c !in a[p].children && a[c].parent == p
    ensures SizesConsistent(AppendChild(a, p, c))
    ensures PointsBack(AppendChild(a, p, c))
  {
    var r := AppendChild(a, p, c);
    forall j | 0 <= j < |a|
      ensures r[j].subTreeSize == r[j].nodeSize + SumSizes(r, r[j].children)
    {
      AppendChildSizeAt(a, p, c, j);
    }
    AppendChildPointsBack(a, p, c);
  }

  /** The invariant at one node after AppendChild. */
  lemma AppendChildSizeAt(a: Arena, p: nat, c: nat, j: nat)
    requires PointsBack(a) && Acyclic(a) && p < |a| && c < |a| && Attached(a, p)
    requires SizesConsistent(a) && c !in a[p].children && a[c].parent == p && j < |a|
    ensures AppendChild(a, p, c)[j].subTreeSize ==
              AppendChild(a, p, c)[j].nodeSize + SumSizes(AppendChild(a, p, c), AppendChild(a, p, c)[j].children)
  {
    var r := AppendChild(a, p, c);
    ChildOffChain(a, p, c);
    ChainBasics(a, p);
    var d := a[c].subTreeSize;
    assert forall y :: 0 <= y < |a| ==>
      r[y].subTreeSize == a[y].subTreeSize + (if y in Chain(a, p) then d else 0);
    ChainShiftSum(a, r, p, j, d);
    if j == p {
      SumAppend(r, a[p].children, c);
    }
  }

  lemma AppendChildPointsBack(a: Arena, p: nat, c: nat)
    requires PointsBack(a) && Acyclic(a) && p < |a| && c < |a|
    requires c !in a[p].children && a[c].parent == p
    ensures PointsBack(AppendChild(a, p, c))
  {
    var r := AppendChild(a, p, c);
    var s := a[p].children;
    assert r[p].children == s + [c];
    forall x, y | 0 <= x < y < |s| + 1
      ensures (s + [c])[x] != (s + [c])[y]
    {
      if y == |s| {
        assert (s + [c])[x] == s[x];
      }
    }
    forall j, k | 0 <= j < |r| && 0 <= k < |r[j].children|
      ensures r[r[j].children[k]].parent == j
    {
      if j == p && k == |s| {
        assert r[j].children[k] == c;
      } else {
        assert r[j].children[k] == a[j].children[k];
      }
    }
  }

  /** RemoveChild followed by AppendChild of the same child restores every
      SubTreeSize, and the node's children as a multiset (the child moves to the
      end of the list); nothing else changes. */
  lemma RemoveThenAppend(a: Arena, p: nat, c: nat)
    requires WellIndexed(a) && Acyclic(a) && p < |a| && c < |a|
    requires c in a[p].children && c !in Chain(a, p)
    ensures var r := AppendChild(RemoveChild(a, p, c), p, c);
      && |r| == |a|
      && (forall j :: 0 <= j < |a| ==> r[j].subTreeSize == a[j].subTreeSize)
      && multiset(r[p].children) == multiset(a[p].children)
      && (forall j :: 0 <= j < |a| && j != p ==> r[j] == a[j])
      && r[p] == a[p].(children := r[p].children)
  {
    var b := RemoveChild(a, p, c);
    SameParents(a, b);
    var r := AppendChild(b, p, c);
    RemoveFirstCount(a[p].children, c);
    assert multiset(r[p].children) == multiset(b[p].children) + multiset{c};
  }

  /** The quirk of RemoveChild: a node that is not listed still has its size
      subtracted from the chain, so the invariant breaks at the parent. */
  lemma RemoveAbsentChildBreaksSizes(a: Arena, p: nat, c: nat)
    requires PointsBack(a) && Acyclic(a) && p < |a| && c < |a|
    requires SizesConsistent(a)
    requires c !in a[p].children && c !in Chain(a, p) && a[c].subTreeSize != 0
    ensures RemoveChild(a, p, c)[p].children == a[p].children
    ensures RemoveChild(a, p, c)[p].subTreeSize == a[p].subTreeSize - a[c].subTreeSize
    ensures !SizesConsistent(RemoveChild(a, p, c))
  {
    var r := RemoveChild(a, p, c);
    ChainBasics(a, p);
    ChainChildOwner(a, p, p);
    SumFrame(a, r, a[p].children);
  }
}
