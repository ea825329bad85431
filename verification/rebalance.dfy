/** The two ways tree/tree.go splits a partition tree into separately weighed
    parts and joins it again: SeparateRoot/UniteRoot cut the root off from all its
    children, SeparateMaxChild/UniteMaxChild cut off the heaviest child. */
module Rebalance {
  import opened Results
  import opened Seqs
  import Chains
  import opened Traversal
  import opened PartitionTree
  import opened PartitionInvariant

  /** What a separation returns: the tree it leaves, the nodes now weighed
      apart (`separate`), and the list to hand back to the matching unite
      (`forUnite`). */
  datatype Separation = Separation(arena: Arena, separate: seq<nat>, forUnite: seq<nat>)

  // ---------------------------------------------------------------- sorting

  /** Non-increasing SubTreeSize along `s`. */
  predicate Descending(a: Arena, s: seq<nat>)
    requires AllBelow(s, |a|)
  {
    forall i, j :: 0 <= i < j < |s| ==> a[s[i]].subTreeSize >= a[s[j]].subTreeSize
  }

  /** Puts `x` in front of the first node of `s` that is not heavier. */
  function Insert(a: Arena, x: nat, s: seq<nat>): (r: seq<nat>)
    requires x < |a| && AllBelow(s, |a|)
    ensures |r| == |s| + 1 && AllBelow(r, |a|)
    ensures forall y :: y in r <==> y == x || y in s
    ensures multiset(r) == multiset(s) + multiset{x}
    decreases |s|
  {
    if s == [] || a[x].subTreeSize >= a[s[0]].subTreeSize then
      [x] + s
    else
      assert s == [s[0]] + s[1..];
      [s[0]] + Insert(a, x, s[1..])
  }

  lemma {:induction false} InsertDescending(a: Arena, x: nat, s: seq<nat>)
    requires x < |a| && AllBelow(s, |a|) && Descending(a, s)
    ensures Descending(a, Insert(a, x, s))
    decreases |s|
  {
    if s != [] && a[x].subTreeSize < a[s[0]].subTreeSize {
      var rest := Insert(a, x, s[1..]);
      InsertDescending(a, x, s[1..]);
      var r := [s[0]] + rest;
      assert Insert(a, x, s) == r;
      forall i, j | 0 <= i < j < |r|
        ensures a[r[i]].subTreeSize >= a[r[j]].subTreeSize
      {
        if i == 0 {
          var y := rest[j - 1];
          assert y in rest;
          if y != x {
            var m :| 0 <= m < |s[1..]| && s[1..][m] == y;
            assert y == s[m + 1];
          }
        } else {
          assert r[i] == rest[i - 1] && r[j] == rest[j - 1];
        }
      }
    }
  }

  lemma {:induction false} InsertSum(a: Arena, x: nat, s: seq<nat>)
    requires x < |a| && AllBelow(s, |a|)
    ensures SumSizes(a, Insert(a, x, s)) == a[x].subTreeSize + SumSizes(a, s)
    decreases |s|
  {
    if s != [] && a[x].subTreeSize < a[s[0]].subTreeSize {
      InsertSum(a, x, s[1..]);
      var r := [s[0]] + Insert(a, x, s[1..]);
      assert r[1..] == Insert(a, x, s[1..]);
    }
  }

  /** The sort.Slice call of SeparateRoot: any order in which SubTreeSize does
      not increase. This one is an insertion sort; sort.Slice may order equal
      sizes differently, which the contract leaves open. */
  function SortBySize(a: Arena, s: seq<nat>): (r: seq<nat>)
    requires AllBelow(s, |a|)
    ensures |r| == |s| && AllBelow(r, |a|)
    ensures multiset(r) == multiset(s)
    ensures Descending(a, r)
    ensures SumSizes(a, r) == SumSizes(a, s)
    decreases |s|
  {
    if s == [] then []
    else
      assert s == [s[0]] + s[1..];
      var rest := SortBySize(a, s[1..]);
      InsertDescending(a, s[0], rest);
      InsertSum(a, s[0], rest);
      Insert(a, s[0], rest)
  }

  // ---------------------------------------------------------------- SeparateRoot / UniteRoot

  /** SeparateRoot: the node drops all its children and keeps only its own
      weight; the old children and the node itself are returned heaviest first,
      and the old child list is returned for UniteRoot. The children's Parent
      fields still name the node. */
  function SeparateRoot(a: Arena, p: nat): (r: Separation)
    requires WellIndexed(a) && p < |a|
    ensures |r.arena| == |a| && WellIndexed(r.arena) && Parents(r.arena) == Parents(a)
    ensures r.arena[p] == a[p].(children := [], subTreeSize := a[p].nodeSize)
    ensures forall j :: 0 <= j < |a| && j != p ==> r.arena[j] == a[j]
    ensures r.forUnite == a[p].children
    ensures AllBelow(r.separate, |a|) && multiset(r.separate) == multiset(a[p].children + [p])
    ensures Descending(r.arena, r.separate)
  {
    var cut := a[p := a[p].(children := [], subTreeSize := a[p].nodeSize)];
    assert WellIndexed(cut);
    SameParents(a, cut);
    Separation(cut, SortBySize(cut, a[p].children + [p]), a[p].children)
  }

  /** The loop of UniteRoot: node `p`'s SubTreeSize gains the SubTreeSize of each
      node of `cs` in turn, read at that step. */
  function AddSizesOf(a: Arena, p: nat, cs: seq<nat>): (r: Arena)
    requires p < |a| && AllBelow(cs, |a|)
    ensures |r| == |a|
    ensures forall j :: 0 <= j < |a| && j != p ==> r[j] == a[j]
    ensures r[p] == a[p].(subTreeSize := r[p].subTreeSize)
    ensures p !in cs ==> r[p].subTreeSize == a[p].subTreeSize + SumSizes(a, cs)
    decreases |cs|
  {
    if cs == [] then a
    else
      var step := a[p := a[p].(subTreeSize := a[p].subTreeSize + a[cs[0]].subTreeSize)];
      assert p !in cs ==> p !in cs[1..] && SumSizes(step, cs[1..]) == SumSizes(a, cs[1..]) by {
        if p !in cs {
          assert forall k :: 0 <= k < |cs[1..]| ==> cs[1..][k] != p;
          SumFrame(a, step, cs[1..]);
        }
      }
      AddSizesOf(step, p, cs[1..])
  }

  /** UniteRoot: the node's child list becomes `children` and its SubTreeSize
      gains theirs. Neither the node's ancestors nor the children's Parent fields
      are updated. */
  function UniteRoot(a: Arena, p: nat, children: seq<nat>): (r: Arena)
    requires WellIndexed(a) && p < |a| && AllBelow(children, |a|)
    ensures |r| == |a| && WellIndexed(r) && Parents(r) == Parents(a)
    ensures r[p] == a[p].(children := children, subTreeSize := r[p].subTreeSize)
    ensures forall j :: 0 <= j < |a| && j != p ==> r[j] == a[j]
    ensures p !in children ==> r[p].subTreeSize == a[p].subTreeSize + SumSizes(a, children)
  {
    var listed := a[p := a[p].(children := children)];
    SumFrame(a, listed, children);
    var r := AddSizesOf(listed, p, children);
    assert WellIndexed(r) by {
      forall j | 0 <= j < |r|
        ensures -1 <= r[j].parent < |r| && forall k :: 0 <= k < |r[j].children| ==> r[j].children[k] < |r|
      {
        assert j != p ==> r[j] == a[j];
      }
    }
    SameParents(a, r);
    r
  }

  /** In a well-linked acyclic tree no node lists itself. */
  lemma NotOwnChild(a: Arena, p: nat)
    requires PointsBack(a) && Acyclic(a) && p < |a|
    ensures p !in a[p].children
  {
    if p in a[p].children {
      var k :| 0 <= k < |a[p].children| && a[p].children[k] == p;
      ChildOffChain(a, p, p);
      ChainBasics(a, p);
      assert false;
    }
  }

  /** UniteRoot with the list SeparateRoot returned restores the tree exactly. */
  lemma SeparateThenUniteRoot(a: Arena, p: nat)
    requires PointsBack(a) && Acyclic(a) && SizesConsistent(a) && p < |a|
    ensures var s := SeparateRoot(a, p);
            UniteRoot(s.arena, p, s.forUnite) == a
  {
    var s := SeparateRoot(a, p);
    NotOwnChild(a, p);
    SumFrame(a, s.arena, a[p].children);
    var r := UniteRoot(s.arena, p, s.forUnite);
    assert r[p] == a[p];
  }

  /** SeparateRoot of a root keeps the links and the subtree-sum invariant (the
      root now weighs only itself), and the separated parts together weigh what
      the whole tree weighed. */
  lemma SeparateRootKeepsSizes(a: Arena, p: nat)
    requires PointsBack(a) && Acyclic(a) && SizesConsistent(a) && p < |a| && a[p].parent == -1
    ensures var s := SeparateRoot(a, p);
            && PointsBack(s.arena) && SizesConsistent(s.arena)
            && SumSizes(s.arena, s.separate) == a[p].subTreeSize
  {
    var s := SeparateRoot(a, p);
    NotOwnChild(a, p);
    forall j | 0 <= j < |a|
      ensures s.arena[j].subTreeSize == s.arena[j].nodeSize + SumSizes(s.arena, s.arena[j].children)
    {
      SeparateRootKeepsSizeAt(a, p, j);
    }
    SumFrame(a, s.arena, a[p].children);
    SumConcat(s.arena, a[p].children, [p]);
  }

  lemma SeparateRootKeepsSizeAt(a: Arena, p: nat, j: nat)
    requires PointsBack(a) && Acyclic(a) && SizesConsistent(a) && p < |a| && j < |a|
    requires a[p].parent == -1
    ensures var r := SeparateRoot(a, p).arena;
            r[j].subTreeSize == r[j].nodeSize + SumSizes(r, r[j].children)
  {
    var r := SeparateRoot(a, p).arena;
    if j != p {
      NotOwnChild(a, p);
      assert forall k :: 0 <= k < |a[j].children| ==> a[j].children[k] != p;
      SumFrame(a, r, a[j].children);
    }
  }

  /** A separated child is no longer attached: its Parent field still names the
      root, which does not list it. */
  lemma SeparateRootDetaches(a: Arena, p: nat, c: nat)
    requires PointsBack(a) && Acyclic(a) && p < |a| && c in a[p].children
    ensures var s := SeparateRoot(a, p);
            c < |a| && s.arena[c].parent == p && !Attached(s.arena, c)
  {
    var s := SeparateRoot(a, p);
    var k :| 0 <= k < |a[p].children| && a[p].children[k] == c;
    Chains.ChainLinks(Parents(a), c, 0);
    assert Chain(s.arena, c)[1] == p;
  }

  // ---------------------------------------------------------------- SeparateMaxChild / UniteMaxChild

  /** The scan of SeparateMaxChild from position `from` on, with the largest size
      seen so far and the position where it was seen: a child at least as heavy
      replaces the current choice. */
  function ScanMax(a: Arena, cs: seq<nat>, from: nat, maxSize: int, found: Option<nat>): (r: Option<nat>)
    requires AllBelow(cs, |a|) && from <= |cs|
    ensures r == found || (r.Some? && from <= r.value < |cs| && a[cs[r.value]].subTreeSize >= maxSize)
    ensures found.None? || found.value < from ==>
              (r == found <==> forall j :: from <= j < |cs| ==> a[cs[j]].subTreeSize < maxSize)
    decreases |cs| - from
  {
    if from == |cs| then found
    else if a[cs[from]].subTreeSize >= maxSize then
      ScanMax(a, cs, from + 1, a[cs[from]].subTreeSize, Some(from))
    else
      ScanMax(a, cs, from + 1, maxSize, found)
  }

  /** The position of the child SeparateMaxChild picks (the scan starts from
      size 0 and no child): the last child of largest SubTreeSize, provided that
      size is not negative; none when every child weighs less than 0. */
  function MaxChild(a: Arena, cs: seq<nat>): (r: Option<nat>)
    requires AllBelow(cs, |a|)
    ensures r.None? <==> forall j :: 0 <= j < |cs| ==> a[cs[j]].subTreeSize < 0
    ensures r.Some? ==> LastMaximal(a, cs, r.value)
  {
    ScanMaxFinds(a, cs, 0, 0, None);
    ScanMax(a, cs, 0, 0, None)
  }

  /** Position `k` holds a child of non-negative size that no child outweighs and
      every later child weighs less than. */
  predicate LastMaximal(a: Arena, cs: seq<nat>, k: nat)
    requires AllBelow(cs, |a|)
  {
    && k < |cs| && a[cs[k]].subTreeSize >= 0
    && (forall j :: 0 <= j < |cs| ==> a[cs[j]].subTreeSize <= a[cs[k]].subTreeSize)
    && (forall j :: k < j < |cs| ==> a[cs[j]].subTreeSize < a[cs[k]].subTreeSize)
  }

  /** What the scan knows after the positions before `from`. */
  predicate ScanInv(a: Arena, cs: seq<nat>, from: nat, maxSize: int, found: Option<nat>)
    requires AllBelow(cs, |a|) && from <= |cs|
  {
    && (found.None? ==> maxSize == 0 && forall j :: 0 <= j < from ==> a[cs[j]].subTreeSize < 0)
    && (found.Some? ==>
          && found.value < from && maxSize == a[cs[found.value]].subTreeSize && maxSize >= 0
          && (forall j :: 0 <= j < from ==> a[cs[j]].subTreeSize <= maxSize)
          && (forall j :: found.value < j < from ==> a[cs[j]].subTreeSize < maxSize))
  }

  lemma {:induction false} ScanMaxFinds(a: Arena, cs: seq<nat>, from: nat, maxSize: int, found: Option<nat>)
    requires AllBelow(cs, |a|) && from <= |cs| && ScanInv(a, cs, from, maxSize, found)
    ensures var r := ScanMax(a, cs, from, maxSize, found);
            && (r.None? ==> forall j :: 0 <= j < |cs| ==> a[cs[j]].subTreeSize < 0)
            && (r.Some? ==> LastMaximal(a, cs, r.value))
    decreases |cs| - from
  {
    if from < |cs| {
      if a[cs[from]].subTreeSize >= maxSize {
        ScanMaxFinds(a, cs, from + 1, a[cs[from]].subTreeSize, Some(from));
      } else {
        ScanMaxFinds(a, cs, from + 1, maxSize, found);
      }
    }
  }

  /** Some child of `p` weighs at least zero, so SeparateMaxChild picks one. */
  predicate HasPick(a: Arena, p: nat)
    requires WellIndexed(a) && p < |a|
  {
    exists k :: 0 <= k < |a[p].children| && a[a[p].children[k]].subTreeSize >= 0
  }

  /** The pair SeparateMaxChild returns: the child first only when it is strictly
      heavier than the node, so a tie puts the node first. */
  function HeavierFirst(a: Arena, c: nat, p: nat): (r: seq<nat>)
    requires c < |a| && p < |a|
    ensures AllBelow(r, |a|) && multiset(r) == multiset{c, p}
    ensures Descending(a, r)
    ensures |r| == 2 && (a[c].subTreeSize == a[p].subTreeSize ==> r[0] == p)
  {
    if a[c].subTreeSize > a[p].subTreeSize then [c, p] else [p, c]
  }

  /** SeparateMaxChild: RemoveChild of the picked child, which is returned for
      UniteMaxChild and, with the node, as the separated pair. None (Go's nil,
      nil) when no child is picked, with the tree unchanged. */
  function SeparateMaxChild(a: Arena, p: nat): (r: Option<Separation>)
    requires WellIndexed(a) && Acyclic(a) && p < |a|
    ensures r.None? <==> !HasPick(a, p)
    ensures r.None? <==> MaxChild(a, a[p].children).None?
    ensures r.Some? ==>
              && |r.value.arena| == |a| && WellIndexed(r.value.arena) && Acyclic(r.value.arena)
              && |r.value.forUnite| == 1 && AllBelow(r.value.forUnite, |a|)
    ensures r.Some? ==>
              var c := a[p].children[MaxChild(a, a[p].children).value];
              && r.value.forUnite == [c]
              && r.value.arena == RemoveChild(a, p, c)
              && r.value.separate == HeavierFirst(r.value.arena, c, p)
  {
    match MaxChild(a, a[p].children)
    case None => None
    case Some(k) =>
      var c := a[p].children[k];
      var cut := RemoveChild(a, p, c);
      Some(Separation(cut, HeavierFirst(cut, c, p), [c]))
  }

  /** UniteMaxChild: AppendChild of each node of `cs` in turn. */
  function UniteMaxChild(a: Arena, p: nat, cs: seq<nat>): (r: Arena)
    requires WellIndexed(a) && Acyclic(a) && p < |a| && AllBelow(cs, |a|)
    ensures |r| == |a| && WellIndexed(r) && Acyclic(r) && Parents(r) == Parents(a)
    ensures r[p].children == a[p].children + cs
    ensures forall j :: 0 <= j < |a| && j != p ==> r[j].children == a[j].children
    ensures forall j :: 0 <= j < |a| ==>
              r[j].name == a[j].name && r[j].parent == a[j].parent && r[j].nodeSize == a[j].nodeSize
    decreases |cs|
  {
    if cs == [] then a
    else
      var step := AppendChild(a, p, cs[0]);
      SameParents(a, step);
      assert step[p].children + cs[1..] == a[p].children + cs;
      UniteMaxChild(step, p, cs[1..])
  }

  /** When none of `cs` lies on the chain from `p` to the root, UniteMaxChild adds
      their total SubTreeSize to every node of that chain and to no other node. */
  lemma {:induction false} UniteMaxChildSizes(a: Arena, p: nat, cs: seq<nat>)
    requires WellIndexed(a) && Acyclic(a) && p < |a| && AllBelow(cs, |a|)
    requires forall k :: 0 <= k < |cs| ==> cs[k] !in Chain(a, p)
    ensures var r := UniteMaxChild(a, p, cs);
            forall j :: 0 <= j < |a| ==>
              r[j].subTreeSize == a[j].subTreeSize + (if j in Chain(a, p) then SumSizes(a, cs) else 0)
    decreases |cs|
  {
    if cs != [] {
      var step := AppendChild(a, p, cs[0]);
      SameParents(a, step);
      var rest := cs[1..];
      assert forall k :: 0 <= k < |rest| ==> rest[k] == cs[k + 1];
      SumFrame(a, step, rest);
      UniteMaxChildSizes(step, p, rest);
    }
  }

  /** The child SeparateMaxChild picks, when it picks one: a listed child. */
  lemma PickedChild(a: Arena, p: nat) returns (c: nat)
    requires WellIndexed(a) && Acyclic(a) && p < |a| && HasPick(a, p)
    ensures MaxChild(a, a[p].children).Some? && c == a[p].children[MaxChild(a, a[p].children).value]
    ensures c < |a| && c in a[p].children
    ensures SeparateMaxChild(a, p).value.forUnite == [c]
    ensures SeparateMaxChild(a, p).value.arena == RemoveChild(a, p, c)
  {
    c := a[p].children[MaxChild(a, a[p].children).value];
  }

  /** UniteMaxChild of a single node is AppendChild. */
  lemma UniteOne(a: Arena, p: nat, c: nat)
    requires WellIndexed(a) && Acyclic(a) && p < |a| && c < |a|
    ensures UniteMaxChild(a, p, [c]) == AppendChild(a, p, c)
  {
    var step := AppendChild(a, p, c);
    SameParents(a, step);
    assert [c][1..] == [];
  }

  /** UniteMaxChild with the list SeparateMaxChild returned restores every
      SubTreeSize; the child comes back at the end of the node's list. */
  lemma SeparateThenUniteMaxChild(a: Arena, p: nat)
    requires PointsBack(a) && Acyclic(a) && p < |a| && HasPick(a, p)
    ensures var s := SeparateMaxChild(a, p).value;
            var r := UniteMaxChild(s.arena, p, s.forUnite);
            && |r| == |a|
            && (forall j :: 0 <= j < |a| ==> r[j].subTreeSize == a[j].subTreeSize)
            && multiset(r[p].children) == multiset(a[p].children)
            && (forall j :: 0 <= j < |a| && j != p ==> r[j] == a[j])
            && r[p] == a[p].(children := r[p].children)
  {
    var c := PickedChild(a, p);
    var s := SeparateMaxChild(a, p).value;
    var k :| 0 <= k < |a[p].children| && a[p].children[k] == c;
    ChildOffChain(a, p, c);
    RemoveThenAppend(a, p, c);
    SameParents(a, s.arena);
    UniteOne(s.arena, p, c);
  }

  /** RemoveChild of a listed child leaves it detached: the node no longer lists
      it, but its Parent field still names the node. */
  lemma RemoveChildDetaches(a: Arena, p: nat, c: nat)
    requires PointsBack(a) && Acyclic(a) && p < |a| && c in a[p].children
    ensures var r := RemoveChild(a, p, c);
            c < |a| && c !in r[p].children && r[c].parent == p && !Attached(r, c)
  {
    var r := RemoveChild(a, p, c);
    var k :| 0 <= k < |a[p].children| && a[p].children[k] == c;
    RemoveFirstGone(a[p].children, c);
    SameParents(a, r);
    Chains.ChainLinks(Parents(a), c, 0);
    assert Chain(r, c)[1] == p;
  }

  /** Removing the first occurrence from a list without repeats removes it. */
  lemma RemoveFirstGone(s: seq<nat>, x: nat)
    requires Distinct(s)
    ensures x !in RemoveFirst(s, x)
  {
    if x in s {
      var k := IndexOf(s, x);
      assert RemoveFirst(s, x) == s[..k] + s[k + 1..];
      assert x !in s[k + 1..] by {
        forall j | k + 1 <= j < |s|
          ensures s[j] != x
        {
        }
      }
    }
  }

  /** RemoveChild of a listed child off an attached node splits the node's
      weight between what is left of the node and the child. */
  lemma RemoveChildSplitsWeight(a: Arena, p: nat, c: nat)
    requires PointsBack(a) && Acyclic(a) && p < |a| && c in a[p].children
    ensures var r := RemoveChild(a, p, c);
            c < |a| && r[p].subTreeSize + r[c].subTreeSize == a[p].subTreeSize
  {
    var k :| 0 <= k < |a[p].children| && a[p].children[k] == c;
    ChildOffChain(a, p, c);
    ChainBasics(a, p);
  }

  /** SeparateMaxChild on an attached node keeps the links and the subtree-sum
      invariant; the node and the separated child together weigh what the node
      weighed before, and the child is no longer attached. */
  lemma SeparateMaxChildKeepsSizes(a: Arena, p: nat)
    requires PointsBack(a) && Acyclic(a) && SizesConsistent(a) && p < |a| && Attached(a, p)
    requires HasPick(a, p)
    ensures var s := SeparateMaxChild(a, p).value;
            var c := s.forUnite[0];
            && PointsBack(s.arena) && SizesConsistent(s.arena)
            && c < |a| && s.arena[p].subTreeSize + s.arena[c].subTreeSize == a[p].subTreeSize
            && c !in s.arena[p].children && s.arena[c].parent == p && !Attached(s.arena, c)
  {
    var c := PickedChild(a, p);
    RemoveChildKeepsSizes(a, p, c);
    RemoveChildSplitsWeight(a, p, c);
    RemoveChildDetaches(a, p, c);
  }

  /** UniteMaxChild of the separated child restores the invariant. This covers
      only uniting the one child SeparateMaxChild just took off the same node;
      for any other list of nodes, UniteMaxChildSizes states the size changes
      but no invariant is promised. */
  lemma UniteMaxChildKeepsSizes(a: Arena, p: nat)
    requires PointsBack(a) && Acyclic(a) && SizesConsistent(a) && p < |a| && Attached(a, p)
    requires HasPick(a, p)
    ensures var s := SeparateMaxChild(a, p).value;
            var r := UniteMaxChild(s.arena, p, s.forUnite);
            PointsBack(r) && SizesConsistent(r)
  {
    var c := PickedChild(a, p);
    var s := SeparateMaxChild(a, p).value;
    SeparateMaxChildKeepsSizes(a, p);
    SameParents(a, s.arena);
    StillAttached(a, s.arena, p);
    AppendChildKeepsSizes(s.arena, p, c);
    UniteOne(s.arena, p, c);
  }

  /** Changing only node `p`'s child list keeps `p` attached: its chain uses the
      lists of its proper ancestors only. */
  lemma StillAttached(a: Arena, r: Arena, p: nat)
    requires Acyclic(a) && p < |a| && Attached(a, p) && |r| == |a| && Parents(r) == Parents(a)
    requires forall j :: 0 <= j < |a| && j != p ==> r[j].children == a[j].children
    ensures Attached(r, p)
  {
    var w := Chain(a, p);
    ChainBasics(a, p);
    forall m | 0 < m < |w|
      ensures w[m - 1] in r[w[m]].children
    {
      assert w[m] != w[0];
    }
  }
}
