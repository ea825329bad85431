/** The partition tree of tree/tree.go: an arena of PartitionNodes, each with its
    own weight (NodeSize) and a cached sum over its subtree (SubTreeSize), and the
    primitives that change weights and child lists while propagating the change up
    the parent chain. */
module PartitionTree {
  import opened Results
  import opened Seqs
  import Chains
  import Traversal

  /** One node. `parent` is an arena index, or -1 for nil; `children` are arena
      indices in list order. */
  datatype PartitionNode = PartitionNode(
    name: string,
    parent: int,
    children: seq<nat>,
    nodeSize: int,
    subTreeSize: int)

  /** Node `i` of the tree is `a[i]`; the index stands for the Go reference to it. */
  type Arena = seq<PartitionNode>

  /** Every link names a node of the arena (or nil). */
  predicate WellIndexed(a: Arena) {
    forall i :: 0 <= i < |a| ==>
      && -1 <= a[i].parent < |a|
      && forall k :: 0 <= k < |a[i].children| ==> a[i].children[k] < |a|
  }

  function Parents(a: Arena): (p: seq<int>)
    ensures |p| == |a|
    ensures forall i :: 0 <= i < |a| ==> p[i] == a[i].parent
  {
    seq(|a|, i requires 0 <= i < |a| => a[i].parent)
  }

  function ChildLists(a: Arena): (adj: seq<seq<nat>>)
    ensures |adj| == |a|
    ensures forall i :: 0 <= i < |a| ==> adj[i] == a[i].children
  {
    seq(|a|, i requires 0 <= i < |a| => a[i].children)
  }

  /** The nodes the loop `for ptr := node; ptr != nil; ptr = ptr.Parent` visits. */
  function Chain(a: Arena, i: nat): seq<nat> {
    Chains.Chain(Parents(a), i)
  }

  /** The parent links have no cycle, so every upward loop terminates. */
  predicate Acyclic(a: Arena) {
    Chains.Acyclic(Parents(a))
  }

  /** Names, parent links and child lists agree; only the sizes may differ. */
  predicate SameShape(a: Arena, b: Arena) {
    && |a| == |b|
    && forall j :: 0 <= j < |a| ==>
         a[j].name == b[j].name && a[j].parent == b[j].parent && a[j].children == b[j].children
  }

  lemma SameParents(a: Arena, b: Arena)
    requires |a| == |b|
    requires forall j :: 0 <= j < |a| ==> a[j].parent == b[j].parent
    ensures Parents(a) == Parents(b)
    ensures forall i :: 0 <= i < |a| ==> Chain(a, i) == Chain(b, i)
    ensures Acyclic(a) <==> Acyclic(b)
  {
  }

  lemma SameShapeLinks(a: Arena, b: Arena)
    requires SameShape(a, b)
    ensures Parents(a) == Parents(b) && ChildLists(a) == ChildLists(b)
    ensures WellIndexed(a) <==> WellIndexed(b)
    ensures Acyclic(a) <==> Acyclic(b)
  {
  }

  lemma WellIndexedLinks(a: Arena)
    requires WellIndexed(a)
    ensures Traversal.ValidAdj(ChildLists(a))
    ensures Chains.ValidParents(Parents(a))
  {
  }

  /** Every listed child names its lister as parent, and no child list repeats a
      node. Detaching keeps this; the converse link (a parent field naming a node
      that does not list the child) is exactly what detaching leaves behind. */
  predicate PointsBack(a: Arena) {
    && WellIndexed(a)
    && (forall j, k :: 0 <= j < |a| && 0 <= k < |a[j].children| ==> a[a[j].children[k]].parent == j)
    && (forall j :: 0 <= j < |a| ==> Distinct(a[j].children))
  }

  /** Every step of `i`'s parent chain is a live child link. A node detached by
      RemoveChild or SeparateRoot is not attached: its Parent field still names
      the node it was removed from. */
  predicate Attached(a: Arena, i: nat)
    requires i < |a|
  {
    var c := Chain(a, i);
    forall m :: 0 < m < |c| ==> c[m - 1] in a[c[m]].children
  }

  function SumSizes(a: Arena, cs: seq<nat>): int
    requires forall k :: 0 <= k < |cs| ==> cs[k] < |a|
  {
    if cs == [] then 0 else a[cs[0]].subTreeSize + SumSizes(a, cs[1..])
  }

  /** The invariant the partition tree maintains: every cached SubTreeSize is the
      node's own NodeSize plus the SubTreeSize of each of its children. */
  predicate SizesConsistent(a: Arena) {
    && WellIndexed(a)
    && forall j :: 0 <= j < |a| ==> a[j].subTreeSize == a[j].nodeSize + SumSizes(a, a[j].children)
  }

  /** Sum of the own sizes of all nodes of the arena. */
  function TotalNodeSize(a: Arena): int {
    if a == [] then 0 else a[0].nodeSize + TotalNodeSize(a[1..])
  }

  // ---------------------------------------------------------------- walks

  /** The loop of AddToNodeSize over the nodes `path`: each gets `delta` added to
      its SubTreeSize. */
  function AddAlong(a: Arena, path: seq<nat>, delta: int): (r: Arena)
    requires forall k :: 0 <= k < |path| ==> path[k] < |a|
    requires Distinct(path)
    ensures |r| == |a|
    ensures forall j :: 0 <= j < |a| ==>
              r[j] == a[j].(subTreeSize := a[j].subTreeSize + (if j in path then delta else 0))
    decreases |path|
  {
    if path == [] then a
    else
      var p := path[0];
      assert path == [p] + path[1..];
      AddAlong(a[p := a[p].(subTreeSize := a[p].subTreeSize + delta)], path[1..], delta)
  }

  function Shift(detach: bool, s: int): int {
    if detach then -s else s
  }

  /** The loops of RemoveChild (`detach`) and AppendChild over the nodes `path`:
      each gets the child's SubTreeSize subtracted or added, the child's size being
      read again at every step. */
  function TransferAlong(a: Arena, path: seq<nat>, c: nat, detach: bool): (r: Arena)
    requires c < |a|
    requires forall k :: 0 <= k < |path| ==> path[k] < |a|
    requires Distinct(path)
    ensures |r| == |a|
    ensures forall j :: 0 <= j < |a| ==> r[j] == a[j].(subTreeSize := r[j].subTreeSize)
    ensures forall j :: 0 <= j < |a| && j !in path ==> r[j].subTreeSize == a[j].subTreeSize
    ensures c !in path ==> forall j :: 0 <= j < |a| && j in path ==>
              r[j].subTreeSize == a[j].subTreeSize + Shift(detach, a[c].subTreeSize)
    decreases |path|
  {
    if path == [] then a
    else
      var p := path[0];
      assert path == [p] + path[1..];
      var step := a[p := a[p].(subTreeSize := a[p].subTreeSize + Shift(detach, a[c].subTreeSize))];
      TransferAlong(step, path[1..], c, detach)
  }

  // ---------------------------------------------------------------- primitives

  /** AddToNodeSize: `tasks` (possibly negative) is added to the node's own size
      and to the SubTreeSize of the node and of every ancestor. */
  function AddToNodeSize(a: Arena, i: nat, tasks: int): (r: Arena)
    requires WellIndexed(a) && Acyclic(a) && i < |a|
    ensures SameShape(a, r) && Parents(r) == Parents(a)
    ensures r[i].nodeSize == a[i].nodeSize + tasks
    ensures forall j :: 0 <= j < |a| && j != i ==> r[j].nodeSize == a[j].nodeSize
    ensures forall j :: 0 <= j < |a| ==>
              r[j].subTreeSize == a[j].subTreeSize + (if j in Chain(a, i) then tasks else 0)
  {
    var sized := a[i := a[i].(nodeSize := a[i].nodeSize + tasks)];
    AddAlong(sized, Chain(a, i), tasks)
  }

  lemma RemoveFirstBelow(s: seq<nat>, x: nat, n: nat)
    requires forall k :: 0 <= k < |s| ==> s[k] < n
    ensures forall k :: 0 <= k < |RemoveFirst(s, x)| ==> RemoveFirst(s, x)[k] < n
  {
    forall k | 0 <= k < |RemoveFirst(s, x)|
      ensures RemoveFirst(s, x)[k] < n
    {
      assert RemoveFirst(s, x)[k] in s;
    }
  }

  /** What RemoveChild and AppendChild leave at node `j`: names, parent links and
      own sizes unchanged, node `p`'s list replaced by `kids`, and the child's
      SubTreeSize moved along `p`'s chain and nowhere else. */
  predicate RelistedAt(a: Arena, r: Arena, p: nat, c: nat, detach: bool, kids: seq<nat>, j: nat)
    requires |r| == |a| && c < |a| && j < |a|
  {
    && r[j].name == a[j].name && r[j].parent == a[j].parent && r[j].nodeSize == a[j].nodeSize
    && r[j].children == (if j == p then kids else a[j].children)
    && (j !in Chain(a, p) ==> r[j].subTreeSize == a[j].subTreeSize)
    && (c !in Chain(a, p) && j in Chain(a, p) ==>
          r[j].subTreeSize == a[j].subTreeSize + Shift(detach, a[c].subTreeSize))
  }

  /** The two loops of RemoveChild and AppendChild, followed by the change to
      node `p`'s child list. */
  function Relist(a: Arena, p: nat, c: nat, detach: bool, kids: seq<nat>): (r: Arena)
    requires WellIndexed(a) && Acyclic(a) && p < |a| && c < |a|
    requires forall k :: 0 <= k < |kids| ==> kids[k] < |a|
    ensures |r| == |a| && WellIndexed(r) && Parents(r) == Parents(a)
    ensures forall j :: 0 <= j < |a| ==> RelistedAt(a, r, p, c, detach, kids, j)
  {
    var moved := TransferAlong(a, Chain(a, p), c, detach);
    var r := moved[p := moved[p].(children := kids)];
    assert WellIndexed(r) by {
      forall i | 0 <= i < |r|
        ensures -1 <= r[i].parent < |r| && forall k :: 0 <= k < |r[i].children| ==> r[i].children[k] < |r|
      {
        assert r[i].parent == a[i].parent;
        assert i != p ==> r[i].children == a[i].children;
      }
    }
    SameParents(a, r);
    r
  }

  /** RemoveChild: subtracts the child's SubTreeSize from the node and every
      ancestor, then drops the first occurrence of the child from the node's list.
      The subtraction happens whether or not the child is listed, and the child's
      Parent field is left as it was. */
  function RemoveChild(a: Arena, p: nat, c: nat): (r: Arena)
    requires WellIndexed(a) && Acyclic(a) && p < |a| && c < |a|
    ensures |r| == |a| && WellIndexed(r) && Parents(r) == Parents(a)
    ensures r[p].children == RemoveFirst(a[p].children, c)
    ensures forall j :: 0 <= j < |a| && j != p ==> r[j].children == a[j].children
    ensures forall j :: 0 <= j < |a| ==>
              r[j].name == a[j].name && r[j].parent == a[j].parent && r[j].nodeSize == a[j].nodeSize
    ensures forall j :: 0 <= j < |a| && j !in Chain(a, p) ==> r[j].subTreeSize == a[j].subTreeSize
    ensures c !in Chain(a, p) ==> forall j :: 0 <= j < |a| && j in Chain(a, p) ==>
              r[j].subTreeSize == a[j].subTreeSize - a[c].subTreeSize
    ensures c !in Chain(a, p) ==> r[c] == a[c]
  {
    var kids := RemoveFirst(a[p].children, c);
    RemoveFirstBelow(a[p].children, c, |a|);
    var r := Relist(a, p, c, true, kids);
    assert forall j :: 0 <= j < |a| ==> RelistedAt(a, r, p, c, true, kids, j);
    assert c !in Chain(a, p) ==> r[c] == a[c] by {
      if c !in Chain(a, p) {
        assert Chain(a, p)[0] == p;
        assert RelistedAt(a, r, p, c, true, kids, c);
      }
    }
    r
  }

  /** AppendChild: adds the child's SubTreeSize to the node and every ancestor and
      appends the child to the node's list. The child's Parent field is not set. */
  function AppendChild(a: Arena, p: nat, c: nat): (r: Arena)
    requires WellIndexed(a) && Acyclic(a) && p < |a| && c < |a|
    ensures |r| == |a| && WellIndexed(r) && Parents(r) == Parents(a)
    ensures r[p].children == a[p].children + [c]
    ensures forall j :: 0 <= j < |a| && j != p ==> r[j].children == a[j].children
    ensures forall j :: 0 <= j < |a| ==>
              r[j].name == a[j].name && r[j].parent == a[j].parent && r[j].nodeSize == a[j].nodeSize
    ensures forall j :: 0 <= j < |a| && j !in Chain(a, p) ==> r[j].subTreeSize == a[j].subTreeSize
    ensures c !in Chain(a, p) ==> forall j :: 0 <= j < |a| && j in Chain(a, p) ==>
              r[j].subTreeSize == a[j].subTreeSize + a[c].subTreeSize
  {
    var r := Relist(a, p, c, false, a[p].children + [c]);
    assert forall j :: 0 <= j < |a| ==> RelistedAt(a, r, p, c, false, a[p].children + [c], j);
    r
  }
}
