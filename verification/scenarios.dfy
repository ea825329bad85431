/** A concrete map worked through the model of buildTree and ValidateTree. */
module Scenarios {
  import opened Results
  import opened Seqs
  import opened Traversal
  import opened PlainTree

  /** The map {A: A, B: C, C: B} in this iteration order: A is the root marker,
      and B and C name each other as parent. */
  const cycleAside: seq<Edge> := [("A", "A"), ("B", "C"), ("C", "B")]

  /** What the reference definitions say about the map's entries. */
  lemma CycleAsideNames(edges: seq<Edge>)
    requires edges == cycleAside
    ensures DistinctKeys(edges)
    ensures RootName(edges) == Some("A")
    ensures ParentName(edges, "B") == Some("C")
    ensures ParentName(edges, "C") == Some("B")
    ensures ChildNames(edges, "A") == []
    ensures EdgeNames(edges) == {"A", "B", "C"}
  {
    var e2 := edges[..2];
    var e1 := e2[..1];
    assert edges[..|edges| - 1] == e2 == [("A", "A"), ("B", "C")];
    assert e2[..|e2| - 1] == e1 == [("A", "A")];
    assert e1[..|e1| - 1] == [];
    assert ChildNames(e1, "A") == ChildNames([], "A") + [];
    assert ChildNames(e2, "A") == ChildNames(e1, "A") + [];
    assert EdgeNames(e1) == {"A"};
    assert EdgeNames(e2) == {"A", "B", "C"};
  }

  /** buildTree on the map: A becomes the root without children, while B and C
      are linked to each other and not below A. */
  lemma BuildCycleAside(edges: seq<Edge>)
    requires edges == cycleAside
    ensures var b := Build(edges);
            && b.root.Some? && b.index.Keys == {"A", "B", "C"}
            && b.index["A"] != b.index["B"]
            && b.root.value == b.index["A"] && b.nodes[b.index["A"]].children == []
            && b.nodes[b.index["A"]].parent == -1
            && b.nodes[b.index["B"]].parent == b.index["C"]
            && b.nodes[b.index["C"]].parent == b.index["B"]
  {
    CycleAsideSize(edges);
    CycleAsideRoot(edges);
    CycleAsideLinks(edges);
    var b := Build(edges);
    assert b.nodes[b.index["A"]].name == "A" && b.nodes[b.index["B"]].name == "B";
  }

  lemma CycleAsideSize(edges: seq<Edge>)
    requires edges == cycleAside
    ensures Build(edges).index.Keys == {"A", "B", "C"}
  {
    CycleAsideNames(edges);
    BuildNames(edges);
  }

  lemma CycleAsideRoot(edges: seq<Edge>)
    requires edges == cycleAside
    ensures var b := Build(edges);
            && "A" in b.index && b.root == Some(b.index["A"])
            && b.nodes[b.index["A"]].children == [] && b.nodes[b.index["A"]].parent == -1
  {
    var b := Build(edges);
    CycleAsideNames(edges);
    BuildRoot(edges);
    RootHasNoParent(edges);
    BuildChildren(edges);
    var root := b.index["A"];
    assert ChildrenAsNamed(edges, b, root);
  }

  lemma CycleAsideLinks(edges: seq<Edge>)
    requires edges == cycleAside
    ensures var b := Build(edges);
            && "B" in b.index && "C" in b.index
            && b.nodes[b.index["B"]].parent == b.index["C"]
            && b.nodes[b.index["C"]].parent == b.index["B"]
  {
    var b := Build(edges);
    CycleAsideNames(edges);
    BuildNames(edges);
    BuildParents(edges);
    assert ParentAsNamed(edges, b, b.index["B"]);
    assert ParentAsNamed(edges, b, b.index["C"]);
  }

  /** A root without children with some other node in the tree: ValidateTree
      accepts, the corrected check refuses. */
  lemma LoneRootWithOthers(t: Tree, root: nat, other: nat)
    requires WellIndexed(t) && root < |t| && other < |t| && other != root
    requires t[root].parent == -1 && t[root].children == []
    ensures AllNodes(t, root) == Success([root])
    ensures ValidateTree(t, Some(root)) == Success(true)
    ensures ValidateTreeAll(t, Some(root)) == Success(false)
  {
    WellIndexedLinks(t);
    var adj := ChildLists(t);
    assert adj[root] == [];
    assert PreOrderList(adj, adj[root], |t| - 1) == Some([]);
    assert [root] + [] == [root];
    ValidateTreeMeaning(t, root);
    ValidateTreeAllMeaning(t, root);
    assert other !in [root];
  }

  /** ValidateTree accepts the map, whose names B and C do not hang below the root
      and form a parent cycle; the corrected check refuses it. */
  lemma ValidateTreeMissesFragments(edges: seq<Edge>)
    requires edges == cycleAside
    ensures NewTree(edges).Success?
    ensures NewTreeAll(edges) == Failure(InvalidTree)
  {
    var b := Build(edges);
    BuildCycleAside(edges);
    LoneRootWithOthers(b.nodes, b.index["A"], b.index["B"]);
  }
}
