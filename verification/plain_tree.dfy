/** The plain tree of tree/tree.go: nodes linked from a child-to-parent name map
    (buildTree), listed in pre-order from the root (AllNodes) and checked for
    repeated visits (ValidateTree, isAcyclicDFS). */
module PlainTree {
  import opened Results
  import opened Seqs
  import Chains
  import opened Traversal
  import Forest

  /** One node. `parent` is an arena index, or -1 for nil; `children` are arena
      indices in the order they were appended. */
  datatype Node = Node(name: string, parent: int, children: seq<nat>)

  /** Node `i` of the tree is `t[i]`; the index stands for the Go reference to it. */
  type Tree = seq<Node>

  function Parents(t: Tree): (p: seq<int>)
    ensures |p| == |t|
    ensures forall i :: 0 <= i < |t| ==> p[i] == t[i].parent
  {
    seq(|t|, i requires 0 <= i < |t| => t[i].parent)
  }

  function ChildLists(t: Tree): (adj: seq<seq<nat>>)
    ensures |adj| == |t|
    ensures forall i :: 0 <= i < |t| ==> adj[i] == t[i].children
  {
    seq(|t|, i requires 0 <= i < |t| => t[i].children)
  }

  /** Every link names a node of the tree (or nil). */
  predicate WellIndexed(t: Tree) {
    forall i :: 0 <= i < |t| ==>
      && -1 <= t[i].parent < |t|
      && forall k :: 0 <= k < |t[i].children| ==> t[i].children[k] < |t|
  }

  lemma WellIndexedLinks(t: Tree)
    requires WellIndexed(t)
    ensures ValidAdj(ChildLists(t)) && Chains.ValidParents(Parents(t))
  {
  }

  // ---------------------------------------------------------------- buildTree

  /** One entry of the child-to-parent map: (childName, parentName). The map is
      given as the sequence of its entries in the order Go's `range` visits them. */
  type Edge = (string, string)

  /** A Go map has each key once. */
  predicate DistinctKeys(edges: seq<Edge>) {
    forall j, k :: 0 <= j < k < |edges| ==> edges[j].0 != edges[k].0
  }

  /** Every name the entries mention, as child or as parent. */
  function EdgeNames(edges: seq<Edge>): set<string> {
    if edges == [] then {}
    else EdgeNames(edges[..|edges| - 1]) + {edges[|edges| - 1].0, edges[|edges| - 1].1}
  }

  /** The parent name the last non-self entry for `name` gives it, if any. */
  function ParentName(edges: seq<Edge>, name: string): (r: Option<string>)
    ensures r.Some? ==> name in EdgeNames(edges) && r.value in EdgeNames(edges)
  {
    if edges == [] then None
    else
      var e := edges[|edges| - 1];
      if e.0 == name && e.0 != e.1 then Some(e.1) else ParentName(edges[..|edges| - 1], name)
  }

  /** The name of the last self-entry, if any: the root marker. */
  function RootName(edges: seq<Edge>): (r: Option<string>)
    ensures r.Some? ==> r.value in EdgeNames(edges)
  {
    if edges == [] then None
    else
      var e := edges[|edges| - 1];
      if e.0 == e.1 then Some(e.0) else RootName(edges[..|edges| - 1])
  }

  /** The children the entries give `name`, in entry order: the child names of
      its non-self entries. */
  function ChildNames(edges: seq<Edge>, name: string): (r: seq<string>)
    ensures r != [] ==> name in EdgeNames(edges)
    ensures forall k :: 0 <= k < |r| ==> r[k] in EdgeNames(edges)
  {
    if edges == [] then []
    else
      var e := edges[|edges| - 1];
      ChildNames(edges[..|edges| - 1], name) + (if e.1 == name && e.0 != e.1 then [e.0] else [])
  }

  /** The state of buildTree's loop: the nodes allocated so far, nameToNode, and
      the root found so far. */
  datatype Builder = Builder(nodes: Tree, index: map<string, nat>, root: Option<nat>)

  /** `index` maps each name to the one node carrying it, and every node can be
      found through it. */
  predicate NamesIndexed(t: Tree, index: map<string, nat>) {
    && (forall name :: name in index ==> index[name] < |t| && t[index[name]].name == name)
    && (forall i :: 0 <= i < |t| ==> t[i].name in index && index[t[i].name] == i)
  }

  predicate Indexed(b: Builder) {
    && WellIndexed(b.nodes)
    && NamesIndexed(b.nodes, b.index)
    && (b.root.Some? ==> b.root.value < |b.nodes|)
  }

  /** `nameToNode[name]`, allocating a fresh node without parent or children when
      the name is new. */
  function Lookup(b: Builder, name: string): (r: (Builder, nat))
    requires Indexed(b)
    ensures Indexed(r.0) && r.1 < |r.0.nodes| && name in r.0.index && r.0.index[name] == r.1
    ensures r.0.root == b.root && r.0.index.Keys == b.index.Keys + {name}
    ensures name in b.index ==> r.0 == b
    ensures name !in b.index ==> r.0.nodes == b.nodes + [Node(name, -1, [])]
    ensures forall n :: n in b.index ==> r.0.index[n] == b.index[n]
  {
    if name in b.index then (b, b.index[name])
    else (Builder(b.nodes + [Node(name, -1, [])], b.index[name := |b.nodes|], b.root), |b.nodes|)
  }

  /** The two assignments of a non-self entry: `c`'s parent becomes `p`, and `c`
      is appended to `p`'s children. */
  function Link(t: Tree, p: nat, c: nat): (r: Tree)
    requires WellIndexed(t) && p < |t| && c < |t| && p != c
    ensures |r| == |t| && WellIndexed(r)
    ensures forall i :: 0 <= i < |t| ==>
              r[i] == t[i].(parent := if i == c then p else t[i].parent,
                            children := t[i].children + (if i == p then [c] else []))
  {
    t[c := t[c].(parent := p)][p := t[p].(children := t[p].children + [c])]
  }

  lemma SameNamesIndexed(t: Tree, r: Tree, index: map<string, nat>)
    requires NamesIndexed(t, index) && |r| == |t|
    requires forall i :: 0 <= i < |t| ==> r[i].name == t[i].name
    ensures NamesIndexed(r, index)
  {
  }

  /** The two lookups of one iteration, parent name first: they only append
      fresh nodes without parent or children, and return the parent's and the
      child's node. */
  function Allocate(b: Builder, e: Edge): (r: (Builder, nat, nat))
    requires Indexed(b)
    ensures Indexed(r.0) && r.0.root == b.root
    ensures |b.nodes| <= |r.0.nodes|
    ensures forall i :: 0 <= i < |r.0.nodes| ==>
              r.0.nodes[i] == (if i < |b.nodes| then b.nodes[i] else Node(r.0.nodes[i].name, -1, []))
    ensures forall n :: n in b.index ==> r.0.index[n] == b.index[n]
    ensures r.0.index.Keys == b.index.Keys + {e.0, e.1}
    ensures r.1 == r.0.index[e.1] && r.2 == r.0.index[e.0]
  {
    var (b1, p) := Lookup(b, e.1);
    var (b2, c) := Lookup(b1, e.0);
    LookupGrows(b, e.1);
    LookupGrows(b1, e.0);
    (b2, p, c)
  }

  /** One lookup only appends a fresh node without parent or children. */
  lemma LookupGrows(b: Builder, name: string)
    requires Indexed(b)
    ensures var r := Lookup(b, name).0;
            && |b.nodes| <= |r.nodes|
            && forall i :: 0 <= i < |r.nodes| ==>
                 r.nodes[i] == (if i < |b.nodes| then b.nodes[i] else Node(r.nodes[i].name, -1, []))
  {
  }

  /** One iteration of buildTree's loop: allocate the parent, then the child; a
      self-entry makes the child the root, any other entry links the child below
      the parent. */
  function BuildStep(b: Builder, e: Edge): (r: Builder)
    requires Indexed(b)
    ensures Indexed(r)
  {
    var (b2, p, c) := Allocate(b, e);
    if e.0 == e.1 then b2.(root := Some(c))
    else
      var t := Link(b2.nodes, p, c);
      SameNamesIndexed(b2.nodes, t, b2.index);
      Builder(t, b2.index, b2.root)
  }

  /** buildTree: the loop over the entries, in iteration order. */
  function Build(edges: seq<Edge>): (r: Builder)
    ensures Indexed(r)
  {
    if edges == [] then Builder([], map[], None)
    else BuildStep(Build(edges[..|edges| - 1]), edges[|edges| - 1])
  }

  // ---------------------------------------------------------------- one step

  /** What one iteration does to names and the root: names already seen keep
      their node, and a self-entry makes its node the root. */
  lemma StepIndex(b: Builder, e: Edge)
    requires Indexed(b)
    ensures var r := BuildStep(b, e);
            && |b.nodes| <= |r.nodes|
            && (forall i :: 0 <= i < |b.nodes| ==> r.nodes[i].name == b.nodes[i].name)
            && (forall n :: n in b.index ==> r.index[n] == b.index[n])
            && r.index.Keys == b.index.Keys + {e.0, e.1}
            && r.root == (if e.0 == e.1 then Some(r.index[e.0]) else b.root)
  {
  }

  /** What one iteration does to parent links: nodes allocated for new names
      start without a parent, and a non-self entry gives its child the parent. */
  lemma StepParents(b: Builder, e: Edge)
    requires Indexed(b)
    ensures var r := BuildStep(b, e);
            && e.0 in r.index && e.1 in r.index
            && forall i :: 0 <= i < |r.nodes| ==>
                 r.nodes[i].parent ==
                   (if e.0 != e.1 && i == r.index[e.0] then r.index[e.1]
                    else if i < |b.nodes| then b.nodes[i].parent else -1)
  {
  }

  /** What one iteration does to node `i`'s child list: a node allocated for a
      new name starts without children, and a non-self entry appends its child
      to the parent's. */
  lemma StepChildrenAt(b: Builder, e: Edge, i: nat)
    requires Indexed(b) && i < |BuildStep(b, e).nodes|
    ensures var r := BuildStep(b, e);
            && e.0 in r.index && e.1 in r.index
            && r.nodes[i].children ==
                 (if i < |b.nodes| then b.nodes[i].children else []) +
                 (if e.0 != e.1 && i == r.index[e.1] then [r.index[e.0]] else [])
  {
    if e.0 != e.1 {
      StepLinksAt(b, e, i);
    }
  }

  lemma StepLinksAt(b: Builder, e: Edge, i: nat)
    requires Indexed(b) && e.0 != e.1 && i < |Allocate(b, e).0.nodes|
    ensures var (b2, p, c) := Allocate(b, e);
            Link(b2.nodes, p, c)[i].children ==
              (if i < |b.nodes| then b.nodes[i].children else []) + (if i == p then [c] else [])
  {
    var (b2, p, c) := Allocate(b, e);
    assert b2.nodes[i].children == if i < |b.nodes| then b.nodes[i].children else [];
  }

  /** The same for every node at once. */
  lemma StepChildren(b: Builder, e: Edge)
    requires Indexed(b)
    ensures var r := BuildStep(b, e);
            && e.0 in r.index && e.1 in r.index
            && forall i :: 0 <= i < |r.nodes| ==>
                 r.nodes[i].children ==
                   (if i < |b.nodes| then b.nodes[i].children else []) +
                   (if e.0 != e.1 && i == r.index[e.1] then [r.index[e.0]] else [])
  {
    forall i | 0 <= i < |BuildStep(b, e).nodes|
      ensures BuildStep(b, e).nodes[i].children ==
                (if i < |b.nodes| then b.nodes[i].children else []) +
                (if e.0 != e.1 && i == BuildStep(b, e).index[e.1] then [BuildStep(b, e).index[e.0]] else [])
    {
      StepChildrenAt(b, e, i);
    }
  }

  // ---------------------------------------------------------------- whole loop

  /** buildTree allocates exactly one node per name mentioned. */
  lemma {:induction false} BuildNames(edges: seq<Edge>)
    ensures Build(edges).index.Keys == EdgeNames(edges)
    ensures |Build(edges).nodes| == |EdgeNames(edges)|
  {
    var b := Build(edges);
    if edges != [] {
      var init := edges[..|edges| - 1];
      BuildNames(init);
      StepIndex(Build(init), edges[|edges| - 1]);
    }
    NamesCount(b.nodes, b.index);
  }

  /** An index that maps names to nodes one-to-one has one name per node. */
  lemma NamesCount(t: Tree, index: map<string, nat>)
    requires NamesIndexed(t, index)
    ensures |index.Keys| == |t|
  {
    var nodes := set name | name in index :: index[name];
    assert nodes == Indices(|t|) by {
      forall i | 0 <= i < |t|
        ensures i in nodes
      {
        assert index[t[i].name] == i;
      }
    }
    IndicesCard(|t|);
    InjectiveCard(index);
  }

  /** A map that never sends two keys to the same value has as many values as keys. */
  lemma {:induction false} InjectiveCard(m: map<string, nat>)
    requires forall x, y :: x in m && y in m && x != y ==> m[x] != m[y]
    ensures |(set name | name in m :: m[name])| == |m.Keys|
    decreases |m.Keys|
  {
    if m.Keys != {} {
      var x :| x in m;
      var rest := m - {x};
      InjectiveCard(rest);
      var vs := set name | name in m :: m[name];
      var rs := set name | name in rest :: rest[name];
      forall v | v in vs
        ensures v in rs + {m[x]}
      {
        var name :| name in m && m[name] == v;
        if name != x {
          assert name in rest;
        }
      }
      assert vs == rs + {m[x]};
      assert m[x] !in rs;
      assert m.Keys == rest.Keys + {x};
    }
  }

  /** Node `i`'s parent is the node its last non-self entry names, and it has
      none exactly when no such entry exists. */
  predicate ParentAsNamed(edges: seq<Edge>, b: Builder, i: nat)
    requires i < |b.nodes|
  {
    var named := ParentName(edges, b.nodes[i].name);
    && (b.nodes[i].parent == -1 <==> named.None?)
    && (named.Some? ==> named.value in b.index && b.nodes[i].parent == b.index[named.value])
  }

  /** One more entry keeps every node's parent as named. */
  lemma ParentAsNamedStep(init: seq<Edge>, e: Edge, i: nat)
    requires forall j :: 0 <= j < |Build(init).nodes| ==> ParentAsNamed(init, Build(init), j)
    requires Build(init).index.Keys == EdgeNames(init)
    requires i < |BuildStep(Build(init), e).nodes|
    ensures ParentAsNamed(init + [e], BuildStep(Build(init), e), i)
  {
    var edges := init + [e];
    assert edges[..|edges| - 1] == init;
    var b := Build(init);
    var r := BuildStep(b, e);
    StepIndex(b, e);
    StepParents(b, e);
    var name := r.nodes[i].name;
    assert r.index[name] == i;
    assert ParentName(edges, name) ==
      if e.0 == name && e.0 != e.1 then Some(e.1) else ParentName(init, name);
    if e.0 != e.1 && i == r.index[e.0] {
    } else if i < |b.nodes| {
      assert b.nodes[i].name == name;
      assert ParentAsNamed(init, b, i);
    } else {
      assert name !in b.index;
    }
  }

  /** Each node's parent is the node its last non-self entry names, and a node
      has no parent exactly when no such entry exists. */
  lemma {:induction false} BuildParents(edges: seq<Edge>)
    ensures forall i :: 0 <= i < |Build(edges).nodes| ==> ParentAsNamed(edges, Build(edges), i)
  {
    if edges != [] {
      var init := edges[..|edges| - 1];
      var e := edges[|edges| - 1];
      assert edges == init + [e];
      BuildParents(init);
      BuildNames(init);
      forall i | 0 <= i < |Build(edges).nodes|
        ensures ParentAsNamed(edges, Build(edges), i)
      {
        ParentAsNamedStep(init, e, i);
      }
    }
  }

  /** Node `i`'s children are the nodes of the child names its entries give it,
      in entry order. */
  predicate ChildrenAsNamed(edges: seq<Edge>, b: Builder, i: nat)
    requires i < |b.nodes|
  {
    var named := ChildNames(edges, b.nodes[i].name);
    && |b.nodes[i].children| == |named|
    && forall k :: 0 <= k < |named| ==> named[k] in b.index && b.nodes[i].children[k] == b.index[named[k]]
  }

  /** One more entry keeps every node's children as named. */
  lemma ChildrenAsNamedStep(init: seq<Edge>, e: Edge, i: nat)
    requires forall j :: 0 <= j < |Build(init).nodes| ==> ChildrenAsNamed(init, Build(init), j)
    requires Build(init).index.Keys == EdgeNames(init)
    requires i < |BuildStep(Build(init), e).nodes|
    ensures ChildrenAsNamed(init + [e], BuildStep(Build(init), e), i)
  {
    var edges := init + [e];
    assert edges[..|edges| - 1] == init;
    var b := Build(init);
    var r := BuildStep(b, e);
    StepIndex(b, e);
    StepChildrenAt(b, e, i);
    var name := r.nodes[i].name;
    assert r.index[name] == i;
    var linked := e.1 == name && e.0 != e.1;
    var named0 := ChildNames(init, name);
    var named := ChildNames(edges, name);
    assert named == named0 + (if linked then [e.0] else []);
    var kids0 := if i < |b.nodes| then b.nodes[i].children else [];
    if i < |b.nodes| {
      assert b.nodes[i].name == name;
      assert ChildrenAsNamed(init, b, i);
    } else {
      assert name !in b.index;
      assert named0 == [];
    }
    assert (e.0 != e.1 && i == r.index[e.1]) <==> linked;
    AppendNamed(named0, kids0, if linked then [e.0] else [], r.nodes[i].children, b.index, r.index);
  }

  /** Extending a child list and its names by matching entries keeps them matched. */
  lemma AppendNamed(named0: seq<string>, kids0: seq<nat>, more: seq<string>, kids: seq<nat>,
                    index0: map<string, nat>, index: map<string, nat>)
    requires |kids0| == |named0| && |more| <= 1
    requires forall k :: 0 <= k < |named0| ==> named0[k] in index0 && kids0[k] == index0[named0[k]]
    requires forall n :: n in index0 ==> n in index && index[n] == index0[n]
    requires forall n :: n in more ==> n in index
    requires kids == kids0 + (if more == [] then [] else [index[more[0]]])
    ensures |kids| == |named0 + more|
    ensures forall k :: 0 <= k < |named0 + more| ==>
              (named0 + more)[k] in index && kids[k] == index[(named0 + more)[k]]
  {
    var named := named0 + more;
    forall k | 0 <= k < |named|
      ensures named[k] in index && kids[k] == index[named[k]]
    {
      if k < |named0| {
        assert named[k] == named0[k] && kids[k] == kids0[k];
      } else {
        assert named[k] == more[0] && kids[k] == index[more[0]];
      }
    }
  }

  /** Each node's children are the nodes its non-self entries name as children,
      in the order the entries were visited. */
  lemma {:induction false} BuildChildren(edges: seq<Edge>)
    ensures forall i :: 0 <= i < |Build(edges).nodes| ==> ChildrenAsNamed(edges, Build(edges), i)
  {
    if edges != [] {
      var init := edges[..|edges| - 1];
      var e := edges[|edges| - 1];
      assert edges == init + [e];
      BuildChildren(init);
      BuildNames(init);
      forall i | 0 <= i < |Build(edges).nodes|
        ensures ChildrenAsNamed(edges, Build(edges), i)
      {
        ChildrenAsNamedStep(init, e, i);
      }
    }
  }

  /** The root is the node of the last self-entry, nil when there is none. */
  lemma {:induction false} BuildRoot(edges: seq<Edge>)
    ensures Build(edges).root.None? <==> RootName(edges).None?
    ensures RootName(edges).Some? ==>
              RootName(edges).value in Build(edges).index &&
              Build(edges).root == Some(Build(edges).index[RootName(edges).value])
  {
    if edges != [] {
      var init := edges[..|edges| - 1];
      BuildRoot(init);
      BuildNames(init);
      StepIndex(Build(init), edges[|edges| - 1]);
    }
  }

  /** A name that is the child of the last entry of a map has no earlier entry. */
  lemma NoEarlierParent(edges: seq<Edge>)
    requires |edges| > 0 && DistinctKeys(edges)
    ensures ParentName(edges[..|edges| - 1], edges[|edges| - 1].0).None?
  {
    ParentNameSome(edges[..|edges| - 1], edges[|edges| - 1].0);
  }

  lemma {:induction false} ParentNameSome(edges: seq<Edge>, name: string)
    ensures ParentName(edges, name).Some? ==> exists k :: 0 <= k < |edges| && edges[k].0 == name
  {
    if edges != [] {
      var init := edges[..|edges| - 1];
      ParentNameSome(init, name);
      if ParentName(init, name).Some? {
        var k :| 0 <= k < |init| && init[k].0 == name;
        assert edges[k] == init[k];
      }
    }
  }

  /** `t` is `t0` with fresh nodes appended and, when `link`, the parentless node
      `c` linked below `p`. */
  predicate GrownBy(t0: Tree, t: Tree, link: bool, p: nat, c: nat) {
    && WellIndexed(t) && |t0| <= |t|
    && (link ==> p < |t| && c < |t| && p != c && (c < |t0| ==> t0[c].parent == -1))
    && (forall i :: 0 <= i < |t| ==>
          t[i].parent == (if link && i == c then p else if i < |t0| then t0[i].parent else -1))
    && (forall i :: 0 <= i < |t| ==>
          t[i].children == (if i < |t0| then t0[i].children else []) + (if link && i == p then [c] else []))
  }

  /** Every listed child still names its lister. */
  lemma GrownPointsBack(t0: Tree, t: Tree, link: bool, p: nat, c: nat, j: nat, k: nat)
    requires GrownBy(t0, t, link, p, c) && Forest.Linked(Parents(t0), ChildLists(t0))
    requires j < |t| && k < |t[j].children|
    ensures t[j].children[k] < |t| && t[t[j].children[k]].parent == j
  {
    var kids0 := if j < |t0| then t0[j].children else [];
    assert t[j].children == kids0 + (if link && j == p then [c] else []);
    if k < |kids0| {
      assert t[j].children[k] == t0[j].children[k];
      assert Parents(t0)[ChildLists(t0)[j][k]] == j;
      if link {
        assert t0[j].children[k] != c;
      }
    }
  }

  /** No child list repeats a node. */
  lemma GrownDistinct(t0: Tree, t: Tree, link: bool, p: nat, c: nat, j: nat)
    requires GrownBy(t0, t, link, p, c) && Forest.Linked(Parents(t0), ChildLists(t0))
    requires j < |t|
    ensures Distinct(t[j].children)
  {
    if j < |t0| {
      assert Distinct(ChildLists(t0)[j]);
      if link && j == p {
        forall k | 0 <= k < |t0[j].children|
          ensures t0[j].children[k] != c
        {
          assert Parents(t0)[ChildLists(t0)[j][k]] == j;
        }
      }
    }
  }

  /** Every node with a parent is listed by it. */
  lemma GrownListed(t0: Tree, t: Tree, link: bool, p: nat, c: nat, x: nat)
    requires GrownBy(t0, t, link, p, c) && Forest.Linked(Parents(t0), ChildLists(t0))
    requires x < |t| && t[x].parent != -1
    ensures t[x].parent < |t| && x in t[t[x].parent].children
  {
    if !(link && x == c) {
      assert Parents(t0)[x] != -1;
      assert x in ChildLists(t0)[Parents(t0)[x]];
      var q := t0[x].parent;
      assert t[q].children == t0[q].children + (if link && q == p then [c] else []);
    } else {
      assert t[p].children == (if p < |t0| then t0[p].children else []) + [c];
    }
  }

  /** Appending fresh nodes and, optionally, linking a parentless node `c` below
      `p` keeps the links consistent both ways. */
  lemma LinkedStep(t0: Tree, t: Tree, link: bool, p: nat, c: nat)
    requires GrownBy(t0, t, link, p, c) && Forest.Linked(Parents(t0), ChildLists(t0))
    ensures Forest.Linked(Parents(t), ChildLists(t))
  {
    forall j, k | 0 <= j < |t| && 0 <= k < |t[j].children|
      ensures t[t[j].children[k]].parent == j
    {
      GrownPointsBack(t0, t, link, p, c, j, k);
    }
    forall j | 0 <= j < |t|
      ensures Distinct(t[j].children)
    {
      GrownDistinct(t0, t, link, p, c, j);
    }
    forall x | 0 <= x < |t| && t[x].parent != -1
      ensures x in t[t[x].parent].children
    {
      GrownListed(t0, t, link, p, c, x);
    }
  }

  /** When the entries come from a map (each child name once), every listed child
      names its lister as parent, no child is listed twice, and every node with a
      parent is listed by it. */
  lemma {:induction false} BuildLinked(edges: seq<Edge>)
    requires DistinctKeys(edges)
    ensures Forest.Linked(Parents(Build(edges).nodes), ChildLists(Build(edges).nodes))
  {
    if edges != [] {
      var init := edges[..|edges| - 1];
      var e := edges[|edges| - 1];
      assert DistinctKeys(init);
      BuildLinked(init);
      var b := Build(init);
      var r := BuildStep(b, e);
      StepIndex(b, e);
      var c := r.index[e.0];
      if e.0 != e.1 && c < |b.nodes| {
        BuildParents(init);
        NoEarlierParent(edges);
        assert b.nodes[c].name == e.0;
        assert ParentAsNamed(init, b, c);
      }
      StepGrows(b, e);
      LinkedStep(b.nodes, r.nodes, e.0 != e.1, r.index[e.1], c);
    }
  }

  /** One iteration appends fresh nodes and, for a non-self entry whose child has
      no parent yet, links the child below the parent. */
  lemma StepGrows(b: Builder, e: Edge)
    requires Indexed(b)
    requires var c := BuildStep(b, e).index[e.0];
             e.0 != e.1 && c < |b.nodes| ==> b.nodes[c].parent == -1
    ensures var r := BuildStep(b, e);
            GrownBy(b.nodes, r.nodes, e.0 != e.1, r.index[e.1], r.index[e.0])
  {
    StepIndex(b, e);
    StepParents(b, e);
    StepChildren(b, e);
  }

  /** With a map, the root marker's node has no parent: its only entry is the
      self-entry. */
  lemma RootHasNoParent(edges: seq<Edge>)
    requires DistinctKeys(edges) && RootName(edges).Some?
    ensures Build(edges).root.Some?
    ensures Build(edges).nodes[Build(edges).root.value].parent == -1
  {
    BuildRoot(edges);
    BuildParents(edges);
    var b := Build(edges);
    var r := b.root.value;
    RootEntry(edges);
    ParentNameSelf(edges, RootName(edges).value);
    assert ParentAsNamed(edges, b, r);
  }

  lemma {:induction false} RootEntry(edges: seq<Edge>)
    requires RootName(edges).Some?
    ensures exists k :: 0 <= k < |edges| && edges[k] == (RootName(edges).value, RootName(edges).value)
  {
    var init := edges[..|edges| - 1];
    if edges[|edges| - 1].0 != edges[|edges| - 1].1 {
      RootEntry(init);
      var k :| 0 <= k < |init| && init[k] == (RootName(init).value, RootName(init).value);
      assert edges[k] == init[k];
    }
  }

  /** A key whose entry is a self-entry gets no parent from a map. */
  lemma {:induction false} ParentNameSelf(edges: seq<Edge>, name: string)
    requires DistinctKeys(edges)
    requires exists k :: 0 <= k < |edges| && edges[k] == (name, name)
    ensures ParentName(edges, name).None?
  {
    var init := edges[..|edges| - 1];
    var e := edges[|edges| - 1];
    var k :| 0 <= k < |edges| && edges[k] == (name, name);
    if k < |edges| - 1 {
      assert init[k] == edges[k];
      assert DistinctKeys(init);
      ParentNameSelf(init, name);
      assert e.0 != name;
    }
    else {
      NoEarlierParent(edges);
    }
  }

  // ---------------------------------------------------------------- AllNodes

  /** AllNodes: refuses a node with a parent; otherwise the pre-order listing of
      allNodesFunc from it. */
  function AllNodes(t: Tree, i: nat): (r: Result<seq<nat>>)
    requires WellIndexed(t) && i < |t|
    ensures r == Failure(NeedRoot) <==> t[i].parent != -1
    ensures r.Failure? ==> r.error == NeedRoot || r.error == Unbounded
    ensures r.Success? ==> |r.value| > 0 && r.value[0] == i && AllBelow(r.value, |t|)
  {
    WellIndexedLinks(t);
    if t[i].parent != -1 then Failure(NeedRoot)
    else match PreOrder(ChildLists(t), i, |t|)
      case None => Failure(Unbounded)
      case Some(l) => Success(l)
  }

  /** Each node of the listing after the root is a child of a node listed before
      it, and every child of a listed node is listed. */
  lemma AllNodesClosed(t: Tree, i: nat)
    requires WellIndexed(t) && i < |t| && AllNodes(t, i).Success?
    ensures var l := AllNodes(t, i).value;
            && (forall x, c :: x in l && c in t[x].children ==> c in l)
            && (forall k :: 0 < k < |l| ==> exists j :: 0 <= j < k && l[k] in t[l[j]].children)
  {
    WellIndexedLinks(t);
    PreOrderReach(ChildLists(t), i, |t|);
  }

  /** On a tree whose links agree both ways, AllNodes of a root lists every node
      below it exactly once, and nothing else; parent cycles elsewhere in the tree
      are never reached. */
  lemma AllNodesExact(t: Tree, i: nat)
    requires WellIndexed(t) && i < |t| && t[i].parent == -1
    requires Forest.Linked(Parents(t), ChildLists(t))
    ensures AllNodes(t, i).Success?
    ensures Distinct(AllNodes(t, i).value)
    ensures forall x :: 0 <= x < |t| ==>
              (x in AllNodes(t, i).value <==> i in Chains.Chain(Parents(t), x))
  {
    Forest.RootedListing(Parents(t), ChildLists(t), i);
  }

  // ---------------------------------------------------------------- ValidateTree

  /** ValidateTree. A nil root makes `root.AllNodes()` dereference nil; an error
      from AllNodes makes it false; otherwise isAcyclicDFS runs from the root on a
      visited map holding the listed nodes, and every listed node must then be
      marked. */
  function ValidateTree(t: Tree, root: Option<nat>): (r: Result<bool>)
    requires WellIndexed(t) && (root.Some? ==> root.value < |t|)
    ensures r == Failure(NilRoot) <==> root.None?
    ensures root.Some? && t[root.value].parent != -1 ==> r == Success(false)
    ensures r == Failure(Unbounded) <==> root.Some? && AllNodes(t, root.value) == Failure(Unbounded)
  {
    match root
    case None => Failure(NilRoot)
    case Some(i) =>
      match AllNodes(t, i)
      case Failure(e) => if e == NeedRoot then Success(false) else Failure(e)
      case Success(all) =>
        WellIndexedLinks(t);
        var (acyclic, visited) := Dfs(ChildLists(t), i, {});
        var allVisited := forall k :: 0 <= k < |all| ==> all[k] in visited;
        Success(acyclic && allVisited)
  }

  /** isAcyclicDFS from the root, with no node marked, returns true exactly when
      the listing repeats no node, and then it has marked every listed node. */
  lemma DfsFromRoot(t: Tree, i: nat)
    requires WellIndexed(t) && i < |t| && AllNodes(t, i).Success?
    ensures ValidAdj(ChildLists(t))
    ensures Dfs(ChildLists(t), i, {}).0 == Distinct(AllNodes(t, i).value)
    ensures Dfs(ChildLists(t), i, {}).0 ==> Dfs(ChildLists(t), i, {}).1 == Elems(AllNodes(t, i).value)
  {
    WellIndexedLinks(t);
    DfsMatchesPreOrder(ChildLists(t), i, {}, |t|);
  }

  /** ValidateTree accepts exactly when the listing from the root repeats no node:
      the all-visited pass looks only at listed nodes, which isAcyclicDFS has all
      marked whenever it returns true. */
  lemma ValidateTreeMeaning(t: Tree, i: nat)
    requires WellIndexed(t) && i < |t| && AllNodes(t, i).Success?
    ensures ValidateTree(t, Some(i)) == Success(Distinct(AllNodes(t, i).value))
  {
    DfsFromRoot(t, i);
  }

  /** Hence on a tree whose links agree, ValidateTree accepts every root, however
      many nodes do not hang below it and whatever cycles those nodes form. */
  lemma ValidateTreeIgnoresFragments(t: Tree, i: nat)
    requires WellIndexed(t) && i < |t| && t[i].parent == -1
    requires Forest.Linked(Parents(t), ChildLists(t))
    ensures ValidateTree(t, Some(i)) == Success(true)
  {
    AllNodesExact(t, i);
    ValidateTreeMeaning(t, i);
  }

  /** ValidateTree with the all-visited pass over every node of the tree, as the
      pass is evidently meant: nodes that do not hang below the root are then
      reported. */
  function ValidateTreeAll(t: Tree, root: Option<nat>): (r: Result<bool>)
    requires WellIndexed(t) && (root.Some? ==> root.value < |t|)
    ensures r == Failure(NilRoot) <==> root.None?
    ensures root.Some? && t[root.value].parent != -1 ==> r == Success(false)
    ensures r == Failure(Unbounded) <==> root.Some? && AllNodes(t, root.value) == Failure(Unbounded)
  {
    match root
    case None => Failure(NilRoot)
    case Some(i) =>
      match AllNodes(t, i)
      case Failure(e) => if e == NeedRoot then Success(false) else Failure(e)
      case Success(all) =>
        WellIndexedLinks(t);
        var (acyclic, visited) := Dfs(ChildLists(t), i, {});
        var allVisited := forall x :: 0 <= x < |t| ==> x in visited;
        Success(acyclic && allVisited)
  }

  /** The corrected check accepts exactly when the listing from the root holds
      every node of the tree, each once. */
  lemma ValidateTreeAllMeaning(t: Tree, i: nat)
    requires WellIndexed(t) && i < |t| && AllNodes(t, i).Success?
    ensures ValidateTreeAll(t, Some(i)) ==
              Success(Distinct(AllNodes(t, i).value) && forall x :: 0 <= x < |t| ==> x in AllNodes(t, i).value)
  {
    DfsFromRoot(t, i);
    var l := AllNodes(t, i).value;
    assert forall x :: x in Elems(l) <==> x in l;
  }

  /** On a tree whose links agree, the corrected check accepts a root exactly
      when every node hangs below it. */
  lemma ValidateTreeAllConnected(t: Tree, i: nat)
    requires WellIndexed(t) && i < |t| && t[i].parent == -1
    requires Forest.Linked(Parents(t), ChildLists(t))
    ensures ValidateTreeAll(t, Some(i)) ==
              Success(forall x :: 0 <= x < |t| ==> i in Chains.Chain(Parents(t), x))
  {
    AllNodesExact(t, i);
    ValidateTreeAllMeaning(t, i);
  }

  // ---------------------------------------------------------------- NewTree

  /** NewTree: buildTree, then ValidateTree; an invalid tree is refused. */
  function NewTree(edges: seq<Edge>): (r: Result<(Tree, nat)>)
    ensures r.Success? ==> Build(edges).root == Some(r.value.1) && r.value.0 == Build(edges).nodes
    ensures r == Failure(NilRoot) <==> Build(edges).root.None?
  {
    var b := Build(edges);
    match ValidateTree(b.nodes, b.root)
    case Failure(e) => Failure(e)
    case Success(ok) => if ok then Success((b.nodes, b.root.value)) else Failure(InvalidTree)
  }

  /** NewTree with the corrected check. */
  function NewTreeAll(edges: seq<Edge>): (r: Result<(Tree, nat)>)
    ensures r.Success? ==> Build(edges).root == Some(r.value.1) && r.value.0 == Build(edges).nodes
    ensures r == Failure(NilRoot) <==> Build(edges).root.None?
  {
    var b := Build(edges);
    match ValidateTreeAll(b.nodes, b.root)
    case Failure(e) => Failure(e)
    case Success(ok) => if ok then Success((b.nodes, b.root.value)) else Failure(InvalidTree)
  }

  /** A map with one entry per child and a root marker is accepted by NewTree,
      whether or not every name hangs below the root, and even when the names
      that do not hang below it form a parent cycle among themselves. */
  lemma NewTreeAcceptsMaps(edges: seq<Edge>)
    requires DistinctKeys(edges) && RootName(edges).Some?
    ensures NewTree(edges).Success?
  {
    var b := Build(edges);
    RootHasNoParent(edges);
    BuildLinked(edges);
    ValidateTreeIgnoresFragments(b.nodes, b.root.value);
  }

  /** With the corrected check, a map with one entry per child and a root marker
      is accepted exactly when every name hangs below the root; AllNodes then
      lists every name exactly once. */
  lemma NewTreeAllAcceptsTrees(edges: seq<Edge>)
    requires DistinctKeys(edges) && RootName(edges).Some?
    ensures var b := Build(edges);
            NewTreeAll(edges).Success? <==>
              b.root.Some? && forall x :: 0 <= x < |b.nodes| ==> b.root.value in Chains.Chain(Parents(b.nodes), x)
    ensures NewTreeAll(edges).Success? ==>
              var (t, root) := NewTreeAll(edges).value;
              && AllNodes(t, root).Success?
              && Distinct(AllNodes(t, root).value)
              && |AllNodes(t, root).value| == |EdgeNames(edges)|
  {
    var b := Build(edges);
    RootHasNoParent(edges);
    BuildLinked(edges);
    BuildNames(edges);
    ValidateTreeAllConnected(b.nodes, b.root.value);
    if NewTreeAll(edges).Success? {
      AllNodesCount(b.nodes, b.root.value);
    }
  }

  /** When every node hangs below the root, AllNodes lists each node of the tree
      exactly once. */
  lemma AllNodesCount(t: Tree, i: nat)
    requires WellIndexed(t) && i < |t| && t[i].parent == -1
    requires Forest.Linked(Parents(t), ChildLists(t))
    requires forall x :: 0 <= x < |t| ==> i in Chains.Chain(Parents(t), x)
    ensures AllNodes(t, i).Success? && Distinct(AllNodes(t, i).value)
    ensures |AllNodes(t, i).value| == |t|
  {
    AllNodesExact(t, i);
    var l := AllNodes(t, i).value;
    assert Elems(l) == Indices(|t|);
    DistinctSetCard(l);
    IndicesCard(|t|);
  }
}
