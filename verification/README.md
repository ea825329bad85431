# Tenant hierarchy partition tree: a Dafny model

This project models the core of the tenant-hierarchy partitioner, the file `tree/tree.go`. The core has two parts.

- **The plain tree.** It is built from a child→parent name map (`buildTree`). `ValidateTree` checks it using `AllNodes` and the depth-first `isAcyclicDFS`.
- **The partition tree.** It is a copy of the plain tree (`copyTree`) that carries an own weight `NodeSize` and a cached subtree weight `SubTreeSize` on every node. It offers:
  - a name index (`MapNameToPartitionNode`);
  - weight seeding from a per-day series (`SetInitialSize`, routed through `AddToNodeSize`);
  - the link edits `RemoveChild` and `AppendChild`;
  - the rebalancing primitives `SeparateRoot`/`UniteRoot` and `SeparateMaxChild`/`UniteMaxChild`.

How Go references and other Go features are represented:

- A tree of linked references becomes an arena, a sequence of nodes addressed by index. A nil parent is `-1`, a nil root is `None`, and reference identity is index equality.
- Go map iteration order is a parameter: a map is given as a sequence of pairs in the order the loop visits them.
- A recursion that would not return on a cyclic structure runs on a depth bound equal to the arena size. Running out of that bound is the error `Unbounded`.
- A walk up the `Parent` links is `Chains.Chain`, the finite list of a node and its ancestors. Operations that walk it require `Acyclic`, because otherwise the Go loop does not terminate.

Modules, leaves first:

- `Results`, `Seqs`: result and option types, sequence helpers.
- `Chains`: parent walks.
- `Traversal`: pre-order listing and the depth-first visit.
- `Forest`: what a listing means on a well-linked arena, from any parentless node, whatever cycles lie elsewhere.
- `PlainTree`: `Node`, `buildTree`, `AllNodes`, `ValidateTree`, `NewTree`.
- `PartitionTree`: `PartitionNode` and the weight and link edits.
- `PartitionInvariant`: the subtree-sum invariant and its preservation.
- `PartitionReach`: listings of a partition tree.
- `InitialSize`: the name index and weight seeding.
- `PartitionCopy`: `copyTree`.
- `Rebalance`: the separate/unite primitives.
- `Scenarios`: a concrete map worked through `buildTree` and `ValidateTree`.

The invariant every partition-tree operation is meant to keep (`PartitionTree.SizesConsistent`): every node's `SubTreeSize` equals its `NodeSize` plus the `SubTreeSize` of its listed children. `PointsBack` says every listed child names its lister as parent, and no list repeats. `Attached(x)` says every step of `x`'s parent chain is a live child link.

## Model

| member | source | states |
|---|---|---|
| PlainTree.Lookup | tree/tree.go:30-37 | a name already indexed keeps its node; a new name gets a fresh parentless, childless node at the end; the index grows by exactly that name |
| PlainTree.Allocate | tree/tree.go:30-37 | the two lookups of one entry, parent name first, only append fresh parentless childless nodes, keep every indexed name's node, add both names to the index, and return the parent's and the child's node |
| PlainTree.Link | tree/tree.go:41-46 | the child's Parent becomes the parent node and the child joins the end of the parent's children; no other field of any node changes |
| PlainTree.BuildStep | tree/tree.go:28-47 | one iteration keeps the name index exact: each name maps to the one node carrying it, and every node is found under its name |
| PlainTree.Build | tree/tree.go:25-50 | the whole loop yields nodes with distinct, indexed names and a root, if any, among them |
| PlainTree.BuildNames | tree/tree.go:25-37 | buildTree creates exactly one node per name occurring in the map, as child or as parent |
| PlainTree.BuildRoot | tree/tree.go:39-40 | the root is set iff some entry maps a name to itself, and it is the last such entry's node |
| PlainTree.BuildParents | tree/tree.go:41-42 | every node's parent is the node of the name its last non-self entry maps it to, and nil exactly when no such entry exists |
| PlainTree.BuildChildren | tree/tree.go:44-45 | every node's child list holds the nodes of the names that map to it, in map-iteration order |
| PlainTree.BuildLinked | tree/tree.go:25-50 | with one entry per child name, every listed child names its lister as parent, every parented node is listed by its parent, and no list repeats |
| PlainTree.RootHasNoParent | tree/tree.go:39-42 | the node of the root marker gets no parent |
| PlainTree.AllNodes | tree/tree.go:93-102 | fails with "need root" exactly when the node has a parent; otherwise a listing that starts at the node |
| PlainTree.AllNodesClosed | tree/tree.go:104-112 | the listing is closed under children, and each later entry is a child of an earlier one |
| PlainTree.AllNodesExact | tree/tree.go:92-112 | on a well-linked tree the listing from a parentless node is defined, has no repeats, and holds exactly the nodes whose parent chain reaches the start node, even when other nodes form parent cycles |
| PlainTree.AllNodesCount | tree/tree.go:92-112 | when every node hangs below the root, the listing has one entry per node |
| Traversal.PreOrder | tree/tree.go:104-112 | when allNodesFunc returns, its listing starts with the node and holds only nodes of the arena |
| Traversal.PreOrderList | tree/tree.go:107-109 | the loop over the children lists only nodes of the arena |
| Forest.RootedListing | tree/tree.go:104-112 | from a node without a parent, on a well-linked arena, allNodesFunc returns, repeats no node, and lists exactly the nodes whose parent chain reaches it, whatever cycles lie elsewhere |
| Traversal.Dfs | tree/tree.go:76-90 | isAcyclicDFS only adds marks, and only on nodes of the arena |
| Traversal.DfsList | tree/tree.go:83-87 | the loop over the children only adds marks, and only on nodes of the arena |
| Traversal.DfsMatchesPreOrder | tree/tree.go:76-90 | isAcyclicDFS answers true iff the pre-order listing repeats no node and meets none already visited, and then it marks exactly the listed nodes |
| PlainTree.DfsFromRoot | tree/tree.go:64 | from the root with nothing visited, isAcyclicDFS answers whether AllNodes repeats a node, and then visits exactly the listed nodes |
| PlainTree.ValidateTree | tree/tree.go:52-74 | a nil root fails with `NilRoot`, which stands for Go's nil dereference; a root with a parent is invalid; an error from AllNodes is a non-returning recursion exactly when AllNodes does not return |
| PlainTree.ValidateTreeMeaning | tree/tree.go:52-74 | ValidateTree accepts exactly when AllNodes lists no node twice |
| PlainTree.ValidateTreeIgnoresFragments | tree/tree.go:60-73 | on any well-linked arena with a parentless root, ValidateTree accepts, whatever lies outside the root's subtree, cycles included |
| PlainTree.ValidateTreeAll | tree/tree.go:52-74 | the corrected check has the same failures and the same answer for a root that has a parent |
| PlainTree.ValidateTreeAllMeaning | tree/tree.go:52-74 | the corrected check accepts iff the listing has no repeats and holds every node |
| PlainTree.ValidateTreeAllConnected | tree/tree.go:52-74 | on any well-linked arena with a parentless root, the corrected check accepts iff every node hangs below the root |
| PlainTree.NewTree | tree/tree.go:15-23 | a built tree is returned with buildTree's root; a missing root is the nil-root failure |
| PlainTree.NewTreeAcceptsMaps | tree/tree.go:15-23 | every map with one entry per child and a root marker is accepted, connected or not, with or without parent cycles outside the root's subtree |
| PlainTree.NewTreeAllAcceptsTrees | tree/tree.go:15-23 | with the corrected check, every map with one entry per child and a root marker is accepted iff every name hangs below the root, so maps with a cycle anywhere are refused; AllNodes then lists every name once |
| PlainTree.NewTreeAll | tree/tree.go:15-23 | the corrected constructor returns buildTree's tree and root when it accepts, and fails with the nil-root error exactly when there is no root marker |
| Scenarios.BuildCycleAside | tree/tree.go:25-50 | the map {A: A, B: C, C: B} builds a childless, parentless root A, and a pair B, C that name each other as parent |
| Scenarios.LoneRootWithOthers | tree/tree.go:52-74 | a childless root in an arena with other nodes: ValidateTree accepts, the corrected check refuses |
| Scenarios.ValidateTreeMissesFragments | tree/tree.go:15-23 | NewTree accepts the map {A: A, B: C, C: B}; the corrected NewTree refuses it |
| PartitionCopy.CopyNode | tree/tree.go:135-146 | a returned copy starts with the node's own copy: the node's name, the given Parent, zero sizes, one child copy per child |
| PartitionCopy.CopyList | tree/tree.go:141-143 | the loop returns one child copy per child, the first allocated right after the parent's copy and naming it as Parent |
| PartitionCopy.CopyNodeMirrors | tree/tree.go:135-146 | copyTree returns iff the pre-order listing of the plain subtree is defined, and copy k mirrors listed node k: same name, zero sizes, children mirrored in order, parent the copy of its parent |
| PartitionCopy.NewPartitionTree | tree/tree.go:129-133 | the copy exists iff the plain tree's listing from the root is defined, and it mirrors that listing with the root copy first and without a parent |
| PartitionCopy.NewPartitionTreeIsTree | tree/tree.go:129-146 | the copy is well linked and acyclic, its root has no parent and the plain root's name, every node is attached below the root, and sizes are consistent |
| PartitionCopy.CopyTotalZero | tree/tree.go:136-140 | the copy's own sizes add up to zero |
| PartitionCopy.NewTreeCopies | tree/tree.go:129-133 | a tree NewTree accepts is always copied, with one copy per node AllNodes lists |
| PartitionCopy.NewPartitionTreeSeeds | tree/tree.go:201-220 | a fresh copy whose days name only copied nodes is seeded successfully; afterwards sizes are consistent, and the root's SubTreeSize equals both the applied days' total and the sum of all NodeSize |
| PartitionReach.Listing | tree/tree.go:164-170 | when mapNameToPartitionNodeFunc returns, the nodes it visits start with the node and lie in the arena |
| InitialSize.IndexNames | tree/tree.go:164-169 | the name index holds exactly the listed names; each maps to a listed node of that name, and to the last listed one when names repeat |
| InitialSize.MapNameToPartitionNode | tree/tree.go:153-170 | fails with "need root" exactly when the node has a parent; otherwise succeeds iff the listing returns, mapping exactly the listed names to listed nodes of that name |
| InitialSize.NameIndexOfRoot | tree/tree.go:153-162 | on a well-linked acyclic tree the index from the root succeeds, and every indexed node is attached below the root |
| InitialSize.NameIndexFindsEveryNode | tree/tree.go:164-170 | when listed names are distinct, every listed node is found under its own name |
| InitialSize.DaysApplied | tree/tree.go:213 | the days applied are the first min(initDays, number of days) entries, none when initDays is not positive |
| InitialSize.ApplyDay | tree/tree.go:214-216 | one day's AddToNodeSize calls keep the tree's shape; each node's NodeSize rises by the tasks of the pairs whose name the index maps to it, and the sum of NodeSize by that day's total |
| InitialSize.ApplyDays | tree/tree.go:213-217 | the day loop keeps the shape; each node's NodeSize rises by the tasks the days route to it through the index, and the sum of NodeSize by the total over the days |
| InitialSize.SetInitialSize | tree/tree.go:201-220 | "need root" exactly when the node has a parent; "already has initial size" exactly for a root with positive SubTreeSize; otherwise success, same shape, each node's NodeSize raised by the tasks the applied days route to it through MapNameToPartitionNode's index, and the NodeSize sum by the applied days' total |
| InitialSize.SetInitialSizeByName | tree/tree.go:208-216 | when the tree's names are distinct, every node of the tree gains exactly the tasks the applied days list under its own name, and every other node's NodeSize is unchanged |
| InitialSize.ApplyDaysKeepsSizes | tree/tree.go:213-217 | seeding nodes below the root keeps the invariant, and the root gains the days' total |
| InitialSize.SetInitialSizeKeepsSizes | tree/tree.go:201-220 | on a consistent tree whose days name only indexed nodes, seeding succeeds, keeps the invariant, and adds the applied total to the root |
| PartitionTree.AddToNodeSize | tree/tree.go:172-178 | NodeSize of the node moves by `tasks`, no other NodeSize changes, and SubTreeSize moves by `tasks` exactly on the node and its ancestors |
| PartitionTree.AddAlong | tree/tree.go:175-177 | SubTreeSize moves by `tasks` on exactly the nodes of the walked chain; nothing else changes |
| PartitionInvariant.AddToNodeSizeKeepsSizes | tree/tree.go:172-178 | on an attached node, the invariant and the links are kept, and the sum of all NodeSize moves by exactly `tasks` |
| PartitionTree.TransferAlong | tree/tree.go:181-183 | only SubTreeSize changes, and only on the walked chain; when the child is off that chain, every node on it moves by the child's SubTreeSize |
| PartitionTree.RemoveChild | tree/tree.go:180-191 | the first occurrence of the child leaves the list; only the parent's list changes; the parent and its ancestors lose the child's SubTreeSize when the child is off that chain; the child is untouched |
| PartitionTree.AppendChild | tree/tree.go:193-199 | the child joins the end of the list; only that list changes; the node and its ancestors gain the child's SubTreeSize when the child is off that chain |
| PartitionInvariant.RemoveChildKeepsSizes | tree/tree.go:180-191 | removing a listed child from an attached node keeps the invariant and the links |
| PartitionInvariant.RemoveChildPointsBack | tree/tree.go:185-190 | removing any child keeps every listed child pointing back at its lister |
| PartitionInvariant.RemoveAbsentChildBreaksSizes | tree/tree.go:180-191 | removing a node that is not listed leaves the list as it was but still subtracts its weight, which breaks the invariant |
| PartitionInvariant.AppendChildKeepsSizes | tree/tree.go:193-199 | appending a detached child whose parent field names the node keeps the invariant and the links |
| PartitionInvariant.AppendChildPointsBack | tree/tree.go:193-199 | appending such a child keeps every listed child pointing back at its lister |
| PartitionInvariant.RemoveThenAppend | tree/tree.go:180-199 | AppendChild after RemoveChild of a listed child restores every SubTreeSize and every node, up to the order of the parent's list |
| Rebalance.SortBySize | tree/tree.go:232-234 | the sorted list is a permutation of its input, ordered by non-increasing SubTreeSize, with the same total size |
| Rebalance.SeparateRoot | tree/tree.go:222-237 | the node loses its children and weighs only its own NodeSize; nothing else changes; the unite list is the old child list; the separated list is a permutation of the children plus the node, heaviest first |
| Rebalance.SeparateRootKeepsSizes | tree/tree.go:222-237 | on a root, the invariant and links survive, and the separated parts together weigh what the whole tree weighed |
| Rebalance.SeparateRootDetaches | tree/tree.go:227-228 | every old child still names the node as parent but is no longer attached |
| Rebalance.AddSizesOf | tree/tree.go:242-244 | the loop adds the given children's SubTreeSize onto the node's current SubTreeSize; no other node or field changes |
| Rebalance.UniteRoot | tree/tree.go:239-245 | the node's list becomes the given children and, when the node is not among them, its SubTreeSize gains their total; no other node, ancestors included, changes |
| Rebalance.SeparateThenUniteRoot | tree/tree.go:222-245 | UniteRoot with the list SeparateRoot returned restores the tree exactly |
| Rebalance.MaxChild | tree/tree.go:249-256 | the scan picks nothing iff every child weighs less than zero, and otherwise the last child of largest, non-negative SubTreeSize |
| Rebalance.ScanMax | tree/tree.go:251-256 | the scan keeps its current choice exactly when no remaining child reaches the current maximum, and otherwise picks a later child at least that heavy |
| Rebalance.ScanMaxFinds | tree/tree.go:251-256 | from any prefix state, the scan ends with the last maximal child, or nothing when all are negative |
| Rebalance.HeavierFirst | tree/tree.go:265-270 | the pair holds the child and the node, heaviest first, with the node first on a tie |
| Rebalance.SeparateMaxChild | tree/tree.go:247-275 | nil/nil exactly when no child weighs at least zero; otherwise the picked child is removed from the node, returned alone for uniting, and paired with the node heaviest first |
| Rebalance.SeparateMaxChildKeepsSizes | tree/tree.go:247-275 | on an attached node, the invariant and the links survive, the node and the child together weigh what the node weighed, and the child is detached |
| Rebalance.RemoveChildDetaches | tree/tree.go:180-191 | a removed listed child is gone from the list but still names the node as parent, so it is not attached |
| Rebalance.UniteMaxChild | tree/tree.go:276-280 | the given nodes join the end of the node's list in order; no other list, name, parent or NodeSize changes |
| Rebalance.UniteMaxChildSizes | tree/tree.go:276-280 | when none of the given nodes is on the node's chain, every node on that chain gains their total SubTreeSize and no other node changes |
| Rebalance.UniteOne | tree/tree.go:276-280 | UniteMaxChild of one node is AppendChild |
| Rebalance.SeparateThenUniteMaxChild | tree/tree.go:247-280 | UniteMaxChild with the list SeparateMaxChild returned restores every SubTreeSize and every node, the child now at the end of the list |
| Rebalance.UniteMaxChildKeepsSizes | tree/tree.go:276-280 | uniting the one child SeparateMaxChild just separated keeps the invariant and the links |

## Left out

- The hierarchy loader (`hierarchy/hierarchy.go`) is not part of this model. It is file I/O that produces the two inputs, the child→parent map and the per-day task maps.
- `fmt.Println` in `ValidateTree` and `SeparateMaxChild` is output only and is left out.
- Go map iteration order is unspecified. `buildTree` and each day of `SetInitialSize` take their map as a sequence of pairs in the visiting order. The results are stated for every order.
- Slice aliasing is not modelled. Node values live in one arena, and a slice that a caller keeps after `SeparateRoot` or `UniteRoot` is a copy. In Go it may share a backing array that a later `RemoveChild` shifts in place.
- PartitionTree.AddToNodeSize: sizes are unbounded integers, so `int64` wrap-around is not modelled. The same goes for every operation that adds or subtracts sizes.
- PartitionTree.AddToNodeSize: requires `Chains.Acyclic` over the whole arena, not only along the node's own chain. On a parent cycle the Go loop never ends. `RemoveChild`, `AppendChild`, `Rebalance.SeparateMaxChild` and `Rebalance.UniteMaxChild` make the same demand. The last two make it even when no chain is walked: no child is picked, or the list is empty.
- InitialSize.SetInitialSize: requires, for a root that is not yet seeded, three things: the arena is acyclic (`Chains.Acyclic`); the child lists below the root terminate (`Listing(a, root).Some?`), since otherwise `mapNameToPartitionNodeFunc` never returns; and every name in the applied days is in the index. With an unknown name, Go dereferences a nil map entry and panics. That panic is not modelled.
- PlainTree.NewTree: for a map with no root marker, Go's `ValidateTree(nil)` calls `isRoot` on a nil node and panics (tree/tree.go:54, 114-116). The model returns `Failure(NilRoot)` in place of that panic. `PlainTree.ValidateTree` and `PlainTree.NewTreeAll` do the same.
- PlainTree.AllNodes: a child cycle below the node makes `allNodesFunc` recurse without end. The model returns `Unbounded` once the depth bound (the arena size) is exceeded. `copyTree` and `mapNameToPartitionNodeFunc` are treated the same way.
- Rebalance.SortBySize: `sort.Slice` is not stable, so the order among equal sizes is unspecified. The model sorts by insertion, and its contract promises only a non-increasing permutation, which is all `sort.Slice` guarantees.
- Rebalance.SeparateRoot: the separated list is stated up to the order of equal sizes, for the same reason.
- Rebalance.UniteRoot: adds the children's SubTreeSize onto the node's current SubTreeSize (tree/tree.go:242-244) rather than recomputing it from NodeSize. It restores the tree only after `SeparateRoot` has reset that size.
- Rebalance.SeparateRoot: detached children keep their `Parent` (tree/tree.go:227-228), and so does the child `RemoveChild` takes off (tree/tree.go:185-188). A later `AddToNodeSize` on such a node still walks into its old ancestors. The model reproduces this (Rebalance.SeparateRootDetaches, Rebalance.RemoveChildDetaches), and the invariant lemmas promise nothing for nodes that are not attached.
- Rebalance.UniteMaxChildKeepsSizes: the invariant is proved only for uniting the single child `SeparateMaxChild` just separated from the same node. For other lists, Rebalance.UniteMaxChildSizes gives the size changes only.
- Behaviours a caller might expect that the code does not have; the model follows the code in each case:
  - A missing child in `RemoveChild` is not an error. The weight is still subtracted (PartitionInvariant.RemoveAbsentChildBreaksSizes).
  - `SetInitialSize` refuses only a positive root `SubTreeSize`, not any nonzero one.
  - Disconnected fragments are not rejected (see Findings).

## Findings

| source | as written | input that shows it | evidently intended | confidence | as-written member | corrected member |
|---|---|---|---|---|---|---|
| tree/tree.go:52-74 | `visited` is filled from `AllNodes`, which lists only nodes reachable from the root, so the all-visited loop can never find a node outside the root's subtree | the map {A: A, B: C, C: B}: A is a childless root, while B and C name each other as parent and hang below nothing; `NewTree` accepts it | reject a map with any node that does not hang below the root, as the all-visited loop sets out to do | not executed | Scenarios.ValidateTreeMissesFragments | PlainTree.ValidateTreeAllConnected |
