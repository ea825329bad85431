/** Seeding a fresh partition tree with task counts: MapNameToPartitionNode,
    which indexes the nodes of a partition tree by name, and SetInitialSize,
    which adds the first days of a per-day task table to the named nodes. */
module InitialSize {
  import opened Results
  import opened Seqs
  import Chains
  import opened PartitionTree
  import opened PartitionInvariant
  import opened PartitionReach

  /** The names of the nodes `order`. */
  function NamesOf(a: Arena, order: seq<nat>): set<string>
    requires forall k :: 0 <= k < |order| ==> order[k] < |a|
  {
    set x | x in order :: a[x].name
  }

  /** No later node of `order` has the name of the node at position `k`. */
  predicate LastWithName(a: Arena, order: seq<nat>, k: nat)
    requires k < |order| && forall k :: 0 <= k < |order| ==> order[k] < |a|
  {
    forall k' :: k < k' < |order| ==> a[order[k']].name != a[order[k]].name
  }

  /** mapNameToPartitionNodeFunc over the visiting order `order`: each node is
      stored under its name, so a later node with the same name replaces an
      earlier one. */
  function IndexNames(a: Arena, order: seq<nat>): (m: map<string, nat>)
    requires forall k :: 0 <= k < |order| ==> order[k] < |a|
    ensures m.Keys == NamesOf(a, order)
    ensures forall name :: name in m ==> m[name] in order && a[m[name]].name == name
    ensures forall k :: 0 <= k < |order| && LastWithName(a, order, k) ==>
              m[a[order[k]].name] == order[k]
  {
    if order == [] then map[]
    else
      var init := order[..|order| - 1];
      var x := order[|order| - 1];
      assert order == init + [x];
      var m := IndexNames(a, init);
      IndexNamesStep(a, order, init, x, m);
      m[a[x].name := x]
  }

  /** Storing one more node `x` keeps the index of the nodes stored before it
      exact. */
  lemma IndexNamesStep(a: Arena, order: seq<nat>, init: seq<nat>, x: nat, m: map<string, nat>)
    requires order == init + [x] && x < |a| && forall k :: 0 <= k < |init| ==> init[k] < |a|
    requires m.Keys == NamesOf(a, init)
    requires forall name :: name in m ==> m[name] in init && a[m[name]].name == name
    requires forall k :: 0 <= k < |init| && LastWithName(a, init, k) ==> m[a[init[k]].name] == init[k]
    ensures forall k :: 0 <= k < |order| ==> order[k] < |a|
    ensures var r := m[a[x].name := x];
            && r.Keys == NamesOf(a, order)
            && (forall name :: name in r ==> r[name] in order && a[r[name]].name == name)
            && (forall k :: 0 <= k < |order| && LastWithName(a, order, k) ==> r[a[order[k]].name] == order[k])
  {
    var r := m[a[x].name := x];
    assert NamesOf(a, order) == NamesOf(a, init) + {a[x].name} by {
      assert forall y :: y in order <==> y in init || y == x;
    }
    forall k | 0 <= k < |order| && LastWithName(a, order, k)
      ensures r[a[order[k]].name] == order[k]
    {
      if k < |init| {
        assert order[k] == init[k];
        assert a[order[|init|]].name != a[order[k]].name;
        assert LastWithName(a, init, k) by {
          forall k' | k < k' < |init|
            ensures a[init[k']].name != a[init[k]].name
          {
            assert order[k'] == init[k'];
          }
        }
      }
    }
  }

  /** MapNameToPartitionNode: refuses a node that has a parent; otherwise indexes
      by name every node the recursive walk from the root visits. */
  function MapNameToPartitionNode(a: Arena, root: nat): (r: Result<map<string, nat>>)
    requires WellIndexed(a) && root < |a|
    ensures r == Failure(NeedRoot) <==> a[root].parent != -1
    ensures r.Success? <==> a[root].parent == -1 && Listing(a, root).Some?
    ensures r.Success? ==>
              && r.value.Keys == NamesOf(a, Listing(a, root).value)
              && forall name :: name in r.value ==>
                   r.value[name] in Listing(a, root).value && a[r.value[name]].name == name
  {
    if a[root].parent != -1 then Failure(NeedRoot)
    else match Listing(a, root)
      case None => Failure(Unbounded)
      case Some(order) => Success(IndexNames(a, order))
  }

  /** On a well-linked acyclic tree the index of a root is always built, and every
      node it names belongs to that root's tree. */
  lemma NameIndexOfRoot(a: Arena, root: nat)
    requires PointsBack(a) && Acyclic(a) && root < |a| && a[root].parent == -1
    ensures MapNameToPartitionNode(a, root).Success?
    ensures var m := MapNameToPartitionNode(a, root).value;
              forall name :: name in m ==> Attached(a, m[name]) && root in Chain(a, m[name])
  {
    RootAttached(a, root);
    ListingDefined(a, root);
  }

  /** When the nodes of the tree have pairwise different names, the index finds
      every node of the tree under its own name. */
  lemma NameIndexFindsEveryNode(a: Arena, root: nat)
    requires WellIndexed(a) && root < |a|
    requires MapNameToPartitionNode(a, root).Success?
    requires forall x, y :: x in Listing(a, root).value && y in Listing(a, root).value && x != y ==>
               a[x].name != a[y].name
    ensures forall x :: x in Listing(a, root).value ==>
              MapNameToPartitionNode(a, root).value[a[x].name] == x
  {
    var order := Listing(a, root).value;
    var m := MapNameToPartitionNode(a, root).value;
    forall x | x in order
      ensures m[a[x].name] == x
    {
      assert a[x].name in NamesOf(a, order);
      assert m[a[x].name] in order && a[m[a[x].name]].name == a[x].name;
    }
  }

  // ---------------------------------------------------------------- days

  /** One entry of tasksPerDay: the (name, tasks) pairs in the order Go's `range`
      happens to visit the map. */
  type Day = seq<(string, int)>

  function DayTotal(day: Day): int {
    if day == [] then 0 else day[0].1 + DayTotal(day[1..])
  }

  function DaysTotal(days: seq<Day>): int {
    if days == [] then 0 else DayTotal(days[0]) + DaysTotal(days[1..])
  }

  /** The days the loop `i < initDays && i < len(tasksPerDay)` visits. */
  function DaysApplied(days: seq<Day>, initDays: int): (r: seq<Day>)
    ensures r <= days
    ensures initDays <= 0 ==> r == []
    ensures 0 <= initDays <= |days| ==> |r| == initDays
    ensures initDays >= |days| ==> r == days
  {
    if initDays <= 0 then [] else if initDays < |days| then days[..initDays] else days
  }

  /** The tasks `day` routes through `index` to node `x`: the sum over the pairs
      whose name the index maps to `x`. */
  function DayGain(index: map<string, nat>, day: Day, x: nat): int {
    if day == [] then 0
    else (if day[0].0 in index && index[day[0].0] == x then day[0].1 else 0) + DayGain(index, day[1..], x)
  }

  function DaysGain(index: map<string, nat>, days: seq<Day>, x: nat): int {
    if days == [] then 0 else DayGain(index, days[0], x) + DaysGain(index, days[1..], x)
  }

  /** The tasks `day` lists under the name `name`. */
  function DayNamed(day: Day, name: string): int {
    if day == [] then 0
    else (if day[0].0 == name then day[0].1 else 0) + DayNamed(day[1..], name)
  }

  function DaysNamed(days: seq<Day>, name: string): int {
    if days == [] then 0 else DayNamed(days[0], name) + DaysNamed(days[1..], name)
  }

  /** Every name the days mention is among `names`. */
  predicate NamesKnown(days: seq<Day>, names: set<string>) {
    forall d, k :: 0 <= d < |days| && 0 <= k < |days[d]| ==> days[d][k].0 in names
  }

  predicate IndexInArena(a: Arena, index: map<string, nat>) {
    forall name :: name in index ==> index[name] < |a|
  }

  /** The inner loop of SetInitialSize: AddToNodeSize on the named node, for each
      pair of the day in turn. */
  function ApplyDay(a: Arena, index: map<string, nat>, day: Day): (r: Arena)
    requires WellIndexed(a) && Acyclic(a) && IndexInArena(a, index)
    requires NamesKnown([day], index.Keys)
    ensures SameShape(a, r)
    ensures forall x :: 0 <= x < |a| ==> r[x].nodeSize == a[x].nodeSize + DayGain(index, day, x)
    ensures TotalNodeSize(r) == TotalNodeSize(a) + DayTotal(day)
    decreases |day|
  {
    if day == [] then a
    else
      assert day[0].0 == [day][0][0].0;
      var i := index[day[0].0];
      var next := AddToNodeSize(a, i, day[0].1);
      TotalBump(a, next, i, day[0].1);
      SameShapeLinks(a, next);
      assert NamesKnown([day[1..]], index.Keys) by {
        forall k | 0 <= k < |day[1..]|
          ensures day[1..][k].0 in index
        {
          assert day[1..][k] == [day][0][k + 1];
        }
      }
      ApplyDay(next, index, day[1..])
  }

  /** The outer loop of SetInitialSize over the days. */
  function ApplyDays(a: Arena, index: map<string, nat>, days: seq<Day>): (r: Arena)
    requires WellIndexed(a) && Acyclic(a) && IndexInArena(a, index)
    requires NamesKnown(days, index.Keys)
    ensures SameShape(a, r)
    ensures forall x :: 0 <= x < |a| ==> r[x].nodeSize == a[x].nodeSize + DaysGain(index, days, x)
    ensures TotalNodeSize(r) == TotalNodeSize(a) + DaysTotal(days)
    decreases |days|
  {
    if days == [] then a
    else
      assert NamesKnown([days[0]], index.Keys) by {
        forall k | 0 <= k < |days[0]|
          ensures days[0][k].0 in index
        {
          assert [days[0]][0] == days[0];
        }
      }
      var next := ApplyDay(a, index, days[0]);
      SameShapeLinks(a, next);
      assert NamesKnown(days[1..], index.Keys) by {
        forall d, k | 0 <= d < |days[1..]| && 0 <= k < |days[1..][d]|
          ensures days[1..][d][k].0 in index
        {
          assert days[1..][d] == days[d + 1];
        }
      }
      ApplyDays(next, index, days[1..])
  }

  /** What SetInitialSize needs to get as far as its loop without looping forever
      or dereferencing a nil map entry: an acyclic tree below the root whose names
      cover every name of the days it applies. */
  predicate CanSeed(a: Arena, root: nat, days: seq<Day>, initDays: int)
    requires WellIndexed(a) && root < |a|
  {
    && Acyclic(a)
    && Listing(a, root).Some?
    && NamesKnown(DaysApplied(days, initDays), NamesOf(a, Listing(a, root).value))
  }

  /** SetInitialSize: refuses a node with a parent, then a tree whose root already
      has a positive SubTreeSize; otherwise adds every (name, tasks) pair of the
      first `initDays` days to the named node. */
  function SetInitialSize(a: Arena, root: nat, days: seq<Day>, initDays: int): (r: Result<Arena>)
    requires WellIndexed(a) && root < |a|
    requires a[root].parent == -1 && a[root].subTreeSize <= 0 ==> CanSeed(a, root, days, initDays)
    ensures r == Failure(NeedRoot) <==> a[root].parent != -1
    ensures r == Failure(AlreadyInitialized) <==> a[root].parent == -1 && a[root].subTreeSize > 0
    ensures r.Success? <==> a[root].parent == -1 && a[root].subTreeSize <= 0
    ensures r.Success? ==> SameShape(a, r.value)
    ensures r.Success? ==>
              TotalNodeSize(r.value) == TotalNodeSize(a) + DaysTotal(DaysApplied(days, initDays))
    ensures r.Success? ==>
              && MapNameToPartitionNode(a, root).Success?
              && forall x :: 0 <= x < |a| ==>
                   r.value[x].nodeSize ==
                     a[x].nodeSize + DaysGain(MapNameToPartitionNode(a, root).value, DaysApplied(days, initDays), x)
  {
    if a[root].parent != -1 then Failure(NeedRoot)
    else if a[root].subTreeSize > 0 then Failure(AlreadyInitialized)
    else
      match MapNameToPartitionNode(a, root)
      case Failure(e) => Failure(e)
      case Success(index) => Success(ApplyDays(a, index, DaysApplied(days, initDays)))
  }

  // ---------------------------------------------------------------- where the tasks go

  /** When the index maps `name` to `x` and no other name to `x`, the tasks a day
      routes to `x` are exactly those it lists under `name`. */
  lemma {:induction false} DayGainNamed(index: map<string, nat>, day: Day, x: nat, name: string)
    requires name in index && index[name] == x
    requires forall m :: m in index && index[m] == x ==> m == name
    ensures DayGain(index, day, x) == DayNamed(day, name)
    decreases |day|
  {
    if day != [] {
      DayGainNamed(index, day[1..], x, name);
    }
  }

  lemma {:induction false} DaysGainNamed(index: map<string, nat>, days: seq<Day>, x: nat, name: string)
    requires name in index && index[name] == x
    requires forall m :: m in index && index[m] == x ==> m == name
    ensures DaysGain(index, days, x) == DaysNamed(days, name)
    decreases |days|
  {
    if days != [] {
      DayGainNamed(index, days[0], x, name);
      DaysGainNamed(index, days[1..], x, name);
    }
  }

  /** A node the index does not name receives nothing. */
  lemma {:induction false} DayGainNone(index: map<string, nat>, day: Day, x: nat)
    requires forall m :: m in index ==> index[m] != x
    ensures DayGain(index, day, x) == 0
    decreases |day|
  {
    if day != [] {
      DayGainNone(index, day[1..], x);
    }
  }

  lemma {:induction false} DaysGainNone(index: map<string, nat>, days: seq<Day>, x: nat)
    requires forall m :: m in index ==> index[m] != x
    ensures DaysGain(index, days, x) == 0
    decreases |days|
  {
    if days != [] {
      DayGainNone(index, days[0], x);
      DaysGainNone(index, days[1..], x);
    }
  }

  /** When the nodes of the tree have pairwise different names, SetInitialSize
      adds to each node of the tree exactly the tasks the applied days list under
      that node's name, and leaves every other node's NodeSize alone. */
  lemma SetInitialSizeByName(a: Arena, root: nat, days: seq<Day>, initDays: int)
    requires WellIndexed(a) && root < |a| && a[root].parent == -1 && a[root].subTreeSize <= 0
    requires CanSeed(a, root, days, initDays)
    requires forall x, y :: x in Listing(a, root).value && y in Listing(a, root).value && x != y ==>
               a[x].name != a[y].name
    ensures SetInitialSize(a, root, days, initDays).Success?
    ensures forall x :: 0 <= x < |a| && x in Listing(a, root).value ==>
              SetInitialSize(a, root, days, initDays).value[x].nodeSize ==
                a[x].nodeSize + DaysNamed(DaysApplied(days, initDays), a[x].name)
    ensures forall x :: 0 <= x < |a| && x !in Listing(a, root).value ==>
              SetInitialSize(a, root, days, initDays).value[x].nodeSize == a[x].nodeSize
  {
    var index := MapNameToPartitionNode(a, root).value;
    var applied := DaysApplied(days, initDays);
    var l := Listing(a, root).value;
    NameIndexFindsEveryNode(a, root);
    forall x | 0 <= x < |a|
      ensures x in l ==> DaysGain(index, applied, x) == DaysNamed(applied, a[x].name)
      ensures x !in l ==> DaysGain(index, applied, x) == 0
    {
      if x in l {
        DaysGainNamed(index, applied, x, a[x].name);
      } else {
        DaysGainNone(index, applied, x);
      }
    }
  }

  // ---------------------------------------------------------------- invariant

  /** Every node the index names lies in `root`'s tree through live child links. */
  predicate IndexBelow(a: Arena, index: map<string, nat>, root: nat)
    requires IndexInArena(a, index)
  {
    forall name :: name in index ==> Attached(a, index[name]) && root in Chain(a, index[name])
  }

  lemma SameShapeIndexBelow(a: Arena, b: Arena, index: map<string, nat>, root: nat)
    requires SameShape(a, b) && IndexInArena(a, index) && IndexBelow(a, index, root)
    ensures IndexInArena(b, index) && IndexBelow(b, index, root)
  {
    SameShapeLinks(a, b);
  }

  lemma {:induction false} ApplyDayKeepsSizes(a: Arena, index: map<string, nat>, day: Day, root: nat)
    requires PointsBack(a) && Acyclic(a) && SizesConsistent(a) && root < |a|
    requires IndexInArena(a, index) && IndexBelow(a, index, root)
    requires NamesKnown([day], index.Keys)
    ensures SizesConsistent(ApplyDay(a, index, day)) && PointsBack(ApplyDay(a, index, day))
    ensures ApplyDay(a, index, day)[root].subTreeSize == a[root].subTreeSize + DayTotal(day)
    decreases |day|
  {
    if day != [] {
      assert day[0].0 == [day][0][0].0;
      var i := index[day[0].0];
      var next := AddToNodeSize(a, i, day[0].1);
      AddToNodeSizeKeepsSizes(a, i, day[0].1);
      SameShapeLinks(a, next);
      SameShapeIndexBelow(a, next, index, root);
      assert NamesKnown([day[1..]], index.Keys) by {
        forall k | 0 <= k < |day[1..]|
          ensures day[1..][k].0 in index
        {
          assert day[1..][k] == [day][0][k + 1];
        }
      }
      ApplyDayKeepsSizes(next, index, day[1..], root);
    }
  }

  lemma {:induction false} ApplyDaysKeepsSizes(a: Arena, index: map<string, nat>, days: seq<Day>, root: nat)
    requires PointsBack(a) && Acyclic(a) && SizesConsistent(a) && root < |a|
    requires IndexInArena(a, index) && IndexBelow(a, index, root)
    requires NamesKnown(days, index.Keys)
    ensures SizesConsistent(ApplyDays(a, index, days)) && PointsBack(ApplyDays(a, index, days))
    ensures ApplyDays(a, index, days)[root].subTreeSize == a[root].subTreeSize + DaysTotal(days)
    decreases |days|
  {
    if days != [] {
      assert NamesKnown([days[0]], index.Keys) by {
        forall k | 0 <= k < |days[0]|
          ensures days[0][k].0 in index
        {
          assert [days[0]][0] == days[0];
        }
      }
      var next := ApplyDay(a, index, days[0]);
      ApplyDayKeepsSizes(a, index, days[0], root);
      SameShapeLinks(a, next);
      SameShapeIndexBelow(a, next, index, root);
      assert NamesKnown(days[1..], index.Keys) by {
        forall d, k | 0 <= d < |days[1..]| && 0 <= k < |days[1..][d]|
          ensures days[1..][d][k].0 in index
        {
          assert days[1..][d] == days[d + 1];
        }
      }
      ApplyDaysKeepsSizes(next, index, days[1..], root);
    }
  }

  /** On a consistent, well-linked tree SetInitialSize keeps every SubTreeSize the
      sum of its subtree, and the root gains exactly the tasks of the applied
      days; starting from a fresh tree (all sizes zero) the root then holds the
      total of those days. */
  lemma SetInitialSizeKeepsSizes(a: Arena, root: nat, days: seq<Day>, initDays: int)
    requires PointsBack(a) && SizesConsistent(a) && root < |a|
    requires a[root].parent == -1 && a[root].subTreeSize <= 0
    requires CanSeed(a, root, days, initDays)
    ensures SetInitialSize(a, root, days, initDays).Success?
    ensures SizesConsistent(SetInitialSize(a, root, days, initDays).value)
    ensures PointsBack(SetInitialSize(a, root, days, initDays).value)
    ensures SetInitialSize(a, root, days, initDays).value[root].subTreeSize ==
              a[root].subTreeSize + DaysTotal(DaysApplied(days, initDays))
  {
    NameIndexOfRoot(a, root);
    var index := MapNameToPartitionNode(a, root).value;
    ApplyDaysKeepsSizes(a, index, DaysApplied(days, initDays), root);
  }
}
