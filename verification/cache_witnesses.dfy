/** Short runs from the empty cache that leave a state the conditions of the other modules exclude
    (pkg/scheduler/internal/cache/cache.go). */
module CacheWitnesses {
  import opened Api
  import opened Resources
  import opened NodeInfos
  import opened PoolStates
  import opened PoolMaps
  import opened MapSums
  import opened CachePods
  import opened PodEffects
  import opened CacheNodes
  import opened CachePlacement
  import opened CachePools
  import opened SchedulerCaches

  /** A selector selects the nodes that have it as a tag. */
  function HasLabel(): Matcher { (selector: Selector, labels: map<string, string>) => selector in labels }

  function PoolFor(name: string, tag: string): Pool {
    Pool(name, PoolSpec(Some(tag), false, false, [], false))
  }

  function NodeIn(zone: string, labels: map<string, string>, cpu: int): Node {
    Node("n", zone, labels, map[CPU := cpu], map[CPU := cpu])
  }

  function PodOn(nodeName: string): Pod {
    Pod("u", "pod", "ns", nodeName, "", "ai-scheduler", None, [], [])
  }

  /** With one pool besides the default one, a node belongs to it exactly when it has the tag. */
  lemma HomeWithOne(pools: Pools, p: string, tag: string, node: Node)
    requires Keyed(pools) && pools.Keys == {DefaultPoolName, p} && p != DefaultPoolName
    requires pools[p].pool == Some(PoolFor(p, tag))
    ensures Home(HasLabel(), pools, node) == if tag in node.labels then p else DefaultPoolName
  {
    HomeCases(HasLabel(), pools, node, {});
    assert forall n :: Matches(HasLabel(), pools, node, n) <==> n == p && tag in node.labels;
    assert tag in node.labels ==> OnlyMatch(HasLabel(), pools, node, {}, p);
  }

  /** A cache with one pool and nothing else. */
  method WithOnePool() returns (c: SchedulerCache)
    ensures fresh(c) && c.mt == HasLabel() && c.Valid() && Laid(c.pools) && Placed(c.mt, c.pools)
    ensures Keyed(c.pools) && OnePool(c.pools, "a") && Flat(c.pools) == map[] && c.podStates == map[]
    ensures c.assumedPods == {} && c.ttl == 0
    ensures PoolsOk(c.pools)
  {
    hide Inv, Flat, Placed, Laid, PoolAdded, PoolsOk;
    c := new SchedulerCache(0, HasLabel());
    EmptyIsPlaced(c);
    var r := c.AddPool(PoolFor("a", "a"));
    AddPoolKeeps(c.mt, map[DefaultPoolName := NewPool], PoolFor("a", "a"), c.pools);
    LaidKeyed(c.pools);
  }

  ghost predicate OnePool(pools: Pools, tag: string) {
    pools.Keys == {DefaultPoolName, "a"} && pools["a"].pool == Some(PoolFor("a", tag))
  }

  lemma EmptyIsPlaced(c: SchedulerCache)
    requires c.Valid() && c.pools == map[DefaultPoolName := NewPool]
    ensures Laid(c.pools) && Placed(c.mt, c.pools) && PoolsOk(c.pools) && Flat(c.pools) == map[]
  {
    assert AllNames(c.pools) == {};
  }

  /** A cache with one pool and a node in it. */
  method WithOneNode(node: Node) returns (c: SchedulerCache)
    requires node.name == "n" && "a" in node.labels
    ensures fresh(c) && c.mt == HasLabel() && c.Valid() && Laid(c.pools) && Placed(c.mt, c.pools) && Keyed(c.pools)
    ensures OnePool(c.pools, "a") && "n" in c.pools["a"].nodes && c.pools["a"].nodes["n"] == SetNode(Empty, node)
    ensures c.podStates == map[] && c.assumedPods == {} && c.ttl == 0
  {
    hide Inv, Flat, Placed, Laid, Home;
    c := WithOnePool();
    HomeWithOne(c.pools, "a", "a", node);
    NothingInEmpty(node.zone);
    NotFlat(c.pools, "n");
    c.AddNode(node);
    LaidKeyed(c.pools);
  }

  lemma NothingInEmpty(zone: string)
    ensures NothingCounted(Empty, zone)
  {
  }

  // ----- AddNode -----

  /** A cache with one pool and a pod on a node that is not known yet. */
  method WithOnePod() returns (c: SchedulerCache)
    ensures fresh(c) && c.mt == HasLabel() && Laid(c.pools) && Placed(c.mt, c.pools) && Keyed(c.pools)
    ensures OnePool(c.pools, "a") && "n" in c.pools[DefaultPoolName].nodes
  {
    hide Inv, Flat, Placed, Laid, AddPodTo, Effect, OnItsNode;
    c := WithOnePool();
    NotFlat(c.pools, "n");
    AddPodParts(c.pools[DefaultPoolName], PodOn("n"));
    EventIsPlaced(c.mt, c.pools, PodOn("n"));
    var r := c.AddPod(PodOn("n"));
  }

  /** A pod on an unknown node, and then the node in a pool of its own: the name is in two pools. */
  method NameHeldTwice() returns (c: SchedulerCache)
    ensures !NamesUnique(c.pools)
  {
    hide Inv, Flat, Placed, Laid, Home, AddNodeTo;
    c := WithOnePod();
    var node := NodeIn("z", map["a" := ""], 1);
    HomeWithOne(c.pools, "a", "a", node);
    AddNodeParts(c.pools["a"], node);
    c.AddNode(node);
    assert "n" in c.pools[DefaultPoolName].nodes && "n" in c.pools["a"].nodes;
  }

  lemma EventIsPlaced(mt: Matcher, pools: Pools, pod: Pod)
    requires Laid(pools) && Placed(mt, pools) && pod.nodeName != ""
    ensures Laid(PodIn(pools, pod)) && Placed(mt, PodIn(pools, pod)) && SameSpecs(pools, PodIn(pools, pod))
    ensures Keyed(PodIn(pools, pod))
  {
    hide Flat, Placed, PodIn;
    PodInLaid(mt, pools, pod);
  }

  // ----- sums -----

  /** A Node added twice is counted twice. */
  lemma AddedTwice(node: Node)
    requires node.capacity == map[CPU := 1]
    ensures Accounted(AddNodeTo(NewPool, node)) && !Accounted(AddNodeTo(AddNodeTo(NewPool, node), node))
  {
    hide Accounted, AddList;
    NewPoolAccounted();
    NothingInEmpty(node.zone);
    AddNodeAccounted(NewPool, node);
    AddNodeAccounted(AddNodeTo(NewPool, node), node);
    assert Quantity(node.capacity, CPU) != Quantity(map[], CPU);
  }

  /** A Node removed, or updated, with other figures than were added leaves the difference. */
  lemma RemovedWithOtherFigures(node: Node, other: Node)
    requires node.capacity == map[CPU := 2] && other == node.(capacity := map[CPU := 1])
    ensures !Accounted(RemoveNodeFrom(AddNodeTo(NewPool, node), other))
    ensures !Accounted(UpdateNodeIn(AddNodeTo(NewPool, node), other, node))
  {
    hide Accounted, AddList, Sub, NewResource;
    NewPoolAccounted();
    NothingInEmpty(node.zone);
    AddNodeAccounted(NewPool, node);
    var p := AddNodeTo(NewPool, node);
    RemoveNodeAccounted(p, other);
    UpdateNodeAccounted(p, other, node);
    assert Quantity(node.capacity, CPU) != Quantity(other.capacity, CPU);
  }

  // ----- UpdateNode -----

  /** A cache with one pool and a node outside it. */
  method WithNodeOutside(node: Node) returns (c: SchedulerCache)
    requires node.name == "n" && "a" !in node.labels
    ensures fresh(c) && c.mt == HasLabel() && c.Valid() && Laid(c.pools) && Placed(c.mt, c.pools) && Keyed(c.pools)
    ensures OnePool(c.pools, "a") && IsStored(c.pools, node) && Flat(c.pools).Keys == {"n"}
    ensures "n" in c.pools[DefaultPoolName].nodes && c.pools[DefaultPoolName].nodes["n"].node == Some(node)
    ensures SpotOf(node) in c.pools[DefaultPoolName].tree && c.pools["a"].tree == {} && "n" !in c.pools["a"].nodes
  {
    hide Inv, Flat, Placed, Laid, Home;
    c := WithOnePool();
    NoEntries(c.pools, "a");
    HomeWithOne(c.pools, "a", "a", node);
    NothingInEmpty(node.zone);
    NotFlat(c.pools, "n");
    AddNodeKeepsPlacement(c.mt, c.pools, node);
    c.AddNode(node);
    LaidKeyed(c.pools);
    StoredIn(c.pools, DefaultPoolName, node);
  }

  /** A node outside every pool gets the label of a pool, together with other figures or another zone:
      afterwards sums or tree are wrong. */
  method MovedWithAnotherFootprint(newNode: Node) returns (c: SchedulerCache)
    requires newNode.name == "n" && "a" in newNode.labels && !SameFootprint(NodeIn("z", map[], 1), newNode)
    ensures fresh(c) && c.mt == HasLabel() && Laid(c.pools) && Placed(c.mt, c.pools) && !c.Valid()
    ensures Keyed(c.pools) && OnePool(c.pools, "a") && IsStored(c.pools, newNode) && "n" in c.pools["a"].nodes
    ensures c.pools["a"].nodes["n"].node == Some(newNode) && c.pools["a"].tree == {Spot("z", "n")}
    ensures Flat(c.pools).Keys == {"n"}
  {
    hide Inv, Flat, Placed, Laid, Home, SameFootprint, NodeUpdated, SetNode, IsStored, FindsPlace;
    var node := NodeIn("z", map[], 1);
    c := WithNodeOutside(node);
    HomeWithOne(c.pools, "a", "a", node);
    HomeWithOne(c.pools, "a", "a", newNode);
    MovedTree(c.pools, node, newNode);
    var r := c.UpdateNode(node, newNode);
    LaidKeyed(c.pools);
    StoredIn(c.pools, "a", newNode);
  }

  lemma NoEntries(pools: Pools, n: string)
    requires PoolsOk(pools) && Flat(pools) == map[] && n in pools
    ensures pools[n].nodes == map[] && pools[n].tree == {}
  {
    hide Flat, PoolOf;
    assert pools[n].nodes.Keys == {} by {
      forall x | x in pools[n].nodes ensures false {
        FlatAt(pools, n, x);
      }
    }
  }

  /** The entry gets the new Node, and the tree keeps the old zone. */
  lemma MovedTree(pools: Pools, node: Node, newNode: Node)
    requires Laid(pools) && Keyed(pools) && OnePool(pools, "a") && node.name == "n" == newNode.name
    requires "n" in pools[DefaultPoolName].nodes && pools[DefaultPoolName].nodes["n"].node == Some(node)
    requires SpotOf(node) in pools[DefaultPoolName].tree && pools["a"].tree == {} && "n" !in pools["a"].nodes
    requires Home(HasLabel(), pools, node) == DefaultPoolName && Home(HasLabel(), pools, newNode) == "a"
    ensures var q := NodeUpdated(HasLabel(), pools, node, newNode).0;
      && NodeUpdated(HasLabel(), pools, node, newNode).1.Done?
      && OnePool(q, "a") && "n" in q["a"].nodes && q["a"].nodes["n"].node == Some(newNode)
        && q["a"].tree == {SpotOf(node)}
  {
    hide Laid, Home, HandOut, TakeOver, NewResource, Keyed, MoveEntry;
    MovedParts(pools, DefaultPoolName, "a", "n");
  }

  lemma MovedParts(pools: Pools, a: string, b: string, x: string)
    requires a in pools && b in pools && a != b && x in pools[a].nodes
    requires pools[a].nodes[x].node.Some? && pools[a].nodes[x].node.value.name == x
    ensures var q, e := MoveEntry(pools, a, b, x), pools[a].nodes[x];
      && q.Keys == pools.Keys && (forall n :: n in pools ==> q[n].pool == pools[n].pool)
      && q[b].nodes == pools[b].nodes[x := e] && q[b].tree == pools[b].tree + {SpotOf(e.node.value)}
  {
    hide HandOut, TakeOver;
    var e := pools[a].nodes[x];
    HandOutParts(pools[a], e);
    TakeOverParts(pools[b], e);
  }

  /** A second update, back out of the pool: the tree holds the node under its old zone, the update is
      refused, and the entry is in no pool any more. */
  method EntryLost() returns (c: SchedulerCache, r: Outcome)
    ensures fresh(c) && c.mt == HasLabel() && Laid(c.pools) && Placed(c.mt, c.pools) && Keyed(c.pools)
    ensures OnePool(c.pools, "a") && r == Failed(NodeNotFound) && "n" !in Flat(c.pools)
  {
    hide Inv, Flat, Placed, Laid, Home, SameFootprint, IsStored, SetNode, FindsPlace, HandOut;
    ZoneIsFootprint();
    var moved := NodeIn("y", map["a" := ""], 1);
    c := MovedWithAnotherFootprint(moved);
    var back := NodeIn("y", map[], 1);
    HomeWithOne(c.pools, "a", "a", moved);
    HomeWithOne(c.pools, "a", "a", back);
    assert "z"[0] != "y"[0];
    assert !InTree(c.pools["a"], c.pools["a"].nodes["n"]);
    LaidNamed(c.pools, "a", "n");
    HandOutParts(c.pools["a"], c.pools["a"].nodes["n"]);
    r := c.UpdateNode(moved, back);
    LaidKeyed(c.pools);
  }

  /** A third one, into the pool again: there is no entry to move, and the program ends. */
  method UpdatePanics() returns (r: Outcome)
    ensures r == Failed(NilPointer)
  {
    hide Inv, Flat, Placed, Laid, Home, FindsPlace, HandOut, TakeOver, NodeUpdated;
    var c, lost := EntryLost();
    var back, again := NodeIn("y", map[], 1), NodeIn("y", map["a" := ""], 1);
    HomeWithOne(c.pools, "a", "a", back);
    HomeWithOne(c.pools, "a", "a", again);
    NotFlat(c.pools, "n");
    UpdateNodePanicsIff(c.mt, c.pools, back, again);
    r := c.UpdateNode(back, again);
  }

  /** Instead of the second update, the pool gets another selector: the node goes back with its capacity
      still counted in the pool it leaves, and the cluster has more capacity than its nodes. */
  method CountedTwice() returns (c: SchedulerCache, ghost before: Pools)
    ensures Flat(c.pools) == Flat(before) && !SameTotals(before, c.pools)
  {
    hide Inv, Flat, Placed, Laid, Home, SameFootprint, IsStored, SetNode, PoolUpdated, SameTotals, PoolOf;
    ZoneIsFootprint();
    var moved := NodeIn("y", map["a" := ""], 1);
    c := MovedWithAnotherFootprint(moved);
    before := c.pools;
    c.UpdatePool(PoolFor("a", "a"), PoolFor("a", "b"));
    MovesCounted(before, c.pools, moved);
  }

  lemma MovesCounted(before: Pools, after: Pools, moved: Node)
    requires Laid(before) && Placed(HasLabel(), before) && Keyed(before) && OnePool(before, "a")
    requires "n" in before["a"].nodes && before["a"].nodes["n"].node == Some(moved) && Flat(before).Keys == {"n"}
    requires before["a"].tree == {Spot("z", "n")} && moved == NodeIn("y", map["a" := ""], 1)
    requires PoolUpdated(HasLabel(), before, PoolFor("a", "a"), PoolFor("a", "b"), after)
    ensures !SameTotals(before, after)
  {
    hide Flat, Placed, Laid, Home, PoolOf, OnlyMoved, SameTotals, MapSums.Sum, CapacityOf;
    var pool := PoolFor("a", "b");
    var updated := WithPool(before, pool);
    assert "a"[0] != "b"[0] && "y"[0] != "z"[0];
    WithPoolLaid(before, pool);
    SetPoolTotals(before, "a", updated["a"]);
    UpdatePoolKeeps(HasLabel(), before, PoolFor("a", "a"), pool, after);
    LaidNamed(updated, "a", "n");
    LaidKeyed(after);
    HomeWithOne(after, "a", "b", moved);
    assert PoolOf(after, "n") == DefaultPoolName by {
      PlacedAt(HasLabel(), after, "n");
    }
    var mid :| MovedAway(HasLabel(), updated, "a", mid) && MovedTo(HasLabel(), mid, "a", after);
    MovedTwice(updated, mid, after);
    FirstMoved(updated, after);
    TotalsDiffer(before, updated, after, CPU);
  }

  lemma PlacedAt(mt: Matcher, pools: Pools, x: string)
    requires Placed(mt, pools) && x in Flat(pools) && Flat(pools)[x].node.Some?
    ensures PoolOf(pools, x) == Home(mt, pools, Flat(pools)[x].node.value)
  {
    hide Flat, PoolOf, Home;
  }

  lemma FirstMoved(pools: Pools, after: Pools)
    requires Laid(pools) && OnlyMoved(pools, after) && Flat(pools).Keys == {"n"} && "a" in pools
    requires "n" in pools["a"].nodes && pools["a"].nodes["n"].node == Some(NodeIn("y", map["a" := ""], 1))
    requires pools["a"].tree == {Spot("z", "n")} && PoolOf(after, "n") != "a"
    ensures Sum(after, CapacityIn(CPU)) > Sum(pools, CapacityIn(CPU))
  {
    hide Flat, Laid, PoolOf, AfterMoves, MapSums.Sum;
    LaidNamed(pools, "a", "n");
    var moves: seq<Move> :| AfterMoves(pools, moves) == Some(after);
    if moves == [] {
      assert AfterMoves(pools, []) == Some(pools) by { NoMoves(pools); }
    } else {
      FirstMoveCounts(pools, moves, after, CPU);
      LaidNamed(pools, moves[0].from, moves[0].entry);
      assert "y"[0] != "z"[0];
    }
  }

  lemma NoMoves(pools: Pools)
    ensures AfterMoves(pools, []) == Some(pools)
  {
  }

  lemma TotalsDiffer(a: Pools, b: Pools, c: Pools, n: ResourceName)
    requires SameTotals(a, b) && Sum(b, CapacityIn(n)) < Sum(c, CapacityIn(n))
    ensures !SameTotals(a, c)
  {
    hide MapSums.Sum;
    assert SameTotal(a, b, n);
    assert !SameTotal(a, c, n);
  }

  lemma StoredIn(pools: Pools, n: string, node: Node)
    requires Laid(pools) && n in pools && node.name in pools[n].nodes && pools[n].nodes[node.name].node == Some(node)
    ensures IsStored(pools, node) && PoolOf(pools, node.name) == n
  {
    hide Flat, PoolOf, Laid;
    LaidNamed(pools, n, node.name);
  }

  lemma ZoneIsFootprint()
    ensures !SameFootprint(NodeIn("z", map[], 1), NodeIn("y", map["a" := ""], 1))
    ensures !SameFootprint(NodeIn("z", map[], 1), NodeIn("z", map["a" := ""], 2))
  {
    assert "z"[0] != "y"[0];
    assert Quantity(NodeIn("z", map[], 1).capacity, CPU) != Quantity(NodeIn("z", map["a" := ""], 2).capacity, CPU);
  }

  // ----- pools -----

  /** AddPool on a known name with another selector: the pool keeps a node it no longer matches. */
  method KnownPoolAddedAgain() returns (c: SchedulerCache)
    ensures Laid(c.pools) && !Placed(c.mt, c.pools)
  {
    hide Inv, Flat, Placed, Laid, Home, PoolAdded;
    var node := NodeIn("z", map["a" := ""], 1);
    c := WithOneNode(node);
    StoredIn(c.pools, "a", node);
    OtherSelector(c.pools, node);
    var r := c.AddPool(PoolFor("a", "b"));
  }

  /** UpdatePool whose old selector is not the stored one: nothing moves at all. */
  method PoolUpdatedFromStale() returns (c: SchedulerCache)
    ensures Laid(c.pools) && !Placed(c.mt, c.pools)
  {
    hide Inv, Flat, Placed, Laid, Home, PoolUpdated;
    var node := NodeIn("z", map["a" := ""], 1);
    c := WithOneNode(node);
    StoredIn(c.pools, "a", node);
    OtherSelector(c.pools, node);
    c.UpdatePool(PoolFor("a", "b"), PoolFor("a", "b"));
  }

  lemma OtherSelector(pools: Pools, node: Node)
    requires Laid(pools) && OnePool(pools, "a") && IsStored(pools, node) && PoolOf(pools, node.name) == "a"
    requires node.labels == map["a" := ""]
    ensures var updated := WithPool(pools, PoolFor("a", "b"));
      !NothingElseToMove(HasLabel(), pools, updated, "a") && !SameReach(HasLabel(), pools, updated, "a")
  {
    hide Flat, PoolOf, Home, Laid;
    LaidKeyed(pools);
    var updated := WithPool(pools, PoolFor("a", "b"));
    WithPoolLaid(pools, PoolFor("a", "b"));
    LaidKeyed(updated);
    assert "a"[0] != "b"[0];
    HomeWithOne(updated, "a", "b", node);
    assert Matches(HasLabel(), pools, node, "a") && !Matches(HasLabel(), updated, node, "a");
    assert forall n :: n != "a" ==> !Matches(HasLabel(), pools, node, n);
  }

  /** RemovePool with an entry whose Node left before its pod: a known pod is on no entry any more. */
  method PodLostWithPool() returns (c: SchedulerCache)
    ensures Laid(c.pools) && Placed(c.mt, c.pools) && !c.Valid()
  {
    hide Inv, Flat, Placed, Laid, Home, PodIn, PoolRemoved, Effect, OnItsNode, RemovalCounts;
    var node := NodeIn("z", map["a" := ""], 1);
    c := WithOneNode(node);
    ghost var first := c.pools;
    var r := c.AddPod(PodOn("n"));
    PodInPool(c.mt, first, PodOn("n"));
    StoredIn(c.pools, "a", node);
    HomeWithOne(c.pools, "a", "a", node);
    r := c.RemoveNode(node);
    assert "n" in Nodeless(c.pools, "a");
    r := c.RemovePool("a");
  }

  lemma PodInPool(mt: Matcher, pools: Pools, pod: Pod)
    requires Laid(pools) && Placed(mt, pools) && Keyed(pools) && OnePool(pools, "a") && pod.nodeName == "n"
    requires "n" in pools["a"].nodes
    ensures var q := PodIn(pools, pod);
      && Laid(q) && Placed(mt, q) && Keyed(q) && OnePool(q, "a") && "n" in q["a"].nodes
      && q["a"].nodes["n"].node == pools["a"].nodes["n"].node && q["a"].nodes["n"].pods != []
  {
    hide Flat, Placed, Laid, PoolOf, AddPodTo;
    LaidNamed(pools, "a", "n");
    EventIsPlaced(mt, pools, pod);
    AddPodParts(pools["a"], pod);
  }

  // ----- lives of a pod -----

  /** A pod is assumed, and its binding is finished. */
  method Bound(now: int) returns (c: SchedulerCache, outcomes: seq<Outcome>)
    ensures outcomes == [Done, Done] && fresh(c) && c.Valid() && Laid(c.pools) && c.ttl == 0
    ensures c.podStates == map["u" := PodState(PodOn("n"), Some(now), true)] && c.assumedPods == {"u"}
  {
    hide Inv, Flat, Placed, Laid, Home, Effect, PodIn, PodOut, CanTakeOut;
    c := WithOneNode(NodeIn("z", map["a" := ""], 1));
    var assumed := c.AssumePod(PodOn("n"));
    StillLaid(c);
    var bound := c.FinishBindingAt(PodOn("n"), now);
    StillLaid(c);
    outcomes := [assumed, bound];
  }

  /** Then it is confirmed, updated and removed: every event is accepted, and in the end nothing is known
      of it. */
  method FullLife(now: int) returns (c: SchedulerCache, outcomes: seq<Outcome>)
    ensures outcomes == [Done, Done, Done, Done, Done] && c.Valid() && c.podStates == map[]
  {
    hide Inv, Flat, Placed, Laid, Home, Effect, PodIn, PodOut, CanTakeOut, On, OnItsNode;
    c, outcomes := Bound(now);
    var pod := PodOn("n");
    var added := c.AddPod(pod);
    StillLaid(c);
    var updated := c.UpdatePod(pod, pod.(poolAnnotation := "a"));
    StillLaid(c);
    var removed := c.RemovePod(pod);
    outcomes := outcomes + [added, updated, removed];
  }

  /** Or it is not confirmed: it is still there at its deadline, and gone one moment later. */
  method Expiry(now: int) returns (c: SchedulerCache, ghost atDeadline: map<string, PodState>)
    ensures "u" in atDeadline && c.Valid() && c.podStates == map[] && c.assumedPods == {}
  {
    hide Inv, Flat, Placed, Laid, Home;
    var outcomes;
    c, outcomes := Bound(now);
    ValidIsWellPlaced(c);
    c.CleanupAssumedPods(now);
    atDeadline := c.podStates;
    ValidIsWellPlaced(c);
    c.CleanupAssumedPods(now + 1);
  }

  lemma ValidIsWellPlaced(c: SchedulerCache)
    requires c.Valid()
    ensures WellPlaced(c.mt, c.State())
  {
    hide Inv, WellPlaced;
    InvIsWellPlaced(c.mt, c.State());
  }

  lemma StillLaid(c: SchedulerCache)
    requires c.Valid()
    ensures Laid(c.pools)
  {
    hide Laid, Placed, PodsKnown, Flat;
  }

  /** An assumed pod is forgotten. */
  method Forgotten() returns (c: SchedulerCache, outcomes: seq<Outcome>)
    ensures outcomes == [Done, Done] && c.Valid() && c.podStates == map[] && c.assumedPods == {}
  {
    hide Inv, Flat, Placed, Laid, Home, Effect, PodIn, PodOut, CanTakeOut, On, OnItsNode;
    c := WithOneNode(NodeIn("z", map["a" := ""], 1));
    var assumed := c.AssumePod(PodOn("n"));
    StillLaid(c);
    var forgotten := c.ForgetPod(PodOn("n"));
    outcomes := [assumed, forgotten];
  }
}
