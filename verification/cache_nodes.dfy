/** Node events in the scheduler cache (pkg/scheduler/internal/cache/cache.go). */
module CacheNodes {
  import opened Api
  import opened Resources
  import opened NodeInfos
  import opened PoolStates
  import opened MapSums
  import opened PoolMaps
  import opened CachePods

  /** Entries may change in any way that keeps their pods. */
  lemma KnownSamePods(a: map<string, NodeInfo>, b: map<string, NodeInfo>, podStates: map<string, PodState>)
    requires PodsKnown(a, podStates)
    requires forall x :: x in b ==> b[x].pods == EntryIn(a, x).pods
    requires forall x :: x in a && a[x].pods != [] ==> x in b
    ensures PodsKnown(b, podStates)
  {
    forall x, i | x in b && 0 <= i < |b[x].pods|
      ensures Listed(x, b[x].pods[i], podStates)
    {
      assert Listed(x, a[x].pods[i], podStates);
    }
    forall k | k in podStates
      ensures Found(b, k, podStates[k].pod)
    {
      assert Found(a, k, podStates[k].pod);
    }
  }

  /** A changed entry: same place, same pods, a Node that belongs there. */
  lemma PlacedChange(mt: Matcher, a: Pools, b: Pools, x: string)
    requires Placed(mt, a) && SameSpecs(a, b)
    requires forall y :: y in Flat(b) && y != x ==>
      y in Flat(a) && Flat(a)[y] == Flat(b)[y] && PoolOf(b, y) == PoolOf(a, y)
    requires x in Flat(b) && Flat(b)[x].node.Some? ==> PoolOf(b, x) == Home(mt, a, Flat(b)[x].node.value)
    ensures Placed(mt, b)
  {
    hide PoolOf, Flat, Home, SameSpecs;
    forall y | y in Flat(b) && Flat(b)[y].node.Some?
      ensures PoolOf(b, y) == Home(mt, b, Flat(b)[y].node.value)
    {
      SameSpecsSameHome(mt, a, b, Flat(b)[y].node.value, {});
    }
  }

  /** When one pool of sound pools changed and the rest of the invariant holds, all depends on the
      sums and the tree of that pool. */
  lemma InvAfterChange(mt: Matcher, c: Cache, base: Pools, n: string, p: PoolState)
    requires AllAccounted(base) && AllTreed(base) && n in base && Laid(base[n := p]) && Placed(mt, base[n := p])
    requires EntriesOk(Flat(base[n := p])) && PodsKnown(Flat(base[n := p]), c.podStates) && AssumedOk(c)
    ensures Inv(mt, c.(pools := base[n := p])) <==> Accounted(p) && Treed(p)
  {
    hide Accounted, Treed, Laid, Placed, EntriesOk, PodsKnown, Flat;
    var q := base[n := p];
    assert forall m :: m in q ==> q[m] == if m == n then p else base[m];
    assert q[n] == p;
  }

  lemma EntriesPut(flat: map<string, NodeInfo>, x: string, e: NodeInfo)
    requires EntriesOk(flat) && Consistent(e) && (e.node.None? ==> e.pods != [])
    ensures EntriesOk(flat[x := e]) && EntriesOk(flat - {x})
  {
    hide Consistent;
  }

  lemma HomeExists(mt: Matcher, pools: Pools, node: Node)
    requires Keyed(pools)
    ensures Home(mt, pools, node) in pools
  {
    HomeCases(mt, pools, node, {});
  }

  // ----- AddNode -----

  ghost function NodeAdded(mt: Matcher, pools: Pools, node: Node): Pools
    requires Keyed(pools)
  {
    HomeExists(mt, pools, node);
    var n := Home(mt, pools, node);
    pools[n := AddNodeTo(pools[n], node)]
  }

  /** AddNode puts the node where it belongs without looking for an entry elsewhere: names stay
      unique exactly when no other pool has an entry of this name. */
  lemma AddNodeKeepsNamesUnique(mt: Matcher, pools: Pools, node: Node)
    requires Laid(pools)
    ensures NamesUnique(NodeAdded(mt, pools, node)) <==> HomeIsFree(mt, pools, node)
  {
    hide Home, Flat, PoolOf;
    HomeExists(mt, pools, node);
    var n, x := Home(mt, pools, node), node.name;
    var q := NodeAdded(mt, pools, node);
    var e := SetNode(EntryOf(pools[n], x), node);
    if x in Flat(pools) {
      FlatFrom(pools, x);
      if PoolOf(pools, x) == n {
        UniquePut(pools, n, q[n], x, e);
      } else {
        assert x in q[n].nodes && x in q[PoolOf(pools, x)].nodes;
      }
    } else {
      UniquePut(pools, n, q[n], x, e);
    }
  }

  /** No pool other than the one the node belongs to has an entry of its name. */
  ghost predicate HomeIsFree(mt: Matcher, pools: Pools, node: Node) {
    node.name in Flat(pools) ==> PoolOf(pools, node.name) == Home(mt, pools, node)
  }

  lemma HomeEntry(mt: Matcher, pools: Pools, node: Node)
    requires Laid(pools) && HomeIsFree(mt, pools, node)
    ensures var n, x := Home(mt, pools, node), node.name;
      && n in pools && EntryIn(Flat(pools), x) == EntryOf(pools[n], x) && (x in Flat(pools) <==> x in pools[n].nodes)
  {
    hide Flat, PoolOf, Home, NamesUnique;
    HomeExists(mt, pools, node);
    if node.name in Flat(pools) {
      FlatFrom(pools, node.name);
    } else {
      NotFlat(pools, node.name);
    }
  }

  /** With the name free elsewhere, the node is in its place. */
  lemma AddNodeKeepsPlacement(mt: Matcher, pools: Pools, node: Node)
    requires Laid(pools) && Placed(mt, pools) && HomeIsFree(mt, pools, node)
    ensures Laid(NodeAdded(mt, pools, node)) && Placed(mt, NodeAdded(mt, pools, node))
    ensures Flat(NodeAdded(mt, pools, node)) == Flat(pools)[node.name := SetNode(EntryIn(Flat(pools), node.name), node)]
  {
    hide Flat, PoolOf, Home, NamesUnique, Named, Keyed, Placed, AddList, NewResource;
    HomeEntry(mt, pools, node);
    var n, x, q := Home(mt, pools, node), node.name, NodeAdded(mt, pools, node);
    PutLaid(pools, n, q[n], x, SetNode(EntryIn(Flat(pools), x), node));
    PlacedChange(mt, pools, q, x);
  }

  /** The invariant survives exactly when, besides, the entry had no Node that counted or sat in
      another zone: adding a Node again counts it twice. */
  lemma AddNodeKeepsInv(mt: Matcher, c: Cache, node: Node)
    requires Inv(mt, c)
    ensures Keyed(c.pools)
    ensures Inv(mt, c.(pools := NodeAdded(mt, c.pools, node)))
      <==> HomeIsFree(mt, c.pools, node) && NothingCounted(EntryIn(Flat(c.pools), node.name), node.zone)
  {
    hide Inv, NodeAdded, HomeIsFree, NothingCounted, Flat, Laid, Placed;
    InvIsWellPlaced(mt, c);
    LaidKeyed(c.pools);
    if HomeIsFree(mt, c.pools, node) {
      AddedAtHome(mt, c, node);
    } else {
      var d := c.(pools := NodeAdded(mt, c.pools, node));
      AddNodeKeepsNamesUnique(mt, c.pools, node);
      if Inv(mt, d) {
        InvIsWellPlaced(mt, d);
        LaidUnique(d.pools);
      }
    }
  }

  lemma AddedAtHome(mt: Matcher, c: Cache, node: Node)
    requires Inv(mt, c) && Keyed(c.pools) && HomeIsFree(mt, c.pools, node)
    ensures Inv(mt, c.(pools := NodeAdded(mt, c.pools, node))) <==>
      NothingCounted(EntryIn(Flat(c.pools), node.name), node.zone)
  {
    hide Accounted, EntriesOk, PoolOf, Flat, Placed, Home, PodsKnown, AddNodeTo, SameAmounts, Laid, Treed, HomeIsFree;
    HomeEntry(mt, c.pools, node);
    AddNodeKeepsPlacement(mt, c.pools, node);
    var n := Home(mt, c.pools, node);
    AddNodeAccounted(c.pools[n], node);
    AddNodeTreed(c.pools, n, node);
    NewNodeKept(c, node.name, node);
    InvAfterChange(mt, c, c.pools, n, AddNodeTo(c.pools[n], node));
  }

  lemma EntryConsistent(flat: map<string, NodeInfo>, x: string)
    requires EntriesOk(flat)
    ensures Consistent(EntryIn(flat, x))
  {
    EmptyConsistent();
  }

  lemma LaidUnique(pools: Pools)
    ensures Laid(pools) ==> NamesUnique(pools)
  {
  }

  /** The entry has no Node, or one without figures in this zone. */
  ghost predicate NothingCounted(e: NodeInfo, zone: string) {
    && SameAmounts(NodeCapacity(e), map[]) && SameAmounts(NodeAllocatable(e), map[])
    && (e.node.Some? ==> e.node.value.zone == zone)
  }

  lemma AddNodeTreed(pools: Pools, n: string, node: Node)
    requires Laid(pools) && n in pools && Treed(pools[n])
    ensures var e := EntryOf(pools[n], node.name);
      Treed(AddNodeTo(pools[n], node)) <==> (e.node.Some? ==> e.node.value.zone == node.zone)
  {
    hide SpotsOf, AddList, NewResource;
    var nodes, x := pools[n].nodes, node.name;
    SpotsPut(nodes, x, SetNode(EntryOf(pools[n], x), node));
    if x in nodes && nodes[x].node.Some? {
      NamedAt(nodes, x);
      SpotAt(nodes, SpotOf(nodes[x].node.value));
    }
  }

  lemma SameAmountsSelf(a: ResourceList)
    ensures SameAmounts(a, a)
  {
  }

  lemma SetNodeConsistent(e: NodeInfo, node: Node)
    requires Consistent(e) || e == Empty
    ensures Consistent(SetNode(e, node))
  {
  }

  lemma RemoveNodeConsistent(e: NodeInfo)
    requires Consistent(e)
    ensures Consistent(RemoveNode(e))
  {
  }

  // ----- RemoveNode -----

  ghost function NodeRemoved(mt: Matcher, pools: Pools, node: Node): (Pools, Outcome)
    requires Keyed(pools)
  {
    HomeExists(mt, pools, node);
    var n := Home(mt, pools, node);
    if node.name !in pools[n].nodes then (pools, Failed(NodeNotFound))
    else (pools[n := RemoveNodeFrom(pools[n], node)], Done)
  }

  /** Whatever Node the argument is, removal keeps the placement. */
  lemma RemoveNodeKeepsPlacement(mt: Matcher, pools: Pools, node: Node)
    requires Laid(pools) && Placed(mt, pools)
    ensures Laid(NodeRemoved(mt, pools, node).0) && Placed(mt, NodeRemoved(mt, pools, node).0)
    ensures NodeRemoved(mt, pools, node).1.Done? ==>
      && node.name in Flat(pools)
      && Flat(NodeRemoved(mt, pools, node).0) == Settle(Flat(pools), node.name, RemoveNode(Flat(pools)[node.name]))
  {
    hide Flat, PoolOf, Home, NamesUnique, Named, Keyed, Placed, Sub, NewResource;
    HomeExists(mt, pools, node);
    var n, x := Home(mt, pools, node), node.name;
    if x in pools[n].nodes {
      LaidNamed(pools, n, x);
      var e, q := Flat(pools)[x], NodeRemoved(mt, pools, node).0;
      if e.pods == [] {
        DropLaid(pools, n, q[n], x);
      } else {
        PutLaid(pools, n, q[n], x, RemoveNode(e));
      }
      PlacedChange(mt, pools, q, x);
    }
  }

  /** The Node counts like the entry's and sits in the same zone. */
  ghost predicate CountsLike(e: NodeInfo, node: Node) {
    && SameAmounts(NodeCapacity(e), node.capacity) && SameAmounts(NodeAllocatable(e), node.allocatable)
    && (e.node.Some? ==> e.node.value.zone == node.zone)
  }

  /** What the invariant asks of a removal: the Node, if its pool has an entry for it, counts like the
      entry's. */
  ghost predicate RemovalCounts(mt: Matcher, pools: Pools, node: Node)
    requires Keyed(pools)
  {
    var n := HomeIn(mt, pools, node);
    node.name in pools[n].nodes ==> CountsLike(pools[n].nodes[node.name], node)
  }

  /** A removal keeps the invariant exactly then. */
  lemma RemoveNodeKeepsInv(mt: Matcher, c: Cache, node: Node)
    requires Inv(mt, c)
    ensures Keyed(c.pools)
    ensures Inv(mt, c.(pools := NodeRemoved(mt, c.pools, node).0)) <==> RemovalCounts(mt, c.pools, node)
  {
    hide Accounted, Consistent, PoolOf, Flat, Home, PodsKnown, RemoveNodeFrom, SameAmounts, Laid, Treed, EntriesOk,
      Placed;
    LaidKeyed(c.pools);
    var n, x := HomeIn(mt, c.pools, node), node.name;
    if x in c.pools[n].nodes {
      LaidNamed(c.pools, n, x);
      RemoveNodeKeepsPlacement(mt, c.pools, node);
      RemoveNodeAccounted(c.pools[n], node);
      RemoveNodeTreed(c.pools, n, node);
      NodelessKept(c, x);
      InvAfterChange(mt, c, c.pools, n, RemoveNodeFrom(c.pools[n], node));
    }
  }

  /** An entry without its Node still lists the same pods, or is gone. */
  lemma NodelessKept(c: Cache, x: string)
    requires EntriesOk(Flat(c.pools)) && PodsKnown(Flat(c.pools), c.podStates) && x in Flat(c.pools)
    ensures var flat := Settle(Flat(c.pools), x, RemoveNode(Flat(c.pools)[x]));
      EntriesOk(flat) && PodsKnown(flat, c.podStates)
  {
    hide Flat, Consistent, PodsKnown;
    var e := Flat(c.pools)[x];
    EntryConsistent(Flat(c.pools), x);
    RemoveNodeConsistent(e);
    KnownSamePods(Flat(c.pools), Settle(Flat(c.pools), x, RemoveNode(e)), c.podStates);
  }

  lemma RemoveNodeTreed(pools: Pools, n: string, node: Node)
    requires Laid(pools) && n in pools && Treed(pools[n]) && node.name in pools[n].nodes
    ensures var e := pools[n].nodes[node.name];
      Treed(RemoveNodeFrom(pools[n], node)) <==> (e.node.Some? ==> e.node.value.zone == node.zone)
  {
    hide SpotsOf, Sub, NewResource;
    var nodes, e := pools[n].nodes, pools[n].nodes[node.name];
    SpotsPut(nodes, node.name, RemoveNode(e));
    SpotAt(nodes, SpotOf(node));
    if e.node.Some? {
      NamedAt(nodes, node.name);
      SpotAt(nodes, SpotOf(e.node.value));
    }
  }

  /** Removing the stored Node succeeds and keeps the invariant. */
  lemma StoredRemovalCounts(mt: Matcher, pools: Pools, node: Node)
    requires Laid(pools) && Placed(mt, pools) && IsStored(pools, node)
    ensures Keyed(pools) && RemovalCounts(mt, pools, node) && NodeRemoved(mt, pools, node).1.Done?
  {
    hide Flat, PoolOf, Home, NamesUnique, Named, RemoveNodeFrom, SameAmounts;
    StoredAtHome(mt, pools, node);
    SameAmountsSelf(node.capacity);
    SameAmountsSelf(node.allocatable);
  }

  // ----- UpdateNode -----

  /** UpdateNode. When the node belongs to another pool now, the entry moves with the old Node's
      figures, and only then gets the new Node. If the tree of the pool it leaves does not hold the
      Node, the update stops there and the entry is in no pool. Without an entry to move, one that is
      in the new pool already is added to it once more; without that one, the program ends on a nil
      pointer, possibly after it gave the Node to an entry of the old pool that had none. */
  ghost function NodeUpdated(mt: Matcher, pools: Pools, oldNode: Node, newNode: Node): (Pools, Outcome)
    requires Keyed(pools)
  {
    var a, b, x := HomeIn(mt, pools, oldNode), HomeIn(mt, pools, newNode), newNode.name;
    var e := EntryOf(pools[a], x);
    var out := pools[a := HandOut(pools[a], e)];
    if a == b then (pools[b := UpdateNodeIn(pools[b], oldNode, newNode)], Done)
    else if e.node.Some? && !InTree(pools[a], e) then (out, Failed(NodeNotFound))
    else if x in out[b].nodes then
      (Replaced(out[b := TakeOver(out[b], out[b].nodes[x])], b, SetNode(out[b].nodes[x], newNode), x), Done)
    else if e.node.Some? then (Replaced(MoveEntry(pools, a, b, x), b, SetNode(e, newNode), x), Done)
    else if x in pools[a].nodes then (Replaced(pools, a, SetNode(e, newNode), x), Failed(NilPointer))
    else (pools, Failed(NilPointer))
  }

  /** An entry's info.SetNode, with no effect on sums or tree. */
  function Replaced(pools: Pools, n: string, e: NodeInfo, x: string): Pools
    requires n in pools
  {
    pools[n := pools[n].(nodes := pools[n].nodes[x := e])]
  }

  ghost function HomeIn(mt: Matcher, pools: Pools, node: Node): (n: string)
    requires Keyed(pools)
    ensures n in pools
  {
    HomeExists(mt, pools, node);
    Home(mt, pools, node)
  }

  /** The event carries the stored Node. */
  ghost predicate IsStored(pools: Pools, node: Node) {
    node.name in Flat(pools) && Flat(pools)[node.name].node == Some(node)
  }

  lemma StoredAtHome(mt: Matcher, pools: Pools, node: Node)
    requires Laid(pools) && Placed(mt, pools) && IsStored(pools, node)
    ensures node.name in pools[HomeIn(mt, pools, node)].nodes
    ensures pools[HomeIn(mt, pools, node)].nodes[node.name] == Flat(pools)[node.name]
  {
    hide Flat, PoolOf, Home, NamesUnique;
    FlatFrom(pools, node.name);
  }

  /** What the placement asks of an update: in place, that no other pool has an entry of the name; from
      one pool to another, that the old one has no entry without a Node. */
  ghost predicate FindsPlace(mt: Matcher, pools: Pools, oldNode: Node, newNode: Node)
    requires Keyed(pools)
  {
    var a, b, x := HomeIn(mt, pools, oldNode), HomeIn(mt, pools, newNode), newNode.name;
    if a == b then HomeIsFree(mt, pools, newNode) else x in pools[a].nodes ==> pools[a].nodes[x].node.Some?
  }

  /** The entries after an update that finds its place. */
  ghost function EntriesAfter(flat: map<string, NodeInfo>, newNode: Node, r: Outcome): map<string, NodeInfo> {
    if r.Done? then flat[newNode.name := SetNode(EntryIn(flat, newNode.name), newNode)]
    else if r == Failed(NodeNotFound) then flat - {newNode.name}
    else flat
  }

  /** An update keeps the placement exactly then, even when it loses the entry. */
  lemma UpdateNodeKeepsPlacement(mt: Matcher, pools: Pools, oldNode: Node, newNode: Node)
    requires Laid(pools) && Placed(mt, pools)
    ensures Keyed(pools)
    ensures var (q, r) := NodeUpdated(mt, pools, oldNode, newNode);
      && (Laid(q) && Placed(mt, q) <==> FindsPlace(mt, pools, oldNode, newNode))
      && (FindsPlace(mt, pools, oldNode, newNode) ==> Flat(q) == EntriesAfter(Flat(pools), newNode, r))
  {
    hide Laid, Placed, Home, NodeUpdated, Flat, FindsPlace, EntriesAfter;
    LaidKeyed(pools);
    var a := HomeIn(mt, pools, oldNode);
    if a == HomeIn(mt, pools, newNode) {
      InPlace(mt, pools, oldNode, newNode);
    } else if EntryOf(pools[a], newNode.name).node.Some? {
      AcrossWithNode(mt, pools, oldNode, newNode);
    } else {
      AcrossWithoutNode(mt, pools, oldNode, newNode);
    }
  }

  lemma InPlace(mt: Matcher, pools: Pools, oldNode: Node, newNode: Node)
    requires Laid(pools) && Placed(mt, pools) && Keyed(pools)
    requires HomeIn(mt, pools, oldNode) == HomeIn(mt, pools, newNode)
    ensures var (q, r) := NodeUpdated(mt, pools, oldNode, newNode);
      && (Laid(q) && Placed(mt, q) <==> FindsPlace(mt, pools, oldNode, newNode))
      && (FindsPlace(mt, pools, oldNode, newNode) ==> Flat(q) == EntriesAfter(Flat(pools), newNode, r))
  {
    hide Flat, PoolOf, Home, Laid, Placed, UpdateNodeIn, HandOut, TakeOver, MoveEntry, NewResource, NamesUnique;
    var b, x := HomeIn(mt, pools, newNode), newNode.name;
    var q := NodeUpdated(mt, pools, oldNode, newNode).0;
    UpdateNodeParts(pools[b], oldNode, newNode);
    if HomeIsFree(mt, pools, newNode) {
      HomeEntry(mt, pools, newNode);
      PutLaid(pools, b, q[b], x, SetNode(EntryOf(pools[b], x), newNode));
      PlacedChange(mt, pools, q, x);
    } else {
      FlatFrom(pools, x);
      NameTwice(q, b, PoolOf(pools, x), x);
    }
  }

  lemma NameTwice(pools: Pools, a: string, b: string, x: string)
    requires a in pools && b in pools && a != b && x in pools[a].nodes && x in pools[b].nodes
    ensures !Laid(pools)
  {
    hide Named, Keyed;
  }

  lemma AcrossWithNode(mt: Matcher, pools: Pools, oldNode: Node, newNode: Node)
    requires Laid(pools) && Placed(mt, pools) && Keyed(pools)
    requires HomeIn(mt, pools, oldNode) != HomeIn(mt, pools, newNode)
    requires EntryOf(pools[HomeIn(mt, pools, oldNode)], newNode.name).node.Some?
    ensures FindsPlace(mt, pools, oldNode, newNode)
    ensures var (q, r) := NodeUpdated(mt, pools, oldNode, newNode);
      Laid(q) && Placed(mt, q) && Flat(q) == EntriesAfter(Flat(pools), newNode, r)
  {
    hide Flat, PoolOf, Home, Laid, Placed, UpdateNodeIn, HandOut, TakeOver, MoveEntry, NewResource;
    var a, b, x := HomeIn(mt, pools, oldNode), HomeIn(mt, pools, newNode), newNode.name;
    var q, e := NodeUpdated(mt, pools, oldNode, newNode).0, pools[a].nodes[x];
    LaidNamed(pools, a, x);
    HandOutParts(pools[a], e);
    if x in pools[b].nodes {
      LaidNamed(pools, b, x);
    }
    if !InTree(pools[a], e) {
      DropLaid(pools, a, q[a], x);
      PlacedChange(mt, pools, q, x);
    } else {
      MoveEntryLaid(pools, a, b, x);
      ReplacedPlaced(mt, pools, MoveEntry(pools, a, b, x), b, newNode);
    }
  }

  lemma AcrossWithoutNode(mt: Matcher, pools: Pools, oldNode: Node, newNode: Node)
    requires Laid(pools) && Placed(mt, pools) && Keyed(pools)
    requires HomeIn(mt, pools, oldNode) != HomeIn(mt, pools, newNode)
    requires EntryOf(pools[HomeIn(mt, pools, oldNode)], newNode.name).node.None?
    ensures var (q, r) := NodeUpdated(mt, pools, oldNode, newNode);
      && (Laid(q) && Placed(mt, q) <==> FindsPlace(mt, pools, oldNode, newNode))
      && (FindsPlace(mt, pools, oldNode, newNode) ==> Flat(q) == EntriesAfter(Flat(pools), newNode, r))
  {
    hide Flat, PoolOf, Home, Laid, Placed, UpdateNodeIn, MoveEntry, NewResource, PlusPods, MinusPods;
    var a, b, x := HomeIn(mt, pools, oldNode), HomeIn(mt, pools, newNode), newNode.name;
    var q := NodeUpdated(mt, pools, oldNode, newNode).0;
    assert pools[a := pools[a]] == pools;
    if x in pools[b].nodes {
      LaidNamed(pools, b, x);
      if x in pools[a].nodes {
        LaidNamed(pools, a, x);
      }
      assert q == pools[b := q[b]] && q[b].nodes == pools[b].nodes[x := SetNode(pools[b].nodes[x], newNode)];
      PutLaid(pools, b, q[b], x, SetNode(pools[b].nodes[x], newNode));
      PlacedChange(mt, pools, q, x);
    } else if x in pools[a].nodes {
      LaidNamed(pools, a, x);
      PutLaid(pools, a, q[a], x, SetNode(pools[a].nodes[x], newNode));
      SameSpecsSameHome(mt, pools, q, newNode, {});
      Misplaced(mt, q, x);
    }
  }

  lemma Misplaced(mt: Matcher, pools: Pools, x: string)
    requires x in Flat(pools) && Flat(pools)[x].node.Some?
    requires PoolOf(pools, x) != Home(mt, pools, Flat(pools)[x].node.value)
    ensures !Placed(mt, pools)
  {
    hide Flat, PoolOf, Home;
  }

  /** An entry without a Node is neither handed out nor taken over. */
  lemma NodelessStays(p: PoolState, e: NodeInfo)
    requires e.node.None?
    ensures HandOut(p, e) == p && TakeOver(p, e) == p
  {
  }

  /** The program ends on a nil pointer exactly when the node changes its pool, the old pool has no
      entry with a Node to move, and the new one has no entry. */
  lemma UpdateNodePanicsIff(mt: Matcher, pools: Pools, oldNode: Node, newNode: Node)
    requires Keyed(pools)
    ensures var a, b, x := HomeIn(mt, pools, oldNode), HomeIn(mt, pools, newNode), newNode.name;
      NodeUpdated(mt, pools, oldNode, newNode).1 == Failed(NilPointer) <==>
      a != b && x !in pools[b].nodes && (x in pools[a].nodes ==> pools[a].nodes[x].node.None?)
  {
    hide HandOut, TakeOver, Home, UpdateNodeIn, MoveEntry, NewResource;
    var a, b := HomeIn(mt, pools, oldNode), HomeIn(mt, pools, newNode);
    var out := pools[a := HandOut(pools[a], EntryOf(pools[a], newNode.name))];
    assert a != b ==> out[b] == pools[b];
  }

  /** An update that finds its place and ends the program has changed nothing. */
  lemma PanicChangesNothing(mt: Matcher, pools: Pools, oldNode: Node, newNode: Node)
    requires Keyed(pools) && FindsPlace(mt, pools, oldNode, newNode)
    requires NodeUpdated(mt, pools, oldNode, newNode).1 == Failed(NilPointer)
    ensures NodeUpdated(mt, pools, oldNode, newNode).0 == pools
  {
    hide HandOut, TakeOver, Home, UpdateNodeIn, MoveEntry, NewResource;
  }

  /** The stored Node always finds its place, and its entry is there to move. */
  lemma StoredFindsPlace(mt: Matcher, pools: Pools, oldNode: Node, newNode: Node)
    requires Laid(pools) && Placed(mt, pools) && oldNode.name == newNode.name && IsStored(pools, oldNode)
    ensures Keyed(pools) && FindsPlace(mt, pools, oldNode, newNode)
    ensures NodeUpdated(mt, pools, oldNode, newNode).1 != Failed(NilPointer)
  {
    hide Flat, PoolOf, Home, NamesUnique, NodeUpdated, Named;
    StoredAtHome(mt, pools, oldNode);
    FlatFrom(pools, oldNode.name);
    UpdateNodePanicsIff(mt, pools, oldNode, newNode);
  }

  lemma StoredFacts(pools: Pools, node: Node)
    requires IsStored(pools, node)
    ensures node.name in Flat(pools) && Flat(pools)[node.name].node == Some(node)
  {
  }

  lemma ReplacedPlaced(mt: Matcher, pools: Pools, moved: Pools, b: string, newNode: Node)
    requires Laid(moved) && SameSpecs(pools, moved) && Flat(moved) == Flat(pools) && Placed(mt, pools)
    requires b in moved && b == Home(mt, pools, newNode) && newNode.name in moved[b].nodes
    requires forall y :: y in Flat(pools) && y != newNode.name ==> PoolOf(moved, y) == PoolOf(pools, y)
    ensures var q := Replaced(moved, b, SetNode(moved[b].nodes[newNode.name], newNode), newNode.name);
      && Laid(q) && Placed(mt, q) && SameSpecs(pools, q)
      && Flat(q) == Flat(pools)[newNode.name := SetNode(Flat(pools)[newNode.name], newNode)]
  {
    hide Flat, PoolOf, Home, Laid, Placed, NewResource;
    var x := newNode.name;
    LaidNamed(moved, b, x);
    var q := Replaced(moved, b, SetNode(moved[b].nodes[x], newNode), x);
    PutLaid(moved, b, q[b], x, SetNode(moved[b].nodes[x], newNode));
    PlacedChange(mt, pools, q, x);
  }

  /** What the tree asks of an update in place: an entry's Node is in the zone that the update names as
      the old or the new one; without a Node, the two differ. */
  predicate ZoneFollows(e: NodeInfo, oldNode: Node, newNode: Node) {
    if e.node.Some? then e.node.value.zone == oldNode.zone || e.node.value.zone == newNode.zone
    else oldNode.zone != newNode.zone
  }

  /** An update in place keeps the invariant exactly when no other pool has an entry of the name, the
      old Node counts like the entry's, and the tree follows. */
  lemma UpdateInPlaceKeepsInv(mt: Matcher, c: Cache, oldNode: Node, newNode: Node)
    requires Inv(mt, c) && oldNode.name == newNode.name
    requires Home(mt, c.pools, oldNode) == Home(mt, c.pools, newNode)
    ensures Keyed(c.pools)
    ensures Inv(mt, c.(pools := NodeUpdated(mt, c.pools, oldNode, newNode).0))
      <==> HomeIsFree(mt, c.pools, newNode) && InPlaceCounts(mt, c.pools, oldNode, newNode)
  {
    hide Accounted, Consistent, EntriesOk, PoolOf, Flat, Home, PodsKnown, UpdateNodeIn, SameAmounts, Laid, Treed,
      Placed, HomeIsFree;
    LaidKeyed(c.pools);
    UpdateNodeKeepsPlacement(mt, c.pools, oldNode, newNode);
    if HomeIsFree(mt, c.pools, newNode) {
      var n := HomeIn(mt, c.pools, oldNode);
      HomeEntry(mt, c.pools, newNode);
      UpdateNodeAccounted(c.pools[n], oldNode, newNode);
      UpdateNodeTreed(c.pools, n, oldNode, newNode);
      NewNodeKept(c, newNode.name, newNode);
      InvAfterChange(mt, c, c.pools, n, UpdateNodeIn(c.pools[n], oldNode, newNode));
    }
  }

  ghost predicate InPlaceCounts(mt: Matcher, pools: Pools, oldNode: Node, newNode: Node)
    requires Keyed(pools)
  {
    var e := EntryOf(pools[HomeIn(mt, pools, oldNode)], newNode.name);
    && SameAmounts(NodeCapacity(e), oldNode.capacity) && SameAmounts(NodeAllocatable(e), oldNode.allocatable)
    && ZoneFollows(e, oldNode, newNode)
  }

  /** An entry with another Node still lists the same pods. */
  lemma NewNodeKept(c: Cache, x: string, newNode: Node)
    requires EntriesOk(Flat(c.pools)) && PodsKnown(Flat(c.pools), c.podStates)
    ensures var flat := Flat(c.pools)[x := SetNode(EntryIn(Flat(c.pools), x), newNode)];
      EntriesOk(flat) && PodsKnown(flat, c.podStates)
  {
    hide Flat, Consistent, PodsKnown, NewResource;
    var e := EntryIn(Flat(c.pools), x);
    EntryConsistent(Flat(c.pools), x);
    SetNodeConsistent(e, newNode);
    EntriesPut(Flat(c.pools), x, SetNode(e, newNode));
    KnownSamePods(Flat(c.pools), Flat(c.pools)[x := SetNode(e, newNode)], c.podStates);
  }

  lemma UpdateNodeTreed(pools: Pools, n: string, oldNode: Node, newNode: Node)
    requires Laid(pools) && n in pools && Treed(pools[n]) && oldNode.name == newNode.name
    ensures Treed(UpdateNodeIn(pools[n], oldNode, newNode))
      <==> ZoneFollows(EntryOf(pools[n], newNode.name), oldNode, newNode)
  {
    hide SpotsOf, Changed, NewResource;
    var nodes, x := pools[n].nodes, newNode.name;
    var e := EntryOf(pools[n], x);
    SpotsPut(nodes, x, SetNode(e, newNode));
    SpotAt(nodes, SpotOf(oldNode));
    SpotAt(nodes, SpotOf(newNode));
    if e.node.Some? {
      NamedAt(nodes, x);
      SpotAt(nodes, SpotOf(e.node.value));
    }
  }

  /** Replacing an entry's Node without touching the sums keeps the sums exactly when the two Nodes
      count the same. */
  lemma SwapNodeAccounted(p: PoolState, x: string, newNode: Node)
    requires Accounted(p) && x in p.nodes
    ensures Accounted(p.(nodes := p.nodes[x := SetNode(p.nodes[x], newNode)])) <==>
        SameAmounts(NodeCapacity(p.nodes[x]), newNode.capacity)
          && SameAmounts(NodeAllocatable(p.nodes[x]), newNode.allocatable)
  {
    hide Amount, Total, Accounted, NewResource;
    var e := p.nodes[x];
    var e' := SetNode(e, newNode);
    var q := p.(nodes := p.nodes[x := e']);
    forall n: ResourceName
      ensures NodesAccounted(q, n) <==>
          Quantity(NodeCapacity(e), n) == Quantity(newNode.capacity, n) &&
          Quantity(NodeAllocatable(e), n) == Quantity(newNode.allocatable, n)
      ensures PodsAccounted(q, n)
    {
      AccountedAt(p, n);
      EmptyWeights(n, NameOf(p), Empty);
      PutSum(p, x, e', CapacityOf(n));
      PutSum(p, x, e', AllocatableOf(n));
      PutSum(p, x, e', UsedOf(n));
      PutSum(p, x, e', SharedOf(NameOf(p), n));
    }
    AccountedIff(q);
  }

  lemma SwapNodeTreed(pools: Pools, n: string, x: string, newNode: Node)
    requires Laid(pools) && n in pools && Treed(pools[n]) && x in pools[n].nodes && newNode.name == x
    requires pools[n].nodes[x].node.Some?
    ensures Treed(pools[n].(nodes := pools[n].nodes[x := SetNode(pools[n].nodes[x], newNode)]))
      <==> pools[n].nodes[x].node.value.zone == newNode.zone
  {
    hide SpotsOf, NewResource;
    var nodes := pools[n].nodes;
    NamedAt(nodes, x);
    SpotsPut(nodes, x, SetNode(nodes[x], newNode));
    SpotAt(nodes, SpotOf(nodes[x].node.value));
  }

  lemma UpdateMoves(mt: Matcher, pools: Pools, oldNode: Node, newNode: Node)
    requires Laid(pools) && Placed(mt, pools) && oldNode.name == newNode.name && IsStored(pools, oldNode)
    requires Home(mt, pools, oldNode) != Home(mt, pools, newNode)
    ensures Keyed(pools)
    ensures var a, b, x := HomeIn(mt, pools, oldNode), HomeIn(mt, pools, newNode), newNode.name;
      && x in pools[a].nodes
      && (InTree(pools[a], pools[a].nodes[x]) ==>
            NodeUpdated(mt, pools, oldNode, newNode)
              == (Replaced(MoveEntry(pools, a, b, x), b, SetNode(pools[a].nodes[x], newNode), x), Done))
  {
    hide HandOut, TakeOver, Home, UpdateNodeIn, MoveEntry, NewResource, Laid, Placed, InTree, Flat;
    LaidKeyed(pools);
    StoredAtHome(mt, pools, oldNode);
    StoredFacts(pools, oldNode);
    var a, b, x := HomeIn(mt, pools, oldNode), HomeIn(mt, pools, newNode), newNode.name;
    LaidNamed(pools, a, x);
    if x in pools[b].nodes {
      LaidNamed(pools, b, x);
    }
  }

  /** A node that moves to another pool is accounted there with its old figures, and put into the
      tree under its old zone: the invariant is kept exactly when the update leaves capacity,
      allocatable and zone as they were. */
  lemma UpdateAcrossKeepsInv(mt: Matcher, c: Cache, oldNode: Node, newNode: Node)
    requires Inv(mt, c) && oldNode.name == newNode.name && IsStored(c.pools, oldNode)
    requires Home(mt, c.pools, oldNode) != Home(mt, c.pools, newNode)
    ensures Keyed(c.pools)
    ensures NodeUpdated(mt, c.pools, oldNode, newNode).1.Done?
    ensures Inv(mt, c.(pools := NodeUpdated(mt, c.pools, oldNode, newNode).0)) <==> SameFootprint(oldNode, newNode)
  {
    hide Accounted, Consistent, EntriesOk, PoolOf, Flat, Home, PodsKnown, SameAmounts, MoveEntry, Laid, Treed, Placed,
      InTree, NodeUpdated, FindsPlace;
    UpdateMoves(mt, c.pools, oldNode, newNode);
    StoredAtHome(mt, c.pools, oldNode);
    StoredFindsPlace(mt, c.pools, oldNode, newNode);
    UpdateNodeKeepsPlacement(mt, c.pools, oldNode, newNode);
    HomeExists(mt, c.pools, newNode);
    var a, b, x := Home(mt, c.pools, oldNode), Home(mt, c.pools, newNode), newNode.name;
    MoveEntryOk(c.pools, a, b, x);
    MoveEntryLaid(c.pools, a, b, x);
    var q := MoveEntry(c.pools, a, b, x);
    var p := q[b].(nodes := q[b].nodes[x := SetNode(c.pools[a].nodes[x], newNode)]);
    SwapNodeAccounted(q[b], x, newNode);
    SwapNodeTreed(q, b, x, newNode);
    NewNodeKept(c, x, newNode);
    InvAfterChange(mt, c, q, b, p);
  }

  /** What the invariant asks of an update that does not end the program: in place, see above; an entry
      that moves has the new Node's footprint; and one that is in the new pool already, and is added
      once more, has half of the new figures and nothing on it. */
  ghost predicate UpdateCounts(mt: Matcher, pools: Pools, oldNode: Node, newNode: Node)
    requires Keyed(pools)
  {
    var a, b, x := HomeIn(mt, pools, oldNode), HomeIn(mt, pools, newNode), newNode.name;
    var e := EntryOf(pools[a], x);
    if a == b then HomeIsFree(mt, pools, newNode) && InPlaceCounts(mt, pools, oldNode, newNode)
    else if e.node.Some? then SameFootprint(e.node.value, newNode)
    else x in pools[b].nodes && Recounted(pools[b], pools[b].nodes[x], newNode)
  }

  ghost predicate Recounted(p: PoolState, e: NodeInfo, newNode: Node) {
    && e.node.Some? && e.node.value.zone == newNode.zone
    && forall n: ResourceName :: RecountedAt(p, e, newNode, n)
  }

  ghost predicate RecountedAt(p: PoolState, e: NodeInfo, newNode: Node, n: ResourceName) {
    && Quantity(newNode.capacity, n) == 2 * CapacityOf(n)(e)
    && Quantity(newNode.allocatable, n) == 2 * AllocatableOf(n)(e)
    && UsedOf(n)(e) == 0 && SharedOf(NameOf(p), n)(e) == 0
  }

  /** An update keeps the invariant exactly then; one of the stored Node unless the node changes its
      pool together with its figures or its zone. */
  lemma UpdateNodeKeepsInv(mt: Matcher, c: Cache, oldNode: Node, newNode: Node)
    requires Inv(mt, c) && oldNode.name == newNode.name
    ensures Keyed(c.pools)
    ensures NodeUpdated(mt, c.pools, oldNode, newNode).1 != Failed(NilPointer) ==>
      (Inv(mt, c.(pools := NodeUpdated(mt, c.pools, oldNode, newNode).0)) <==>
        UpdateCounts(mt, c.pools, oldNode, newNode))
    ensures IsStored(c.pools, oldNode) ==>
      && NodeUpdated(mt, c.pools, oldNode, newNode).1.Done?
      && (UpdateCounts(mt, c.pools, oldNode, newNode) <==>
          Home(mt, c.pools, oldNode) == Home(mt, c.pools, newNode) || SameFootprint(oldNode, newNode))
  {
    hide Inv, NodeUpdated, Home, SameFootprint, IsStored, Recounted, InPlaceCounts, HomeIsFree;
    InvIsWellPlaced(mt, c);
    LaidKeyed(c.pools);
    var a, x := HomeIn(mt, c.pools, oldNode), newNode.name;
    if a == HomeIn(mt, c.pools, newNode) {
      UpdateInPlaceKeepsInv(mt, c, oldNode, newNode);
    } else if EntryOf(c.pools[a], x).node.Some? {
      AcrossKeepsInv(mt, c, oldNode, newNode);
    } else {
      UpdateNodePanicsIff(mt, c.pools, oldNode, newNode);
      if x in c.pools[HomeIn(mt, c.pools, newNode)].nodes {
        RetakenKeepsInv(mt, c, oldNode, newNode);
      }
    }
    if IsStored(c.pools, oldNode) {
      StoredCounts(mt, c, oldNode, newNode);
    }
  }

  lemma StoredCounts(mt: Matcher, c: Cache, oldNode: Node, newNode: Node)
    requires Inv(mt, c) && oldNode.name == newNode.name && IsStored(c.pools, oldNode)
    ensures Keyed(c.pools) && NodeUpdated(mt, c.pools, oldNode, newNode).1.Done?
    ensures UpdateCounts(mt, c.pools, oldNode, newNode) <==>
      Home(mt, c.pools, oldNode) == Home(mt, c.pools, newNode) || SameFootprint(oldNode, newNode)
  {
    hide PoolsOk, Home, SameFootprint, SameAmounts, Flat, PoolOf, MoveEntry, HandOut, TakeOver, UpdateNodeIn, SetNode,
      Placed, Recounted, Laid, PodsKnown, InTree;
    InvIsWellPlaced(mt, c);
    LaidKeyed(c.pools);
    StoredAtHome(mt, c.pools, oldNode);
    StoredFacts(c.pools, oldNode);
    SameAmountsSelf(oldNode.capacity);
    SameAmountsSelf(oldNode.allocatable);
    var a, b, x := HomeIn(mt, c.pools, oldNode), HomeIn(mt, c.pools, newNode), newNode.name;
    if a == b {
      StoredFindsPlace(mt, c.pools, oldNode, newNode);
    } else {
      MoveEntryOk(c.pools, a, b, x);
      UpdateMoves(mt, c.pools, oldNode, newNode);
    }
  }

  /** The update goes by the old Node's pool only: it is one of the Node stored there. */
  lemma AcrossKeepsInv(mt: Matcher, c: Cache, oldNode: Node, newNode: Node)
    requires Inv(mt, c) && Keyed(c.pools) && HomeIn(mt, c.pools, oldNode) != HomeIn(mt, c.pools, newNode)
    requires EntryOf(c.pools[HomeIn(mt, c.pools, oldNode)], newNode.name).node.Some?
    ensures var stored := EntryOf(c.pools[HomeIn(mt, c.pools, oldNode)], newNode.name).node.value;
      Inv(mt, c.(pools := NodeUpdated(mt, c.pools, oldNode, newNode).0)) <==> SameFootprint(stored, newNode)
  {
    hide PoolsOk, Home, SameFootprint, Flat, PoolOf, MoveEntry, HandOut, TakeOver, UpdateNodeIn, SetNode, PodsKnown,
      InTree, Laid;
    InvIsWellPlaced(mt, c);
    var a, x := HomeIn(mt, c.pools, oldNode), newNode.name;
    LaidNamed(c.pools, a, x);
    UpdateAcrossKeepsInv(mt, c, c.pools[a].nodes[x].node.value, newNode);
  }

  /** An entry of the new pool that is added to it once more. */
  lemma RetakenKeepsInv(mt: Matcher, c: Cache, oldNode: Node, newNode: Node)
    requires Inv(mt, c) && Keyed(c.pools) && HomeIn(mt, c.pools, oldNode) != HomeIn(mt, c.pools, newNode)
    requires EntryOf(c.pools[HomeIn(mt, c.pools, oldNode)], newNode.name).node.None?
    requires newNode.name in c.pools[HomeIn(mt, c.pools, newNode)].nodes
    ensures var b := HomeIn(mt, c.pools, newNode);
      Inv(mt, c.(pools := NodeUpdated(mt, c.pools, oldNode, newNode).0)) <==>
      Recounted(c.pools[b], c.pools[b].nodes[newNode.name], newNode)
  {
    hide Accounted, Consistent, EntriesOk, PoolOf, Flat, Home, PodsKnown, Laid, Treed, Placed, TakeOver, NodeUpdated,
      SetNode, Retaken, RecountedAt;
    var b, x := HomeIn(mt, c.pools, newNode), newNode.name;
    var p, e := c.pools[b], c.pools[b].nodes[x];
    LaidNamed(c.pools, b, x);
    RetakenIs(mt, c.pools, oldNode, newNode);
    UpdateNodeKeepsPlacement(mt, c.pools, oldNode, newNode);
    RetakenAccounted(p, x, newNode);
    RetakenTreed(c.pools, b, newNode);
    NewNodeKept(c, x, newNode);
    InvAfterChange(mt, c, c.pools, b, Retaken(p, x, newNode));
  }

  /** AddNodeInfo of an entry that the pool has, and SetNode. */
  function Retaken(p: PoolState, x: string, newNode: Node): PoolState
    requires x in p.nodes
  {
    var q := TakeOver(p, p.nodes[x]);
    q.(nodes := q.nodes[x := SetNode(p.nodes[x], newNode)])
  }

  lemma RetakenIs(mt: Matcher, pools: Pools, oldNode: Node, newNode: Node)
    requires Laid(pools) && Keyed(pools) && HomeIn(mt, pools, oldNode) != HomeIn(mt, pools, newNode)
    requires EntryOf(pools[HomeIn(mt, pools, oldNode)], newNode.name).node.None?
    requires newNode.name in pools[HomeIn(mt, pools, newNode)].nodes
    ensures var b := HomeIn(mt, pools, newNode);
      && NodeUpdated(mt, pools, oldNode, newNode) == (pools[b := Retaken(pools[b], newNode.name, newNode)], Done)
      && FindsPlace(mt, pools, oldNode, newNode)
  {
    hide Home, TakeOver, SetNode, HandOut, MoveEntry, UpdateNodeIn, Laid;
    var a, b := HomeIn(mt, pools, oldNode), HomeIn(mt, pools, newNode);
    NodelessStays(pools[a], EntryOf(pools[a], newNode.name));
    assert pools[a := pools[a]] == pools;
    LaidNamed(pools, b, newNode.name);
    if newNode.name in pools[a].nodes {
      LaidNamed(pools, a, newNode.name);
    }
    var p, q := TakeOver(pools[b], pools[b].nodes[newNode.name]), Retaken(pools[b], newNode.name, newNode);
    assert pools[b := p][b := q] == pools[b := q];
  }

  lemma RetakenAccounted(p: PoolState, x: string, newNode: Node)
    requires Accounted(p) && x in p.nodes && (p.nodes[x].node.Some? ==> p.nodes[x].node.value.name == x)
    ensures p.nodes[x].node.Some? ==>
      (Accounted(Retaken(p, x, newNode)) <==> forall n: ResourceName :: RecountedAt(p, p.nodes[x], newNode, n))
  {
    hide Accounted, Retaken, RecountedAt, NodesAccounted, PodsAccounted;
    var e := p.nodes[x];
    var q := Retaken(p, x, newNode);
    if e.node.Some? {
      forall n: ResourceName
        ensures NodesAccounted(q, n) && PodsAccounted(q, n) <==> RecountedAt(p, e, newNode, n)
      {
        AccountedAt(p, n);
        RetakenAt(p, x, newNode, n);
      }
      AccountedIff(q);
    }
  }

  lemma RetakenAt(p: PoolState, x: string, newNode: Node, n: ResourceName)
    requires NodesAccounted(p, n) && PodsAccounted(p, n)
    requires x in p.nodes && p.nodes[x].node.Some? && p.nodes[x].node.value.name == x
    ensures var q := Retaken(p, x, newNode);
      NodesAccounted(q, n) && PodsAccounted(q, n) <==> RecountedAt(p, p.nodes[x], newNode, n)
  {
    hide Retaken, NodesAccounted, PodsAccounted, CapacityOf, AllocatableOf, UsedOf, SharedOf;
    RetakenNode(p, x, newNode, n);
    RetakenPods(p, x, newNode, n);
  }

  lemma RetakenNode(p: PoolState, x: string, newNode: Node, n: ResourceName)
    requires NodesAccounted(p, n) && x in p.nodes && p.nodes[x].node.Some? && p.nodes[x].node.value.name == x
    ensures NodesAccounted(Retaken(p, x, newNode), n) <==>
      && Quantity(newNode.capacity, n) == 2 * CapacityOf(n)(p.nodes[x])
      && Quantity(newNode.allocatable, n) == 2 * AllocatableOf(n)(p.nodes[x])
  {
    hide Plus, Sub, AddList, NewResource, Amount, Sum, PoolRequest, PlusPods, Total, TakeOver;
    var e := p.nodes[x];
    var e' := SetNode(e, newNode);
    TakeOverParts(p, e);
    assert Retaken(p, x, newNode).nodes == p.nodes[x := e'];
    EmptyWeights(n, NameOf(p), Empty);
    PutSum(p, x, e', CapacityOf(n));
    PutSum(p, x, e', AllocatableOf(n));
    PlusPodsAmounts(WithEntry(p, e), e.pods, |e.pods|, n);
  }

  lemma RetakenPods(p: PoolState, x: string, newNode: Node, n: ResourceName)
    requires PodsAccounted(p, n) && x in p.nodes && p.nodes[x].node.Some? && p.nodes[x].node.value.name == x
    ensures PodsAccounted(Retaken(p, x, newNode), n) <==>
      UsedOf(n)(p.nodes[x]) == 0 && SharedOf(NameOf(p), n)(p.nodes[x]) == 0
  {
    hide Plus, Sub, AddList, NewResource, Amount, Sum, PoolRequest, PlusPods, Total, TakeOver;
    var e := p.nodes[x];
    var e' := SetNode(e, newNode);
    TakeOverParts(p, e);
    assert Retaken(p, x, newNode).nodes == p.nodes[x := e'];
    EmptyWeights(n, NameOf(p), Empty);
    PutSum(p, x, e', UsedOf(n));
    PutSum(p, x, e', SharedOf(NameOf(p), n));
    PlusPodsAmounts(WithEntry(p, e), e.pods, |e.pods|, n);
    TotalIs(e.pods, PoolRequestOf(n));
    TotalIs(e.pods, ForeignRequestOf(NameOf(p), n));
  }

  lemma RetakenTreed(pools: Pools, b: string, newNode: Node)
    requires Laid(pools) && b in pools && Treed(pools[b]) && newNode.name in pools[b].nodes
    ensures var e := pools[b].nodes[newNode.name];
      Treed(Retaken(pools[b], newNode.name, newNode)) <==> e.node.Some? && e.node.value.zone == newNode.zone
  {
    hide SpotsOf, NewResource, TakeOver, PlusPods;
    var p, nodes, x := pools[b], pools[b].nodes, newNode.name;
    var e := nodes[x];
    TakeOverParts(p, e);
    SpotsPut(nodes, x, SetNode(e, newNode));
    SpotAt(nodes, SpotOf(newNode));
    if e.node.Some? {
      NamedAt(nodes, x);
      SpotAt(nodes, SpotOf(e.node.value));
      assert nodes[x := e][x := SetNode(e, newNode)] == nodes[x := SetNode(e, newNode)];
    }
  }

  /** The two Nodes count the same and sit in one zone. */
  ghost predicate SameFootprint(a: Node, b: Node) {
    SameAmounts(a.capacity, b.capacity) && SameAmounts(a.allocatable, b.allocatable) && a.zone == b.zone
  }
}
