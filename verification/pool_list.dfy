/** A pool object: its entries in a map and in a list, its running sums and its incremental
    snapshot (pkg/scheduler/info/pool_info.go). */
module PoolLists {
  import opened Api
  import opened Resources
  import opened NodeInfos
  import opened PoolStates
  import opened ListItems
  import opened Sequences
  import opened ListWalks
  import opened NodeTrees

  // ----- the pool -----

  /** The counter behind every generation, shared by all pools. */
  class Generations {
    var last: int

    constructor ()
      ensures last == 0
    {
      last := 0;
    }

    method Next() returns (g: int)
      modifies this
      ensures last == old(last) + 1 && g == last
    {
      last := last + 1;
      g := last;
    }
  }

  ghost predicate SameElements(order: seq<Item>, items: set<Item>) {
    && (forall i :: 0 <= i < |order| ==> order[i] in items)
    && (forall it :: it in items ==> it in order)
  }

  lemma AllIn(order: seq<Item>, items: set<Item>)
    requires SameElements(order, items)
    ensures forall i :: 0 <= i < |order| ==> order[i] in items
  {
  }

  ghost predicate Decreasing(order: seq<Item>)
    reads order`generation
  {
    forall i, j :: 0 <= i < j < |order| ==> order[i].generation > order[j].generation
  }

  /** Strictly decreasing when position `k` is left aside. */
  ghost predicate DecreasingBut(order: seq<Item>, k: nat)
    reads order`generation
  {
    forall i, j :: 0 <= i < j < |order| && i != k && j != k ==> order[i].generation > order[j].generation
  }

  lemma DecreasingAround(order: seq<Item>)
    requires Decreasing(order)
    ensures Distinct(order) && forall k :: DecreasingBut(order, k)
  {
  }

  lemma MovedElements(order: seq<Item>, items: set<Item>, k: nat, ni: Item)
    requires SameElements(order, items) && k <= |order|
    requires k < |order| ==> ni == order[k]
    ensures SameElements(Moved(order, k, ni), items + {ni})
  {
    var m := Moved(order, k, ni);
    forall it | it in items + {ni}
      ensures it in m
    {
      if it != ni {
        var i :| 0 <= i < |order| && order[i] == it;
        assert m[if k <= i then i else i + 1] == it || k == |order|;
        assert k == |order| ==> m[i + 1] == it;
      } else {
        assert m[0] == it;
      }
    }
  }

  lemma MovedFirst(order: seq<Item>, k: nat, ni: Item)
    requires k <= |order|
    ensures Moved(order, k, ni) != [] && Moved(order, k, ni)[0] == ni
  {
  }

  lemma MovedDecreasing(order: seq<Item>, k: nat, ni: Item)
    requires k <= |order|
    requires DecreasingBut(order, k)
    requires forall i :: 0 <= i < |order| && i != k ==> ni.generation > order[i].generation
    ensures Decreasing(Moved(order, k, ni))
  {
    var m := Moved(order, k, ni);
    assert forall i :: 1 <= i < |m| ==> m[i] == order[if i - 1 < k then i - 1 else i];
  }

  lemma WithoutElements(head: Item?, order: seq<Item>, items: set<Item>, k: nat)
    requires Linked(head, order) && SameElements(order, items) && k < |order|
    ensures SameElements(CutOut(order, k), items - {order[k]})
  {
    var w := CutOut(order, k);
    assert forall i :: 0 <= i < |w| ==> w[i] == order[if i < k then i else i + 1] != order[k];
    forall it | it in items - {order[k]}
      ensures it in w
    {
      var i :| 0 <= i < |order| && order[i] == it;
      assert w[if i < k then i else i - 1] == it;
    }
  }

  lemma WithoutDecreasing(order: seq<Item>, k: nat)
    requires Decreasing(order) && k < |order|
    ensures Decreasing(CutOut(order, k))
  {
    var w := CutOut(order, k);
    assert forall i :: 0 <= i < |w| ==> w[i] == order[if i < k then i else i + 1];
  }

  lemma SetNodeNamed(e: NodeInfo, node: Node)
    ensures SetNode(e, node).node == Some(node)
  {
  }

  lemma FrontNewer(ni: Item, base: set<Item>, rest: seq<Item>)
    requires SameElements(rest, base) && Decreasing(rest)
    ensures Decreasing([ni] + rest) <==> forall it :: it in base ==> ni.generation > it.generation
  {
    hide Decreasing;
    DecreasingFront(ni, rest);
    forall it | it in base ensures exists i :: 0 <= i < |rest| && rest[i] == it {
    }
  }

  lemma MovedOut(order: seq<Item>, k: nat, ni: Item)
    requires k < |order|
    ensures Moved(order, k, ni) == [ni] + CutOut(order, k)
  {
  }

  /** An item in front of newer ones is out of order. */
  lemma DecreasingAgain(order: seq<Item>, k: nat, ni: Item)
    requires Decreasing(order) && k < |order| && ni == order[k]
    ensures Decreasing(Moved(order, k, ni)) <==> k == 0
  {
    var m := Moved(order, k, ni);
    if k == 0 {
      assert m == order;
    } else {
      assert m[1] == order[0] && order[0].generation > m[0].generation;
    }
  }

  lemma DecreasingFront(ni: Item, rest: seq<Item>)
    requires Decreasing(rest)
    ensures Decreasing([ni] + rest) <==> forall i :: 0 <= i < |rest| ==> ni.generation > rest[i].generation
  {
    var order := [ni] + rest;
    assert forall i :: 0 <= i < |rest| ==> order[i + 1] == rest[i];
    if Decreasing(order) {
      forall i | 0 <= i < |rest| ensures ni.generation > rest[i].generation {
        assert order[0].generation > order[i + 1].generation;
      }
    }
  }

  lemma LinkedIsRho(head: Item?, order: seq<Item>)
    requires Linked(head, order)
    ensures Rho(head, order, |order|)
  {
  }

  lemma SameSizeSameKeys(a: set<string>, b: set<string>)
    requires a <= b && (b <= a || |b| <= |a|)
    ensures a == b
  {
    assert |b| == |a| + |b - a|;
    assert b - a == {};
  }

  lemma StartPods(p: PoolState, pods: seq<Pod>)
    ensures PlusPods(p, pods, 0) == p && MinusPods(p, pods, 0) == p
  {
  }

  lemma NextPods(p: PoolState, pods: seq<Pod>, i: nat)
    requires i < |pods|
    ensures PlusPods(p, pods, i + 1) == PlusPod(PlusPods(p, pods, i), pods[i])
    ensures MinusPods(p, pods, i + 1) == MinusPod(MinusPods(p, pods, i), pods[i])
  {
  }

  class PoolInfo {
    var pool: Option<Pool>
    var nodes: map<string, Item>
    var headNode: Item?
    var capacity: Resource
    var allocatable: Resource
    var used: Resource
    var shared: Resource
    var snapshot: map<string, NodeInfo>
    var snapshotGeneration: int
    const nodeTree: NodeTree
    /** The list, from the head, and its items. */
    ghost var order: seq<Item>
    ghost var items: set<Item>

    /** The map's values are exactly the items. */
    ghost predicate Stored()
      reads this`nodes, this`items, items`name
    {
      StoredIn(items, nodes)
    }

    ghost predicate StoredIn(base: set<Item>, stored: map<string, Item>)
      reads base`name
    {
      && (forall it :: it in base ==> it.name in stored && stored[it.name] == it)
      && (forall x :: x in stored ==> stored[x] in base && stored[x].name == x)
    }

    ghost predicate Sound()
      reads this`nodes, this`headNode, this`order, this`items, items`next, items`prev, items`name
    {
      SameElements(order, items) && Linked(headNode, order) && Stored()
    }

    ghost predicate Named()
      reads this`items, items`info, items`name
    {
      NamedIn(items)
    }

    ghost predicate NamedIn(base: set<Item>)
      reads base`info, base`name
    {
      forall it :: it in base && it.info.node.Some? ==> it.info.node.value.name == it.name
    }

    ghost predicate Bounded(g: Generations)
      reads this`items, this`snapshotGeneration, items`generation, g
    {
      BoundedIn(items, g)
    }

    ghost predicate BoundedIn(base: set<Item>, g: Generations)
      reads this`snapshotGeneration, base`generation, g
    {
      snapshotGeneration <= g.last && forall it :: it in base ==> it.generation <= g.last
    }

    /** An entry not newer than the snapshot is in the snapshot as it is now. */
    ghost predicate InSync()
      reads this`items, this`snapshot, this`snapshotGeneration, items`generation, items`info, items`name
    {
      InSyncIn(items)
    }

    ghost predicate InSyncIn(base: set<Item>)
      reads this`snapshot, this`snapshotGeneration, base`generation, base`info, base`name
    {
      forall it :: it in base && it.generation <= snapshotGeneration && it.info.node.Some? ==>
        it.name in snapshot && snapshot[it.name] == it.info
    }

    /** An entry without a Node joins. */
    lemma EmptyJoins(ni: Item, base: set<Item>, g: Generations)
      requires NamedIn(base) && BoundedIn(base, g) && InSyncIn(base) && ni.info.node.None? && ni.generation <= g.last
      ensures NamedIn(base + {ni}) && BoundedIn(base + {ni}, g) && InSyncIn(base + {ni})
    {
    }

    lemma StoredJoins(ni: Item, base: set<Item>, stored: map<string, Item>)
      requires StoredIn(base, stored) && ni.name !in stored
      ensures StoredIn(base + {ni}, stored[ni.name := ni])
    {
    }

    lemma StoredAlready(ni: Item, base: set<Item>, stored: map<string, Item>)
      requires StoredIn(base, stored) && ni.name in stored && stored[ni.name] == ni
      ensures ni in base && base + {ni} == base && stored[ni.name := ni] == stored
    {
    }

    /** The list is sound and strictly decreasing in generation, and the snapshot lags behind the
        entries only where an entry's generation says so. */
    ghost predicate Valid(g: Generations)
      reads this`nodes, this`headNode, this`order, this`items, this`snapshot, this`snapshotGeneration, items, g
    {
      Sound() && Named() && Decreasing(order) && Bounded(g) && InSync()
    }

    /** The pool's entries by name. */
    ghost function Entries(): map<string, NodeInfo>
      reads this`nodes, nodes.Values`info
    {
      map x | x in nodes :: nodes[x].info
    }

    /** The pool's value. */
    ghost function Abs(): PoolState
      reads this`pool, this`nodes, this`capacity, this`allocatable, this`used, this`shared, nodes.Values`info, nodeTree
    {
      PoolState(pool, Entries(), nodeTree.Spots(), capacity, allocatable, used, shared)
    }

    constructor (g: Generations)
      requires g.last >= 0
      ensures Valid(g) && Abs() == NewPool && snapshot == map[] && snapshotGeneration == 0
      ensures fresh(nodeTree) && nodeTree.Valid() && items == {}
    {
      nodeTree := new NodeTree();
      pool, nodes, headNode := None, map[], null;
      capacity, allocatable, used, shared := Zero, Zero, Zero, Zero;
      snapshot, snapshotGeneration, order, items := map[], 0, [], {};
    }

    lemma Member(x: string)
      requires Sound() && x in nodes
      ensures nodes[x] in items
    {
    }

    lemma PositionOf(x: string) returns (k: nat)
      requires Sound() && x in nodes
      ensures k < |order| && order[k] == nodes[x] && nodes[x] in items && nodes[x].name == x
    {
      k :| k < |order| && order[k] == nodes[x];
    }

    lemma OrderFacts(g: Generations)
      requires Valid(g)
      ensures forall i :: 0 <= i < |order| ==> order[i] in items && order[i].generation <= g.last
    {
    }

    method Create(name: string, g: Generations) returns (ni: Item)
      requires Stored() && Named() && Bounded(g) && InSync() && name !in nodes
      modifies this`nodes, this`items, g
      ensures fresh(ni) && ni.next == null && ni.prev == null && ni.name == name && g.last >= old(g.last)
      ensures items == old(items) + {ni} && nodes == old(nodes)[name := ni]
      ensures Stored() && Named() && Bounded(g) && InSync()
    {
      hide NamedIn, InSyncIn, StoredIn, BoundedIn;
      var first := NextGeneration(g);
      ni := new Item(first, name);
      EmptyJoins(ni, items, g);
      StoredJoins(ni, items, nodes);
      nodes := nodes[name := ni];
      items := items + {ni};
    }

    method NextGeneration(g: Generations) returns (generation: int)
      requires BoundedIn(items, g)
      modifies g
      ensures BoundedIn(items, g) && generation == g.last > old(g.last)
    {
      generation := g.Next();
    }

    /** Finds the entry, or creates one that is not in the list yet. */
    method FindOrCreate(name: string, g: Generations) returns (ni: Item, ghost k: nat)
      requires Valid(g)
      modifies this`nodes, this`items, g
      ensures k <= |order| && g.last >= old(g.last)
      ensures name in old(nodes) ==> k < |order| && ni == order[k] && ni == old(nodes[name]) && ni in old(items)
      ensures name !in old(nodes) ==> k == |order| && fresh(ni) && ni.next == null && ni.prev == null
      ensures items == old(items) + {ni} && nodes == old(nodes)[name := ni] && ni.name == name
      ensures Stored() && Named() && Bounded(g) && InSync()
      ensures forall i :: 0 <= i < |order| && i != k ==> order[i] != ni
    {
      hide Linked, Decreasing, SameElements, NamedIn, InSyncIn, StoredIn, BoundedIn;
      DecreasingAround(order);
      if name in nodes {
        ni := nodes[name];
        k := PositionOf(name);
        StoredAlready(ni, items, nodes);
      } else {
        ni := Create(name, g);
        k := |order|;
      }
    }

    /** New content and a fresh generation for an entry. */
    method Stamp(ni: Item, info: NodeInfo, g: Generations)
      requires ni in items && (info.node.Some? ==> info.node.value.name == ni.name)
      requires Stored() && Named() && Bounded(g) && InSync()
      modifies ni`info, ni`generation, g
      ensures Named() && Bounded(g) && InSync()
      ensures forall x :: x in nodes && x != ni.name ==> nodes[x] != ni
      ensures ni.info == info && ni.generation == g.last > old(g.last)
    {
      ni.info := info;
      var generation := g.Next();
      ni.generation := generation;
    }

    /** The entry's part of an event. */
    method RefreshEntry(name: string, info: NodeInfo, g: Generations) returns (ni: Item, ghost k: nat)
      requires Valid(g) && (info.node.Some? ==> info.node.value.name == name)
      modifies this`nodes, this`items, items`info, items`generation, g
      ensures k <= |order| && g.last >= old(g.last)
      ensures name in old(nodes) ==> k < |order| && ni == order[k] && ni in old(items)
      ensures name !in old(nodes) ==> k == |order| && fresh(ni) && ni.next == null && ni.prev == null
      ensures items == old(items) + {ni}
      ensures Stored() && Named() && Bounded(g) && InSync()
      ensures Entries() == old(Entries())[name := info]
      ensures ni.generation == g.last > old(g.last) && ni.name == name
      ensures DecreasingBut(order, k) && forall i :: 0 <= i < |order| && i != k ==> ni.generation > order[i].generation
    {
      hide Linked, SameElements, StoredIn, Named, Bounded, InSync;
      OrderFacts(g);
      ni, k := FindOrCreate(name, g);
      Stamp(ni, info, g);
      forall i, j | 0 <= i < j < |order| && i != k && j != k ensures order[i].generation > order[j].generation {
        assert order[i].generation == old(order[i].generation) && order[j].generation == old(order[j].generation);
      }
    }

    /** The entry of this name is in front, with the newest generation there is. */
    ghost predicate NewInFront(name: string, g: Generations)
      reads this`order, order`name, order`generation, g
    {
      order != [] && order[0].name == name && order[0].generation == g.last
    }

    /** The list's part of an event. */
    method Relink(ni: Item, ghost k: nat, ghost base: set<Item>)
      requires Linked(headNode, order) && SameElements(order, base) && items == base + {ni} && k <= |order|
      requires if k < |order| then ni == order[k] else ni !in base && ni.next == null && ni.prev == null
      requires DecreasingBut(order, k) && forall i :: 0 <= i < |order| && i != k ==> ni.generation > order[i].generation
      modifies this`headNode, this`order, items`next, items`prev
      ensures Linked(headNode, order) && SameElements(order, items) && Decreasing(order)
      ensures order != [] && order[0] == ni
    {
      hide Linked, SameElements, Decreasing, Moved, CutOut;
      MovedFirst(order, k, ni);
      AllIn(order, base);
      if k < |order| {
        Neighbours(headNode, order, k);
      }
      MoveToHead(headNode, order, base, k, ni);
      MovedElements(order, base, k, ni);
      MovedDecreasing(order, k, ni);
      headNode := ni;
      order := Moved(order, k, ni);
    }

    /** Gives the entry a new content (creating the entry if there is none), a fresh generation
        and the front place: the common part of all pod and node events. */
    method Refresh(name: string, info: NodeInfo, g: Generations)
      requires Valid(g) && (info.node.Some? ==> info.node.value.name == name)
      modifies this`nodes, this`headNode, this`order, this`items, items, g
      ensures Valid(g)
      ensures Abs() == old(Abs()).(nodes := old(Abs()).nodes[name := info])
      ensures NewInFront(name, g) && g.last > old(g.last)
      ensures forall it :: it in items ==> it in old(items) || fresh(it)
    {
      hide Linked, SameElements, Stored, Named, Bounded, InSync, Entries, NodeTree.Spots, Decreasing, DecreasingBut;
      var ni, k := RefreshEntry(name, info, g);
      Relink(ni, k, old(items));
    }

    /** removeNodeInfoFromList. */
    method Extract(name: string) returns (ni: Item, ghost k: nat)
      requires Sound() && name in nodes
      modifies this`nodes, this`headNode, this`order, this`items, items`next, items`prev
      ensures Sound()
      ensures ni == old(nodes)[name] && k < |old(order)| && old(order)[k] == ni
      ensures order == CutOut(old(order), k) && nodes == old(nodes) - {name} && items == old(items) - {ni}
      ensures Detached({}, ni)
      ensures ni.prev != null ==> ni.prev in items
      ensures ni.next != null ==> ni.next in items
    {
      hide Linked, SameElements, CutOut;
      ni := nodes[name];
      k := PositionOf(name);
      Neighbours(headNode, order, k);
      AllIn(order, items);
      DistinctFacts(headNode, order, k);
      WithoutElements(headNode, order, items, k);
      Bypass(headNode, order, items, k, ni);
      if ni == headNode {
        headNode := ni.next;
      }
      nodes := nodes - {name};
      order := CutOut(order, k);
      items := items - {ni};
    }

    /** removeNodeInfoFromList on a pool whose snapshot protocol is intact. */
    method Drop(name: string, ghost g: Generations)
      requires Valid(g) && name in nodes
      modifies this`nodes, this`headNode, this`order, this`items, items`next, items`prev
      ensures Valid(g) && items <= old(items) && Abs() == old(Abs()).(nodes := old(Abs()).nodes - {name})
    {
      hide Linked, SameElements, Stored, CutOut;
      var ni := TakeOut(name, g);
    }

    /** Puts the changed entry in front, or drops it when it has neither pods nor a Node. */
    method SettleEntry(name: string, rest: NodeInfo, g: Generations)
      requires Valid(g) && name in nodes && (rest.node.Some? ==> rest.node.value.name == name)
      modifies this`nodes, this`headNode, this`order, this`items, items, g
      ensures Valid(g) && Abs() == old(Abs()).(nodes := Settle(old(Abs()).nodes, name, rest))
      ensures forall it :: it in items ==> it in old(items) || fresh(it)
    {
      hide Valid, Abs;
      if |rest.pods| == 0 && rest.node.None? {
        Drop(name, g);
      } else {
        Refresh(name, rest, g);
      }
    }

    // ----- pod and node events -----

    function Entry(name: string): NodeInfo
      reads this`nodes, nodes.Values`info
    {
      if name in nodes then nodes[name].info else Empty
    }

    method PlusPodResource(pod: Pod)
      modifies this`used, this`shared
      ensures Abs() == PlusPod(old(Abs()), pod)
    {
      var res := PoolRequest(pod);
      used := Plus(used, res);
      if (if pool.None? then DefaultPoolName else pool.value.name) != pod.poolAnnotation {
        shared := Plus(shared, res);
      }
    }

    method ReducePodResource(pod: Pod)
      modifies this`used, this`shared
      ensures Abs() == MinusPod(old(Abs()), pod)
    {
      var res := PoolRequest(pod);
      used := Sub(used, res);
      if (if pool.None? then DefaultPoolName else pool.value.name) != pod.poolAnnotation {
        shared := Sub(shared, res);
      }
    }

    method AddPod(pod: Pod, g: Generations)
      requires Valid(g)
      modifies this, items, g
      ensures Valid(g) && Abs() == AddPodTo(old(Abs()), pod)
      ensures snapshot == old(snapshot) && forall it :: it in items ==> it in old(items) || fresh(it)
    {
      hide Valid, AddPodTo, PlusPod, Abs;
      EntryFacts(pod.nodeName, g);
      Refresh(pod.nodeName, NodeInfos.AddPod(Entry(pod.nodeName), pod), g);
      PlusPodResource(pod);
      AddPodParts(old(Abs()), pod);
    }

    lemma EntryFacts(name: string, g: Generations)
      requires Valid(g)
      ensures Entry(name) == EntryOf(Abs(), name) && (name in nodes <==> name in Abs().nodes)
      ensures Entry(name).node.Some? ==> Entry(name).node.value.name == name
    {
    }

    /** Refused when the pool has no entry for the pod's node, when the pod has no uid, or when the
        entry does not list the pod. */
    method RemovePod(pod: Pod, g: Generations) returns (r: Outcome)
      requires Valid(g)
      modifies this, items, g
      ensures Valid(g) && snapshot == old(snapshot)
      ensures r == (if pod.nodeName !in old(nodes) then Failed(NodeNotFound) else if pod.uid == "" then Failed(EmptyUid)
                    else if !Holds(old(Abs()), pod) then Failed(PodNotFound) else Done)
      ensures r.Failed? ==> Abs() == old(Abs())
      ensures r.Done? ==> Abs() == RemovePodFrom(old(Abs()), pod)
      ensures forall it :: it in items ==> it in old(items) || fresh(it)
    {
      hide Valid, RemovePodFrom, MinusPod, FindPod, Settle, Abs;
      EntryFacts(pod.nodeName, g);
      if pod.nodeName !in nodes {
        return Failed(NodeNotFound);
      }
      if pod.uid == "" {
        return Failed(EmptyUid);
      }
      var info := Entry(pod.nodeName);
      if !HasPod(info.pods, pod.uid) {
        return Failed(PodNotFound);
      }
      var rest := NodeInfos.RemovePod(info, pod);
      SettleEntry(pod.nodeName, rest, g);
      ReducePodResource(pod);
      RemovePodParts(old(Abs()), pod);
      r := Done;
    }

    /** Nothing happens when the two are the same object. Otherwise the outcome of the removal is
        ignored: a pod that is not listed is added all the same. */
    method UpdatePod(oldPod: Pod, newPod: Pod, same: bool, g: Generations)
      requires Valid(g) && (same ==> oldPod == newPod)
      modifies this, items, g
      ensures Valid(g)
      ensures same ==> Abs() == old(Abs())
      ensures !same ==>
        Abs() == AddPodTo(if oldPod.uid != "" && Holds(old(Abs()), oldPod) then RemovePodFrom(old(Abs()), oldPod)
                          else old(Abs()), newPod)
    {
      hide Valid, AddPodTo, RemovePodFrom, FindPod;
      if !same {
        var ignored := RemovePod(oldPod, g);
        AddPod(newPod, g);
      }
    }

    method AddNode(node: Node, g: Generations)
      requires Valid(g) && nodeTree.Valid()
      modifies this, items, g, nodeTree
      ensures Valid(g) && nodeTree.Valid() && Abs() == AddNodeTo(old(Abs()), node) && snapshot == old(snapshot)
      ensures NewInFront(node.name, g) && g.last > old(g.last) && snapshotGeneration == old(snapshotGeneration)
      ensures forall it :: it in items ==> it in old(items) || fresh(it)
    {
      hide Valid, AddList, NodeTree.Valid, SpotsIn, AddNodeTo, SetNode, Abs;
      EntryFacts(node.name, g);
      SetNodeNamed(Entry(node.name), node);
      Refresh(node.name, SetNode(Entry(node.name), node), g);
      NodeIn(node);
      AddNodeParts(old(Abs()), node);
    }

    /** What a Node adds to the tree and the sums. */
    method NodeIn(node: Node)
      requires nodeTree.Valid()
      modifies nodeTree, this`capacity, this`allocatable
      ensures nodeTree.Valid()
      ensures var p := old(Abs());
        Abs() == p.(tree := p.tree + {SpotOf(node)}, capacity := AddList(p.capacity, node.capacity),
                    allocatable := AddList(p.allocatable, node.allocatable))
    {
      hide NodeTree.Valid, SpotsIn, AddList;
      nodeTree.AddNode(node);
      capacity := AddList(capacity, node.capacity);
      allocatable := AddList(allocatable, node.allocatable);
    }

    /** What a Node takes off the tree, if it is there, and the sums. */
    method NodeOut(node: Node)
      requires nodeTree.Valid()
      modifies nodeTree, this`capacity, this`allocatable
      ensures nodeTree.Valid()
      ensures var p := old(Abs());
        Abs() == p.(tree := p.tree - {SpotOf(node)}, capacity := Sub(p.capacity, NewResource(node.capacity)),
                    allocatable := Sub(p.allocatable, NewResource(node.allocatable)))
    {
      hide NodeTree.Valid, SpotsIn, Sub, NewResource;
      var found := nodeTree.RemoveNode(node);
      capacity := Sub(capacity, NewResource(node.capacity));
      allocatable := Sub(allocatable, NewResource(node.allocatable));
    }

    method RemoveNode(node: Node, g: Generations) returns (r: Outcome)
      requires Valid(g) && nodeTree.Valid()
      modifies this, items, g, nodeTree
      ensures Valid(g) && nodeTree.Valid() && snapshot == old(snapshot)
      ensures r == (if node.name in old(nodes) then Done else Failed(NodeNotFound))
      ensures r.Failed? ==> Abs() == old(Abs())
      ensures r.Done? ==> Abs() == RemoveNodeFrom(old(Abs()), node)
      ensures forall it :: it in items ==> it in old(items) || fresh(it)
    {
      hide Settle, Valid, Sub, NewResource, NodeTree.Valid, SpotsIn, RemoveNodeFrom, Abs;
      if node.name !in nodes {
        return Failed(NodeNotFound);
      }
      EntryFacts(node.name, g);
      var rest := NodeInfos.RemoveNode(Entry(node.name));
      SettleEntry(node.name, rest, g);
      NodeOut(node);
      RemoveNodeParts(old(Abs()), node);
      r := Done;
    }

    method UpdateNode(oldNode: Node, newNode: Node, g: Generations)
      requires Valid(g) && nodeTree.Valid()
      modifies this, items, g, nodeTree
      ensures Valid(g) && nodeTree.Valid() && Abs() == UpdateNodeIn(old(Abs()), oldNode, newNode)
      ensures snapshot == old(snapshot)
      ensures forall it :: it in items ==> it in old(items) || fresh(it)
    {
      hide Valid, Plus, Sub, NewResource, NodeTree.Valid, SpotsIn, UpdateNodeIn, SetNode, Abs;
      EntryFacts(newNode.name, g);
      SetNodeNamed(Entry(newNode.name), newNode);
      Refresh(newNode.name, SetNode(Entry(newNode.name), newNode), g);
      NodeDelta(oldNode, newNode);
      UpdateNodeParts(old(Abs()), oldNode, newNode);
    }

    /** What an update changes in the tree and the sums. */
    method NodeDelta(oldNode: Node, newNode: Node)
      requires nodeTree.Valid()
      modifies nodeTree, this`capacity, this`allocatable
      ensures nodeTree.Valid()
      ensures var p := old(Abs());
        Abs() == p.(tree := Respotted(p.tree, oldNode, newNode),
                    capacity := Changed(p.capacity, oldNode.capacity, newNode.capacity),
                    allocatable := Changed(p.allocatable, oldNode.allocatable, newNode.allocatable))
    {
      hide NodeTree.Valid, SpotsIn, Plus, Sub, NewResource;
      nodeTree.UpdateNode(oldNode, newNode);
      capacity := Plus(capacity, Sub(NewResource(newNode.capacity), NewResource(oldNode.capacity)));
      allocatable := Plus(allocatable, Sub(NewResource(newNode.allocatable), NewResource(oldNode.allocatable)));
    }

    // ----- the incremental snapshot -----

    /** Every entry with a Node is in the snapshot as it is now. */
    ghost predicate FullSync()
      reads this`items, this`snapshot, items`info, items`name
    {
      Shows(snapshot)
    }

    /** The walk over the newer entries brings the snapshot up to date. */
    lemma RefreshedIsSynced(g: Generations, visited: nat)
      requires Valid(g) && Stops(order, snapshotGeneration, visited)
      ensures Shows(TakenAll(snapshot, order, visited))
    {
      DistinctNames(g);
      hide TakenAll, Linked;
      TakenAllContents(snapshot, order, visited);
      forall it | it in items && it.info.node.Some?
        ensures it.name in TakenAll(snapshot, order, visited) && TakenAll(snapshot, order, visited)[it.name] == it.info
      {
        var i :| 0 <= i < |order| && order[i] == it;
        if i >= visited {
          assert it.generation <= snapshotGeneration;
        }
      }
    }

    lemma DistinctNames(g: Generations)
      requires Valid(g)
      ensures forall i, j :: 0 <= i < j < |order| ==> order[i].name != order[j].name
      ensures forall i :: 0 <= i < |order| && order[i].info.node.Some? ==>
        order[i].info.node.value.name == order[i].name
    {
    }

    /** Deletes the names the pool no longer has. */
    method Prune()
      modifies this`snapshot
      ensures snapshot == map x | x in old(snapshot) && x in nodes :: old(snapshot)[x]
    {
      var todo := snapshot.Keys;
      while todo != {}
        invariant todo <= old(snapshot).Keys
        invariant snapshot == map x | x in old(snapshot) && (x in todo || x in nodes) :: old(snapshot)[x]
        decreases todo
      {
        var name :| name in todo;
        todo := todo - {name};
        if name !in nodes {
          snapshot := snapshot - {name};
        }
      }
    }

    twostate lemma SoundStill()
      requires old(Sound())
      requires unchanged(`nodes) && unchanged(`headNode) && unchanged(`order) && unchanged(`items)
      requires forall it :: it in items ==> it.prev == old(it.prev) && it.name == old(it.name)
      requires forall i :: 0 <= i < |order| ==> order[i].next == old(order[i].next)
      ensures Sound()
    {
    }

    /** The walk's part. On a pool whose generations are in order, every entry is in sync after it. */
    method TakeNewer(ghost g: Generations) returns (ghost visited: nat)
      requires Sound()
      modifies this`snapshot, items`next
      ensures Sound() && Stops(order, snapshotGeneration, visited) && visited <= |order|
      ensures snapshot == TakenAll(old(snapshot), order, visited)
      ensures headNode == if order == [] then null else order[0]
      ensures old(Valid(g)) ==> FullSync() && Named() && Decreasing(order) && Bounded(g)
    {
      hide Linked, Rho, SameElements, Stored, TakenAll, Stops, Decreasing, Named, Bounded;
      ghost var valid := Valid(g);
      AllIn(order, items);
      HeadFacts(headNode, order);
      LinkedIsRho(headNode, order);
      var refreshed, hasCircle;
      refreshed, hasCircle, visited := Walk(headNode, snapshot, snapshotGeneration, order, |order|);
      SoundStill();
      if valid {
        RefreshedIsSynced(g, visited);
      }
      snapshot := refreshed;
    }

    lemma StoredInItems()
      requires Stored()
      ensures forall x :: x in nodes ==> nodes[x] in items
    {
    }

    lemma StoredNames()
      requires Sound()
      ensures forall it :: it in items ==> it.name in nodes
    {
    }

    lemma SyncedIsCopy()
      requires Sound() && FullSync()
      requires snapshot.Keys <= nodes.Keys || |snapshot| <= |nodes|
      ensures (forall x :: x in Entries() ==> Entries()[x].node.Some?) ==> snapshot == Entries()
    {
      hide Linked, SameElements;
      if forall x :: x in Entries() ==> Entries()[x].node.Some? {
        forall x | x in nodes
          ensures x in snapshot && snapshot[x] == nodes[x].info
        {
          assert Entries()[x].node.Some?;
        }
        SameSizeSameKeys(nodes.Keys, snapshot.Keys);
      }
    }

    /** What a refresh leaves in the snapshot: what the walk took, pruned when it is larger than the
        pool. */
    ghost predicate Refreshed(before: map<string, NodeInfo>, visited: nat)
      reads this`nodes, this`order, this`snapshot, order`info
    {
      visited <= |order| &&
      var taken := TakenAll(before, order, visited);
      snapshot == if |taken| > |nodes| then (map x | x in taken && x in nodes :: taken[x]) else taken
    }

    /** UpdateNodeInfoSnapshot: the entries and their list are left as they are. On a pool whose
        generations are in order the snapshot becomes a copy of every entry that has a Node; when
        every entry has one, it is exactly the entries. */
    method UpdateNodeInfoSnapshot(g: Generations) returns (ghost visited: nat)
      requires Sound()
      modifies this`snapshot, this`snapshotGeneration, items`next
      ensures Sound() && order == old(order) && Abs() == old(Abs())
      ensures Stops(order, old(snapshotGeneration), visited) && Refreshed(old(snapshot), visited)
      ensures snapshotGeneration == if order == [] then old(snapshotGeneration) else order[0].generation
      ensures old(Valid(g)) ==>
        && Valid(g) && FullSync()
        && ((forall x :: x in Entries() ==> Entries()[x].node.Some?) ==> snapshot == Entries())
    {
      hide Sound, Valid, FullSync, Abs, Entries, TakenAll, Stops, Refreshed;
      visited := RefreshSnapshot(g);
      if old(Valid(g)) {
        SyncedIsCopy();
      }
    }

    method RefreshSnapshot(g: Generations) returns (ghost visited: nat)
      requires Sound()
      modifies this`snapshot, this`snapshotGeneration, items`next
      ensures Sound()
      ensures Stops(order, old(snapshotGeneration), visited) && Refreshed(old(snapshot), visited)
      ensures snapshotGeneration == if order == [] then old(snapshotGeneration) else order[0].generation
      ensures old(Valid(g)) ==> Valid(g) && FullSync() && (snapshot.Keys <= nodes.Keys || |snapshot| <= |nodes|)
    {
      hide Sound, Decreasing, Named, Bounded, FullSync, InSync, TakenAll, Stops;
      ghost var valid := Valid(g);
      visited := TakeNewer(g);
      Finish(g, valid);
    }

    /** The generation is noted, and the snapshot pruned. */
    method Finish(ghost g: Generations, ghost valid: bool)
      requires Sound() && headNode == if order == [] then null else order[0]
      requires valid ==> FullSync() && Named() && Decreasing(order) && Bounded(g)
      modifies this`snapshot, this`snapshotGeneration
      ensures snapshotGeneration == if order == [] then old(snapshotGeneration) else order[0].generation
      ensures snapshot
        == if |old(snapshot)| > |nodes| then (map x | x in old(snapshot) && x in nodes :: old(snapshot)[x])
           else old(snapshot)
      ensures valid ==> Valid(g) && FullSync() && (snapshot.Keys <= nodes.Keys || |snapshot| <= |nodes|)
    {
      hide Sound, Decreasing, Named, Bounded, FullSync, InSync;
      NoteGeneration(g, valid);
      PruneIfLarger(valid);
      if valid {
        SyncIsInSync();
      }
    }

    ghost predicate Shows(taken: map<string, NodeInfo>)
      reads this`items, items`info, items`name
    {
      forall it :: it in items && it.info.node.Some? ==> it.name in taken && taken[it.name] == it.info
    }

    method NoteGeneration(ghost g: Generations, ghost valid: bool)
      requires (valid ==> Bounded(g)) && Sound() && headNode == (if order == [] then null else order[0])
      modifies this`snapshotGeneration
      ensures valid ==> Bounded(g)
      ensures snapshotGeneration == if order == [] then old(snapshotGeneration) else order[0].generation
    {
      if headNode != null {
        snapshotGeneration := headNode.generation;
      }
    }

    method PruneIfLarger(ghost valid: bool)
      requires Sound() && (valid ==> FullSync())
      modifies this`snapshot
      ensures snapshot
        == if |old(snapshot)| > |nodes| then (map x | x in old(snapshot) && x in nodes :: old(snapshot)[x])
           else old(snapshot)
      ensures valid ==> FullSync() && (snapshot.Keys <= nodes.Keys || |snapshot| <= |nodes|)
    {
      hide Sound;
      if |snapshot| > |nodes| {
        StoredNames();
        Prune();
      }
    }

    lemma SyncIsInSync()
      requires FullSync()
      ensures InSync()
    {
    }

    // ----- moving a whole entry -----

    method PlusAll(pods: seq<Pod>)
      modifies this`used, this`shared
      ensures Abs() == PlusPods(old(Abs()), pods, |pods|)
    {
      hide PlusPods, PlusPod;
      StartPods(Abs(), pods);
      for i := 0 to |pods|
        invariant Abs() == PlusPods(old(Abs()), pods, i)
      {
        PlusPodResource(pods[i]);
        NextPods(old(Abs()), pods, i);
      }
    }

    method ReduceAll(pods: seq<Pod>)
      modifies this`used, this`shared
      ensures Abs() == MinusPods(old(Abs()), pods, |pods|)
    {
      hide MinusPods, MinusPod;
      StartPods(Abs(), pods);
      for i := 0 to |pods|
        invariant Abs() == MinusPods(old(Abs()), pods, i)
      {
        ReducePodResource(pods[i]);
        NextPods(old(Abs()), pods, i);
      }
    }

    /** AddNodeInfo: puts a detached item, whose name is free, in front with the generation it has; an
        item without a Node is skipped, and one that the pool has already is counted once more. The list
        stays sound. The snapshot protocol survives a new item exactly when it is newer than every entry,
        and the next refresh would take it or need not, and a known one exactly when it was in front. */
    method AddNodeInfo(ni: Item, ghost g: Generations)
      requires Sound() && nodeTree.Valid() && (ni.info.node.Some? ==> ni.info.node.value.name == ni.name)
      requires if ni.name in nodes then nodes[ni.name] == ni else Detached(items, ni)
      modifies this`nodes, this`headNode, this`order, this`items, this`capacity, this`allocatable, this`used,
          this`shared
      modifies items`next, items`prev, ni`next, ni`prev, NonNull(ni.prev)`next, NonNull(ni.next)`prev, nodeTree
      ensures Sound() && nodeTree.Valid() && Abs() == TakeOver(old(Abs()), ni.info)
      ensures ni.info.node.None? ==> order == old(order) && items == old(items)
      ensures ni.info.node.Some? && ni.name !in old(nodes) ==>
        && order == [ni] + old(order) && items == old(items) + {ni}
        && (old(Valid(g)) && ni.generation <= g.last ==> (Valid(g) <==> Newest(old(items), ni)))
        && (old(ni.prev) != null ==> old(ni.prev).next == old(ni.prev.next))
        && (old(ni.next) != null ==> old(ni.next).prev == old(ni.next.prev))
      ensures ni.info.node.Some? && ni.name in old(nodes) ==>
        && items == old(items) && Fronted(old(order), ni)
        && (old(Valid(g)) ==> (Valid(g) <==> old(headNode) == ni))
    {
      hide TakeOver, PlusPods, AddList, Sound, Detached, Valid, Newest, NodeTree.Valid, SpotsIn, Abs, Fronted;
      TakeOverParts(Abs(), ni.info);
      if ni.info.node.Some? {
        ListIn(ni, g);
        CountIn(ni.info);
      }
    }

    /** The list's part, for an item that is in the list already and for one that is not. */
    method ListIn(ni: Item, ghost g: Generations)
      requires Sound() && ni.info.node.Some? && ni.info.node.value.name == ni.name
      requires if ni.name in nodes then nodes[ni.name] == ni else Detached(items, ni)
      modifies this`nodes, this`headNode, this`order, this`items
      modifies items`next, items`prev, ni`next, ni`prev, NonNull(ni.prev)`next, NonNull(ni.next)`prev
      ensures Sound() && Abs() == old(Abs()).(nodes := old(Abs()).nodes[ni.name := ni.info])
      ensures ni.name !in old(nodes) ==>
        && order == [ni] + old(order) && items == old(items) + {ni}
        && (old(Valid(g)) && ni.generation <= g.last ==> (Valid(g) <==> Newest(old(items), ni)))
        && (old(ni.prev) != null ==> old(ni.prev).next == old(ni.prev.next))
        && (old(ni.next) != null ==> old(ni.next).prev == old(ni.next.prev))
      ensures ni.name in old(nodes) ==>
        && items == old(items) && Fronted(old(order), ni)
        && (old(Valid(g)) ==> (Valid(g) <==> old(headNode) == ni))
    {
      hide Sound, Detached, Valid, Newest, Abs, Fronted;
      if ni.info.node.value.name in nodes {
        FrontAgain(ni, g);
      } else {
        InFront(ni, g);
      }
    }

    /** The item left its place for the front. */
    ghost predicate Fronted(before: seq<Item>, ni: Item)
      reads this`order
    {
      exists k :: 0 <= k < |before| && before[k] == ni && order == [ni] + CutOut(before, k)
    }

    /** The list's part for an item that is in the list. */
    method FrontAgain(ni: Item, ghost g: Generations)
      requires Sound() && ni.name in nodes && nodes[ni.name] == ni
      modifies this`headNode, this`order, items`next, items`prev
      ensures Sound() && Fronted(old(order), ni)
      ensures Abs() == old(Abs()) && Abs().nodes == Abs().nodes[ni.name := ni.info]
      ensures old(Valid(g)) ==> (Valid(g) <==> old(headNode) == ni)
    {
      hide Linked, SameElements, Stored, Decreasing, Named, Bounded, InSync, Fronted;
      ToFront(ni);
    }

    method ToFront(ni: Item)
      requires Sound() && ni.name in nodes && nodes[ni.name] == ni
      modifies this`headNode, this`order, items`next, items`prev
      ensures Linked(headNode, order) && SameElements(order, items) && Fronted(old(order), ni)
      ensures old(Decreasing(order)) ==> (Decreasing(order) <==> old(headNode) == ni)
    {
      hide Linked, SameElements, Stored, Moved, CutOut, Decreasing;
      ghost var k := PositionOf(ni.name);
      AllIn(order, items);
      Neighbours(headNode, order, k);
      DistinctFacts(headNode, order, k);
      MovedElements(order, items, k, ni);
      MovedOut(order, k, ni);
      if Decreasing(order) {
        DecreasingAgain(order, k, ni);
      }
      MoveToHead(headNode, order, items, k, ni);
      headNode := ni;
      order := Moved(order, k, ni);
      assert items + {ni} == items;
    }

    /** The item is newer than every entry, and newer than the snapshot or already shown by it. */
    ghost predicate Newest(base: set<Item>, ni: Item)
      reads this`snapshot, this`snapshotGeneration, base`generation, ni
    {
      && (forall it :: it in base ==> ni.generation > it.generation)
      && (ni.generation > snapshotGeneration || ShownAs(snapshot, ni.name, ni.info))
    }

    /** What validity says of some of the entries. */
    ghost predicate ValidIn(base: set<Item>, rest: seq<Item>, g: Generations)
      reads this`snapshot, this`snapshotGeneration, base`generation, base`info, base`name, rest`generation, g
    {
      && SameElements(rest, base) && Decreasing(rest) && snapshotGeneration <= g.last
      && (forall it :: it in base ==>
            && it.generation <= g.last && (it.info.node.Some? ==> it.info.node.value.name == it.name)
            && (it.generation <= snapshotGeneration && it.info.node.Some? ==> ShownAs(snapshot, it.name, it.info)))
    }

    lemma ValidInAll(g: Generations)
      requires Valid(g)
      ensures ValidIn(items, order, g)
    {
      hide Linked, Decreasing, SameElements;
    }

    lemma ValidWithFront(ni: Item, base: set<Item>, rest: seq<Item>, g: Generations)
      requires Sound() && ValidIn(base, rest, g) && order == [ni] + rest && items == base + {ni} && ni !in base
      requires ni.info.node.Some? && ni.info.node.value.name == ni.name && ni.generation <= g.last
      ensures Valid(g) <==> Newest(base, ni)
    {
      hide Linked, Stored, SameElements, Decreasing;
      FrontNewer(ni, base, rest);
    }

    /** The list's part. */
    method InFront(ni: Item, ghost g: Generations)
      requires Sound() && Detached(items, ni) && ni.info.node.Some?
      requires ni.name !in nodes && ni.info.node.value.name == ni.name
      modifies this`nodes, this`headNode, this`order, this`items
      modifies items`next, items`prev, ni`next, ni`prev, NonNull(ni.prev)`next, NonNull(ni.next)`prev
      ensures Sound() && order == [ni] + old(order) && items == old(items) + {ni}
      ensures Abs() == old(Abs()).(nodes := old(Abs()).nodes[ni.name := ni.info])
      ensures old(Valid(g)) && ni.generation <= g.last ==> (Valid(g) <==> Newest(old(items), ni))
      ensures old(ni.prev) != null ==> old(ni.prev).next == old(ni.prev.next)
      ensures old(ni.next) != null ==> old(ni.next).prev == old(ni.next.prev)
    {
      hide Sound, Detached, Valid, Newest, ValidIn;
      NotAmong(ni);
      ghost var wasValid := Valid(g) && ni.generation <= g.last;
      if wasValid {
        ValidInAll(g);
      }
      PutIn(ni.info.node.value.name, ni);
      if wasValid {
        ValidWithFront(ni, old(items), old(order), g);
      }
    }

    lemma NotAmong(ni: Item)
      requires Detached(items, ni)
      ensures ni !in items
    {
    }

    /** The tree's and the sums' part. */
    method CountIn(info: NodeInfo)
      requires info.node.Some? && nodeTree.Valid()
      modifies this`capacity, this`allocatable, this`used, this`shared, nodeTree
      ensures nodeTree.Valid()
      ensures var p, node := old(Abs()), info.node.value;
        Abs() == PlusPods(p.(tree := p.tree + {SpotOf(node)}, capacity := AddList(p.capacity, node.capacity),
                             allocatable := AddList(p.allocatable, node.allocatable)), info.pods, |info.pods|)
    {
      hide PlusPods, AddList, NodeTree.Valid, SpotsIn;
      NodeIn(info.node.value);
      PlusAll(info.pods);
    }

    method LinkIn(ni: Item)
      requires Linked(headNode, order) && SameElements(order, items) && Detached(items, ni)
      modifies this`headNode, this`order
      modifies items`next, items`prev, ni`next, ni`prev, NonNull(ni.prev)`next, NonNull(ni.next)`prev
      ensures Linked(headNode, order) && order == [ni] + old(order) && SameElements(order, items + {ni})
      ensures old(ni.prev) != null ==> old(ni.prev).next == old(ni.prev.next)
      ensures old(ni.next) != null ==> old(ni.next).prev == old(ni.next.prev)
    {
      hide Linked, SameElements, CutOut, Moved, Detached;
      AllIn(order, items);
      MovedElements(order, items, |order|, ni);
      MovedIn(order, ni);
      MoveToHead(headNode, order, items, |order|, ni);
      headNode := ni;
      order := Moved(order, |order|, ni);
    }

    method PutIn(name: string, ni: Item)
      requires name == ni.name && Sound() && Detached(items, ni) && ni.name !in nodes
      modifies this`nodes, this`headNode, this`order, this`items
      modifies items`next, items`prev, ni`next, ni`prev, NonNull(ni.prev)`next, NonNull(ni.next)`prev
      ensures Sound() && order == [ni] + old(order) && items == old(items) + {ni}
      ensures Entries() == old(Entries())[ni.name := ni.info]
      ensures old(ni.prev) != null ==> old(ni.prev).next == old(ni.prev.next)
      ensures old(ni.next) != null ==> old(ni.next).prev == old(ni.next.prev)
    {
      hide Linked, SameElements, Detached, StoredIn;
      StoredInItems();
      LinkIn(ni);
      StoredJoins(ni, items, nodes);
      nodes := nodes[name := ni];
      items := items + {ni};
    }

    /** RemoveNodeInfo. Skipped for an item without a Node, refused for a name the pool does not have.
        When the tree does not hold the Node, it fails with the item gone and the sums as they were. */
    method RemoveNodeInfo(ni: Item, ghost g: Generations) returns (r: Outcome)
      requires Sound() && nodeTree.Valid() && (ni.name in nodes ==> nodes[ni.name] == ni)
      requires ni.info.node.Some? ==> ni.info.node.value.name == ni.name
      modifies this`nodes, this`headNode, this`order, this`items, this`capacity, this`allocatable, this`used,
          this`shared
      modifies items`next, items`prev, nodeTree
      ensures Sound() && nodeTree.Valid() && Abs() == HandOut(old(Abs()), ni.info) && (old(Valid(g)) ==> Valid(g))
      ensures r == if ni.info.node.None? || (ni.name in old(nodes) && old(InTree(Abs(), ni.info))) then Done
                   else Failed(NodeNotFound)
      ensures ni.info.node.None? || ni.name !in old(nodes) ==> order == old(order) && items == old(items)
      ensures ni.info.node.Some? && ni.name in old(nodes) ==>
        && items == old(items) - {ni} && Detached({}, ni)
        && (exists k :: 0 <= k < |old(order)| && old(order)[k] == ni && order == CutOut(old(order), k))
        && (ni.prev != null ==> ni.prev in items) && (ni.next != null ==> ni.next in items)
    {
      hide HandOut, MinusPods, Sub, NewResource, Sound, Detached, NodeTree.Valid, SpotsIn, Valid;
      HandOutParts(Abs(), ni.info);
      r := Done;
      if ni.info.node.Some? {
        var name := ni.info.node.value.name;
        if name !in nodes {
          return Failed(NodeNotFound);
        }
        var it := TakeOut(name, g);
        assert Entries() == old(Entries()) - {name};
        var found := CountOut(ni.info);
        if !found {
          r := Failed(NodeNotFound);
        }
      }
    }

    /** The list's part. */
    method TakeOut(name: string, ghost g: Generations) returns (ni: Item)
      requires Sound() && name in nodes
      modifies this`nodes, this`headNode, this`order, this`items, items`next, items`prev
      ensures Sound() && (old(Valid(g)) ==> Valid(g))
      ensures ni == old(nodes)[name] && nodes == old(nodes) - {name} && items == old(items) - {ni} && Detached({}, ni)
      ensures exists k :: 0 <= k < |old(order)| && old(order)[k] == ni && order == CutOut(old(order), k)
      ensures (ni.prev != null ==> ni.prev in items) && (ni.next != null ==> ni.next in items)
    {
      hide Linked, SameElements, Stored, CutOut, Detached;
      ghost var wasValid := Valid(g);
      ghost var k;
      ni, k := Extract(name);
      if wasValid {
        WithoutDecreasing(old(order), k);
      }
    }

    /** The tree's and the sums' part: nothing is taken off when the tree does not hold the Node. */
    method CountOut(info: NodeInfo) returns (found: bool)
      requires info.node.Some? && nodeTree.Valid()
      modifies this`capacity, this`allocatable, this`used, this`shared, nodeTree
      ensures nodeTree.Valid() && found == old(InTree(Abs(), info))
      ensures !found ==> Abs() == old(Abs())
      ensures found ==>
        Abs() == MinusPods(old(Abs()).(tree := old(nodeTree.Spots()) - {SpotOf(info.node.value)},
                                       capacity := Sub(old(capacity), NewResource(info.node.value.capacity)),
                                       allocatable := Sub(old(allocatable), NewResource(info.node.value.allocatable))),
                           info.pods, |info.pods|)
    {
      hide MinusPods, Sub, NewResource, NodeTree.Valid, SpotsIn;
      var node := info.node.value;
      found := nodeTree.RemoveNode(node);
      if found {
        capacity := Sub(capacity, NewResource(node.capacity));
        allocatable := Sub(allocatable, NewResource(node.allocatable));
        ReduceAll(info.pods);
      }
    }
  }

  /** A remove-then-add pair as the cache's loops do it: the outcome of the removal is ignored. Both
      lists stay sound, whatever the trees hold. The pool that the entry leaves keeps its snapshot
      protocol, the one that it enters exactly when the entry is the newest there. */
  method MoveEntry(p: PoolInfo, q: PoolInfo, ni: Item, ghost g: Generations)
    requires p != q && p.Sound() && q.Sound() && p.items !! q.items
    requires p.nodeTree != q.nodeTree && p.nodeTree.Valid() && q.nodeTree.Valid()
    requires ni.name in p.nodes && p.nodes[ni.name] == ni && ni.name !in q.nodes
    requires ni.info.node.Some? && ni.info.node.value.name == ni.name
    modifies p, q, p.items`next, p.items`prev, q.items`next, q.items`prev, p.nodeTree, q.nodeTree
    ensures p.Sound() && q.Sound() && p.items == old(p.items) - {ni} && q.items == old(q.items) + {ni}
    ensures p.nodeTree.Valid() && q.nodeTree.Valid()
    ensures p.Abs() == HandOut(old(p.Abs()), ni.info) && q.Abs() == TakeOver(old(q.Abs()), ni.info)
    ensures exists k :: 0 <= k < |old(p.order)| && old(p.order)[k] == ni && p.order == CutOut(old(p.order), k)
    ensures q.order == [ni] + old(q.order)
    ensures q.snapshot == old(q.snapshot) && q.snapshotGeneration == old(q.snapshotGeneration)
    ensures old(p.Valid(g)) ==> p.Valid(g)
    ensures old(q.Valid(g)) && ni.generation <= g.last ==> (q.Valid(g) <==> q.Newest(old(q.items), ni))
  {
    hide HandOut, TakeOver, PoolInfo.Sound, NodeTree.Valid, SpotsIn, InTree, PoolInfo.Valid, PoolInfo.Newest,
      PoolInfo.Abs;
    p.Member(ni.name);
    var ignored := p.RemoveNodeInfo(ni, g);
    DetachedFrom(q.items, p.items, ni);
    q.AddNodeInfo(ni, g);
  }
}
