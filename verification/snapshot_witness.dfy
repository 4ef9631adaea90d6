/** A run in which a pool's snapshot misses an entry that came from another pool
    (pkg/scheduler/info/pool_info.go). */
module SnapshotWitness {
  import opened Api
  import opened NodeInfos
  import opened PoolStates
  import opened Sequences
  import opened ListItems
  import opened ListWalks
  import opened NodeTrees
  import opened PoolLists

  lemma FrontIsStored(p: PoolInfo, g: Generations, name: string)
    requires p.Valid(g) && p.NewInFront(name, g)
    ensures p.Sound() && name in p.nodes && p.nodes[name] == p.order[0] && p.order[0] in p.items
    ensures p.order[0].name == name && p.order[0].generation == g.last
  {
    hide Linked, Decreasing;
  }

  /** A pool with one node, which is the newest entry there is. */
  method OneNode(node: Node, g: Generations) returns (p: PoolInfo)
    requires g.last >= 0
    modifies g
    ensures fresh(p) && fresh(p.nodeTree) && fresh(p.items) && p.nodeTree.Valid() && p.Valid(g) && g.last > old(g.last)
    ensures p.NewInFront(node.name, g) && p.Entries() == map[node.name := SetNode(Empty, node)]
    ensures p.snapshot == map[] && p.snapshotGeneration == 0
  {
    hide PoolInfo.Valid, NodeTree.Valid, SpotsIn, SetNode, AddNodeTo;
    p := new PoolInfo(g);
    p.AddNode(node, g);
    NewPoolWith(node);
  }

  lemma NewPoolWith(node: Node)
    ensures AddNodeTo(NewPool, node).nodes == map[node.name := SetNode(Empty, node)]
  {
  }

  /** A pool with one node and an up-to-date snapshot. */
  method OneNodeSnapped(node: Node, g: Generations) returns (q: PoolInfo)
    requires g.last >= 0
    modifies g
    ensures fresh(q) && fresh(q.nodeTree) && fresh(q.items) && q.nodeTree.Valid() && q.Sound() && g.last > old(g.last)
    ensures q.nodes.Keys == {node.name} && q.snapshot.Keys == {node.name} && q.snapshotGeneration == g.last
  {
    hide PoolInfo.Valid, NodeTree.Valid, SpotsIn, SetNode, PoolInfo.Sound, TakenAll, Stops, PoolInfo.Abs,
      PoolInfo.FullSync;
    q := OneNode(node, g);
    FrontIsStored(q, g, node.name);
    NodesOf(node);
    assert q.nodes.Keys == q.Entries().Keys;
    ghost var visited := q.UpdateNodeInfoSnapshot(g);
  }

  lemma NodesOf(node: Node)
    ensures SetNode(Empty, node).node == Some(node)
  {
  }

  /** The walk takes nothing when the entry in front is not newer than the snapshot. */
  lemma NothingTaken(snapshot: map<string, NodeInfo>, order: seq<Item>, generation: int, visited: nat)
    requires order != [] && order[0].generation <= generation && Stops(order, generation, visited)
    ensures visited == 0 && TakenAll(snapshot, order, visited) == snapshot
  {
    assert visited == 0;
  }

  /** A refresh with an old entry in front shows nothing it did not show before. */
  method RefreshBehind(q: PoolInfo, g: Generations, x: string)
    requires q.Sound() && q.order != [] && q.order[0].generation <= q.snapshotGeneration && x !in q.snapshot
    modifies q`snapshot, q`snapshotGeneration, q.items`next
    ensures q.Sound() && x !in q.snapshot && q.Abs() == old(q.Abs())
  {
    hide PoolInfo.Valid, PoolInfo.Sound, TakenAll, PoolInfo.FullSync, Stops, PoolInfo.Abs;
    ghost var before, generation := q.snapshot, q.snapshotGeneration;
    ghost var visited := q.UpdateNodeInfoSnapshot(g);
    NothingTaken(before, q.order, generation, visited);
  }

  /** A pool with one node, and the node's item. */
  method OneItem(node: Node, g: Generations) returns (p: PoolInfo, ni: Item)
    requires g.last >= 0
    modifies g
    ensures fresh(p) && fresh(p.nodeTree) && fresh(p.items) && p.nodeTree.Valid() && p.Sound() && g.last > old(g.last)
    ensures ni.name == node.name && ni.name in p.nodes && p.nodes[ni.name] == ni && ni in p.items
    ensures ni.info.node == Some(node) && ni.generation == g.last
  {
    hide PoolInfo.Valid, NodeTree.Valid, SpotsIn, SetNode, PoolInfo.Sound;
    p := OneNode(node, g);
    FrontIsStored(p, g, node.name);
    NodesOf(node);
    ni := p.nodes[node.name];
    assert ni.info == p.Entries()[node.name];
  }

  /** An entry moves from a pool to one that has a newer entry and has taken its snapshot. */
  method MovedBehind(first: Node, second: Node) returns (q: PoolInfo, g: Generations)
    requires first.name != second.name
    ensures fresh(q) && fresh(q.items) && q.Sound() && q.order != [] && q.order[0].generation <= q.snapshotGeneration
    ensures first.name in q.Abs().nodes && q.Abs().nodes[first.name].node == Some(first) && first.name !in q.snapshot
  {
    hide PoolInfo.Valid, NodeTree.Valid, SpotsIn, PoolInfo.Sound, PoolInfo.Abs;
    var p, ni;
    p, q, ni, g := TwoPools(first, second);
    Enter(p, q, ni, g);
  }

  /** The move, as far as the pool that the entry enters is concerned. */
  method Enter(p: PoolInfo, q: PoolInfo, ni: Item, g: Generations)
    requires p != q && p.Sound() && q.Sound() && p.items !! q.items
    requires p.nodeTree != q.nodeTree && p.nodeTree.Valid() && q.nodeTree.Valid()
    requires ni.name in p.nodes && p.nodes[ni.name] == ni && ni.name !in q.nodes
    requires ni.info.node.Some? && ni.info.node.value.name == ni.name
    modifies p, q, p.items`next, p.items`prev, q.items`next, q.items`prev, p.nodeTree, q.nodeTree
    ensures q.Sound() && q.items == old(q.items) + {ni} && q.order != [] && q.order[0] == ni
    ensures ni.name in q.Abs().nodes && q.Abs().nodes[ni.name] == ni.info
    ensures q.snapshot == old(q.snapshot) && q.snapshotGeneration == old(q.snapshotGeneration)
  {
    hide PoolInfo.Valid, NodeTree.Valid, SpotsIn, PoolInfo.Sound, HandOut, TakeOver, PoolInfo.Abs, InTree,
      PoolInfo.Newest, NodeTree.Spots, CutOut;
    TakeOverParts(q.Abs(), ni.info);
    MoveEntry(p, q, ni, g);
  }

  /** A pool with one node, and a newer one with another node and an up-to-date snapshot. */
  method TwoPools(first: Node, second: Node) returns (p: PoolInfo, q: PoolInfo, ni: Item, g: Generations)
    requires first.name != second.name
    ensures fresh(p) && fresh(p.nodeTree) && fresh(p.items) && p.nodeTree.Valid() && p.Sound()
    ensures fresh(q) && fresh(q.nodeTree) && fresh(q.items) && q.nodeTree.Valid() && q.Sound()
    ensures p != q && p.nodeTree != q.nodeTree && p.items !! q.items && fresh(ni)
    ensures ni.name == first.name && ni.name in p.nodes && p.nodes[ni.name] == ni && ni.name !in q.nodes
    ensures ni.info.node == Some(first) && ni.generation <= q.snapshotGeneration && first.name !in q.snapshot
  {
    hide PoolInfo.Valid, NodeTree.Valid, SpotsIn, PoolInfo.Sound;
    g := new Generations();
    p, ni := OneItem(first, g);
    q := OneNodeSnapped(second, g);
  }

  /** The next snapshot does not show it, though the pool has it and its Node. */
  method EntryMissed(first: Node, second: Node) returns (q: PoolInfo)
    requires first.name != second.name
    ensures q.Sound() && first.name in q.Abs().nodes && q.Abs().nodes[first.name].node == Some(first)
    ensures first.name !in q.snapshot
  {
    hide PoolInfo.Sound, PoolInfo.Abs;
    var g;
    q, g := MovedBehind(first, second);
    RefreshBehind(q, g, first.name);
  }
}
