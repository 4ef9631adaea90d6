/** One resource pool as a value (pkg/scheduler/info/pool_info.go): its entries by node name, its four
    running sums, and which nodes its node tree holds. The linked list over the entries and the tree
    itself are in PoolLists. */
module PoolStates {
  import opened Api
  import opened Resources
  import opened NodeInfos
  import opened MapSums

  datatype PoolState = PoolState(pool: Option<Pool>, nodes: map<string, NodeInfo>, tree: set<Spot>,
                                 capacity: Resource, allocatable: Resource, used: Resource, shared: Resource)

  const NewPool := PoolState(None, map[], {}, Zero, Zero, Zero, Zero)

  function NameOf(p: PoolState): string {
    if p.pool.None? then DefaultPoolName else p.pool.value.name
  }

  function EntryOf(p: PoolState, name: string): NodeInfo {
    if name in p.nodes then p.nodes[name] else Empty
  }

  // ----- operations -----

  function PlusPod(p: PoolState, pod: Pod): PoolState {
    p.(used := Plus(p.used, PoolRequest(pod)),
       shared := if NameOf(p) == pod.poolAnnotation then p.shared else Plus(p.shared, PoolRequest(pod)))
  }

  function MinusPod(p: PoolState, pod: Pod): PoolState {
    p.(used := Sub(p.used, PoolRequest(pod)),
       shared := if NameOf(p) == pod.poolAnnotation then p.shared else Sub(p.shared, PoolRequest(pod)))
  }

  /** Puts an entry back, or drops it when it has neither pods nor a Node. */
  function Settle(nodes: map<string, NodeInfo>, name: string, ni: NodeInfo): map<string, NodeInfo> {
    if ni.pods == [] && ni.node.None? then nodes - {name} else nodes[name := ni]
  }

  function AddPodTo(p: PoolState, pod: Pod): PoolState {
    PlusPod(p.(nodes := p.nodes[pod.nodeName := AddPod(EntryOf(p, pod.nodeName), pod)]), pod)
  }

  /** The pool's entry for the pod's node lists the pod; otherwise removal is refused. */
  predicate Holds(p: PoolState, pod: Pod) {
    pod.nodeName in p.nodes && HasPod(p.nodes[pod.nodeName].pods, pod.uid)
  }

  function RemovePodFrom(p: PoolState, pod: Pod): PoolState
    requires Holds(p, pod)
  {
    MinusPod(p.(nodes := Settle(p.nodes, pod.nodeName, RemovePod(p.nodes[pod.nodeName], pod))), pod)
  }

  function AddNodeTo(p: PoolState, node: Node): PoolState {
    p.(nodes := p.nodes[node.name := SetNode(EntryOf(p, node.name), node)], tree := p.tree + {SpotOf(node)},
       capacity := AddList(p.capacity, node.capacity), allocatable := AddList(p.allocatable, node.allocatable))
  }

  function RemoveNodeFrom(p: PoolState, node: Node): PoolState
    requires node.name in p.nodes
  {
    p.(nodes := Settle(p.nodes, node.name, RemoveNode(p.nodes[node.name])), tree := p.tree - {SpotOf(node)},
       capacity := Sub(p.capacity, NewResource(node.capacity)),
       allocatable := Sub(p.allocatable, NewResource(node.allocatable)))
  }

  /** NodeTree.UpdateNode. */
  function Respotted(tree: set<Spot>, oldNode: Node, newNode: Node): set<Spot> {
    if oldNode.zone == newNode.zone then tree else tree - {SpotOf(oldNode)} + {SpotOf(newNode)}
  }

  /** A sum after one list was replaced by another. */
  function Changed(r: Resource, before: ResourceList, after: ResourceList): Resource {
    Plus(r, Sub(NewResource(after), NewResource(before)))
  }

  function UpdateNodeIn(p: PoolState, oldNode: Node, newNode: Node): PoolState {
    p.(nodes := p.nodes[newNode.name := SetNode(EntryOf(p, newNode.name), newNode)],
       tree := Respotted(p.tree, oldNode, newNode),
       capacity := Changed(p.capacity, oldNode.capacity, newNode.capacity),
       allocatable := Changed(p.allocatable, oldNode.allocatable, newNode.allocatable))
  }

  /** The sums after the first `k` pods of an entry came in. */
  function PlusPods(p: PoolState, pods: seq<Pod>, k: nat): (q: PoolState)
    requires k <= |pods|
    ensures q == p.(used := q.used, shared := q.shared)
  {
    if k == 0 then p else PlusPod(PlusPods(p, pods, k - 1), pods[k - 1])
  }

  function MinusPods(p: PoolState, pods: seq<Pod>, k: nat): (q: PoolState)
    requires k <= |pods|
    ensures q == p.(used := q.used, shared := q.shared)
  {
    if k == 0 then p else MinusPod(MinusPods(p, pods, k - 1), pods[k - 1])
  }

  /** AddNodeInfo: takes over a whole entry; an entry without a Node is skipped. */
  function TakeOver(p: PoolState, ni: NodeInfo): PoolState {
    if ni.node.None? then p else PlusPods(WithEntry(p, ni), ni.pods, |ni.pods|)
  }

  function WithEntry(p: PoolState, ni: NodeInfo): PoolState
    requires ni.node.Some?
  {
    var node := ni.node.value;
    p.(nodes := p.nodes[node.name := ni], tree := p.tree + {SpotOf(node)},
       capacity := AddList(p.capacity, node.capacity), allocatable := AddList(p.allocatable, node.allocatable))
  }

  /** The tree holds the entry's Node; otherwise RemoveNodeInfo stops half way. */
  predicate InTree(p: PoolState, ni: NodeInfo) { ni.node.Some? && SpotOf(ni.node.value) in p.tree }

  /** RemoveNodeInfo: hands a whole entry out; skipped for an entry without a Node, refused when
      the pool has no entry of that name. When the tree does not hold the Node, the entry is gone
      but nothing is taken off the sums. */
  function HandOut(p: PoolState, ni: NodeInfo): PoolState {
    if ni.node.None? || ni.node.value.name !in p.nodes then p
    else if !InTree(p, ni) then p.(nodes := p.nodes - {ni.node.value.name})
    else MinusPods(WithoutEntry(p, ni), ni.pods, |ni.pods|)
  }

  function WithoutEntry(p: PoolState, ni: NodeInfo): PoolState
    requires ni.node.Some?
  {
    var node := ni.node.value;
    p.(nodes := p.nodes - {node.name}, tree := p.tree - {SpotOf(node)},
       capacity := Sub(p.capacity, NewResource(node.capacity)),
       allocatable := Sub(p.allocatable, NewResource(node.allocatable)))
  }

  // ----- their parts -----

  lemma AddPodParts(p: PoolState, pod: Pod)
    ensures var nodes := p.nodes[pod.nodeName := AddPod(EntryOf(p, pod.nodeName), pod)];
      && AddPodTo(p, pod) == PlusPod(p.(nodes := nodes), pod) && AddPodTo(p, pod).nodes == nodes
      && AddPodTo(p, pod).pool == p.pool && AddPodTo(p, pod).tree == p.tree
  {
  }

  lemma RemovePodParts(p: PoolState, pod: Pod)
    requires Holds(p, pod)
    ensures var nodes := Settle(p.nodes, pod.nodeName, RemovePod(p.nodes[pod.nodeName], pod));
      && RemovePodFrom(p, pod) == MinusPod(p.(nodes := nodes), pod) && RemovePodFrom(p, pod).nodes == nodes
      && RemovePodFrom(p, pod).pool == p.pool && RemovePodFrom(p, pod).tree == p.tree
  {
  }

  lemma AddNodeParts(p: PoolState, node: Node)
    ensures AddNodeTo(p, node)
         == p.(nodes := p.nodes[node.name := SetNode(EntryOf(p, node.name), node)], tree := p.tree + {SpotOf(node)},
               capacity := AddList(p.capacity, node.capacity), allocatable := AddList(p.allocatable, node.allocatable))
  {
  }

  lemma RemoveNodeParts(p: PoolState, node: Node)
    requires node.name in p.nodes
    ensures RemoveNodeFrom(p, node)
         == p.(nodes := Settle(p.nodes, node.name, RemoveNode(p.nodes[node.name])), tree := p.tree - {SpotOf(node)},
               capacity := Sub(p.capacity, NewResource(node.capacity)),
               allocatable := Sub(p.allocatable, NewResource(node.allocatable)))
  {
  }

  lemma UpdateNodeParts(p: PoolState, oldNode: Node, newNode: Node)
    ensures UpdateNodeIn(p, oldNode, newNode)
         == p.(nodes := p.nodes[newNode.name := SetNode(EntryOf(p, newNode.name), newNode)],
               tree := Respotted(p.tree, oldNode, newNode),
               capacity := Changed(p.capacity, oldNode.capacity, newNode.capacity),
               allocatable := Changed(p.allocatable, oldNode.allocatable, newNode.allocatable))
  {
  }

  lemma TakeOverParts(p: PoolState, ni: NodeInfo)
    ensures ni.node.None? ==> TakeOver(p, ni) == p
    ensures ni.node.Some? ==>
      && TakeOver(p, ni) == PlusPods(WithEntry(p, ni), ni.pods, |ni.pods|)
      && TakeOver(p, ni).nodes == p.nodes[ni.node.value.name := ni]
      && TakeOver(p, ni).tree == p.tree + {SpotOf(ni.node.value)} && TakeOver(p, ni).pool == p.pool
  {
  }

  lemma HandOutParts(p: PoolState, ni: NodeInfo)
    ensures ni.node.None? || ni.node.value.name !in p.nodes ==> HandOut(p, ni) == p
    ensures ni.node.Some? && ni.node.value.name in p.nodes ==>
      && HandOut(p, ni).nodes == p.nodes - {ni.node.value.name}
      && HandOut(p, ni).tree == p.tree - {SpotOf(ni.node.value)} && HandOut(p, ni).pool == p.pool
      && HandOut(p, ni)
        == if InTree(p, ni) then MinusPods(WithoutEntry(p, ni), ni.pods, |ni.pods|)
           else p.(nodes := p.nodes - {ni.node.value.name})
  {
  }

  // ----- the tree holds the Nodes -----

  /** The Nodes of the entries. */
  function SpotsOf(nodes: map<string, NodeInfo>): set<Spot> {
    set x | x in nodes && nodes[x].node.Some? :: SpotOf(nodes[x].node.value)
  }

  predicate Treed(p: PoolState) { p.tree == SpotsOf(p.nodes) }

  /** Every Node has its entry's name. */
  predicate Named(nodes: map<string, NodeInfo>) {
    forall x :: x in nodes && nodes[x].node.Some? ==> nodes[x].node.value.name == x
  }

  lemma SpotAt(nodes: map<string, NodeInfo>, s: Spot)
    requires Named(nodes)
    ensures s in SpotsOf(nodes)
      <==> s.name in nodes && nodes[s.name].node.Some? && SpotOf(nodes[s.name].node.value) == s
  {
  }

  /** The Node of one entry changes. */
  lemma SpotsPut(nodes: map<string, NodeInfo>, x: string, ni: NodeInfo)
    requires Named(nodes) && (ni.node.Some? ==> ni.node.value.name == x)
    ensures SpotsOf(nodes[x := ni])
         == SpotsOf(nodes - {x}) + if ni.node.Some? then {SpotOf(ni.node.value)} else {}
    ensures SpotsOf(nodes - {x})
         == SpotsOf(nodes) - if x in nodes && nodes[x].node.Some? then {SpotOf(nodes[x].node.value)} else {}
  {
    hide SpotsOf;
    var rest, put := nodes - {x}, nodes[x := ni];
    forall s
      ensures s in SpotsOf(put) <==> s in SpotsOf(rest) || (ni.node.Some? && s == SpotOf(ni.node.value))
      ensures s in SpotsOf(rest)
        <==> s in SpotsOf(nodes) && !(x in nodes && nodes[x].node.Some? && s == SpotOf(nodes[x].node.value))
    {
      SpotAt(nodes, s);
      SpotAt(rest, s);
      SpotAt(put, s);
    }
  }

  /** An entry changes and keeps its Node. */
  lemma SpotsKept(nodes: map<string, NodeInfo>, x: string, ni: NodeInfo)
    requires Named(nodes) && ni.node == (if x in nodes then nodes[x].node else None)
    ensures SpotsOf(nodes[x := ni]) == SpotsOf(nodes) && (ni.node.None? ==> SpotsOf(nodes - {x}) == SpotsOf(nodes))
  {
    hide SpotsOf;
    SpotsPut(nodes, x, ni);
    if ni.node.Some? {
      SpotAt(nodes, SpotOf(ni.node.value));
    }
  }

  // ----- the running sums are the sums -----

  function PoolRequestOf(n: ResourceName): Pod -> int { pod => Amount(PoolRequest(pod), n) }

  /** What a pod of another pool takes. */
  function ForeignRequestOf(name: string, n: ResourceName): Pod -> int {
    (pod: Pod) => if name == pod.poolAnnotation then 0 else Amount(PoolRequest(pod), n)
  }

  function CapacityOf(n: ResourceName): NodeInfo -> int {
    (ni: NodeInfo) => if ni.node.Some? then Quantity(ni.node.value.capacity, n) else 0
  }

  function AllocatableOf(n: ResourceName): NodeInfo -> int {
    (ni: NodeInfo) => if ni.node.Some? then Quantity(ni.node.value.allocatable, n) else 0
  }

  function UsedOf(n: ResourceName): NodeInfo -> int { (ni: NodeInfo) => Total(ni.pods, PoolRequestOf(n)) }

  function SharedOf(name: string, n: ResourceName): NodeInfo -> int {
    (ni: NodeInfo) => Total(ni.pods, ForeignRequestOf(name, n))
  }

  ghost predicate NodesAccounted(p: PoolState, n: ResourceName) {
    && Amount(p.capacity, n) == Sum(p.nodes, CapacityOf(n))
    && Amount(p.allocatable, n) == Sum(p.nodes, AllocatableOf(n))
  }

  ghost predicate PodsAccounted(p: PoolState, n: ResourceName) {
    && Amount(p.used, n) == Sum(p.nodes, UsedOf(n))
    && Amount(p.shared, n) == Sum(p.nodes, SharedOf(NameOf(p), n))
  }

  /** Capacity and allocatable are the sums over the pool's Nodes, used the sum over its pods and
      shared the sum over its pods that belong to another pool. */
  ghost predicate Accounted(p: PoolState) {
    forall n: ResourceName :: NodesAccounted(p, n) && PodsAccounted(p, n)
  }

  lemma NewPoolAccounted()
    ensures Accounted(NewPool)
  {
  }

  /** Every weight of an entry that has neither pods nor a Node is zero. */
  lemma EmptyWeights(n: ResourceName, name: string, ni: NodeInfo)
    ensures ni.node.None? ==> CapacityOf(n)(ni) == 0 && AllocatableOf(n)(ni) == 0
    ensures ni.pods == [] ==> UsedOf(n)(ni) == 0 && SharedOf(name, n)(ni) == 0
  {
  }

  lemma SettleSum(nodes: map<string, NodeInfo>, name: string, ni: NodeInfo, w: NodeInfo -> int)
    requires name in nodes
    requires ni.pods == [] && ni.node.None? ==> w(ni) == 0
    ensures Sum(Settle(nodes, name, ni), w) == Sum(nodes, w) + w(ni) - w(nodes[name])
  {
    SumPut(nodes, w, name, ni);
    SumDrop(nodes, w, name);
  }

  lemma PutSum(p: PoolState, name: string, ni: NodeInfo, w: NodeInfo -> int)
    requires w(Empty) == 0
    ensures Sum(p.nodes[name := ni], w) == Sum(p.nodes, w) + w(ni) - w(EntryOf(p, name))
  {
    SumPut(p.nodes, w, name, ni);
  }

  /** What a pod adds to the sums: its containers' lists and one pod to what is used, and as much to what
      is shared if it is annotated with another pool. */
  lemma AddPodSums(p: PoolState, pod: Pod, n: ResourceName)
    ensures var q, more := AddPodTo(p, pod), AllLists(pod.containers, n) + if n.PodCount? then 1 else 0;
      && Amount(q.used, n) == Amount(p.used, n) + more
      && Amount(q.shared, n) == Amount(p.shared, n)
        + (if pod.poolAnnotation == (if p.pool.None? then "" else p.pool.value.name) then 0 else more)
  {
    hide Amount, PodRequest, Plus, PoolRequest;
    PodRequestIsListed(pod, n);
  }

  lemma AddPodAccounted(p: PoolState, pod: Pod)
    requires Accounted(p)
    ensures Accounted(AddPodTo(p, pod))
  {
    hide Plus, Sub, AddList, NewResource, Amount, PoolRequest, Sum, Total, Accounted;
    var e := EntryOf(p, pod.nodeName);
    var e' := AddPod(e, pod);
    forall n: ResourceName
      ensures NodesAccounted(AddPodTo(p, pod), n) && PodsAccounted(AddPodTo(p, pod), n)
    {
      AccountedAt(p, n);
      EmptyWeights(n, NameOf(p), Empty);
      PutSum(p, pod.nodeName, e', CapacityOf(n));
      PutSum(p, pod.nodeName, e', AllocatableOf(n));
      PutSum(p, pod.nodeName, e', UsedOf(n));
      PutSum(p, pod.nodeName, e', SharedOf(NameOf(p), n));
      TotalAppended(e.pods, pod, PoolRequestOf(n));
      TotalAppended(e.pods, pod, ForeignRequestOf(NameOf(p), n));
    }
    AccountedEverywhere(AddPodTo(p, pod));
  }

  lemma AccountedAt(p: PoolState, n: ResourceName)
    requires Accounted(p)
    ensures NodesAccounted(p, n) && PodsAccounted(p, n)
  {
  }

  lemma AccountedEverywhere(p: PoolState)
    requires forall n: ResourceName :: NodesAccounted(p, n) && PodsAccounted(p, n)
    ensures Accounted(p)
  {
  }

  /** Removal keeps the sums when the argument carries the figures of the stored pod. */
  lemma RemovePodAccounted(p: PoolState, pod: Pod)
    requires Accounted(p) && Holds(p, pod)
    requires var pods := p.nodes[pod.nodeName].pods; SameFigures(pods[FindPod(pods, pod.uid)], pod)
    ensures Accounted(RemovePodFrom(p, pod))
  {
    hide Plus, Sub, AddList, NewResource, Amount, PoolRequest, Sum, Total, Accounted, Settle;
    var e := p.nodes[pod.nodeName];
    var i := FindPod(e.pods, pod.uid);
    var e' := RemovePod(e, pod);
    forall n: ResourceName
      ensures NodesAccounted(RemovePodFrom(p, pod), n) && PodsAccounted(RemovePodFrom(p, pod), n)
    {
      AccountedAt(p, n);
      EmptyWeights(n, NameOf(p), e');
      SettleSum(p.nodes, pod.nodeName, e', CapacityOf(n));
      SettleSum(p.nodes, pod.nodeName, e', AllocatableOf(n));
      SettleSum(p.nodes, pod.nodeName, e', UsedOf(n));
      SettleSum(p.nodes, pod.nodeName, e', SharedOf(NameOf(p), n));
      TotalSwapRemoved(e.pods, i, PoolRequestOf(n));
      TotalSwapRemoved(e.pods, i, ForeignRequestOf(NameOf(p), n));
      SameFiguresSameRequest(e.pods[i], pod);
    }
    AccountedEverywhere(RemovePodFrom(p, pod));
  }

  lemma SameFiguresSameRequest(p: Pod, q: Pod)
    requires SameFigures(p, q)
    ensures PoolRequest(p) == PoolRequest(q) && PodRequest(p) == PodRequest(q)
  {
  }

  /** Whether two resource lists count the same. */
  ghost predicate SameAmounts(a: ResourceList, b: ResourceList) {
    forall n: ResourceName :: Quantity(a, n) == Quantity(b, n)
  }

  /** What an entry's Node contributes. */
  function NodeCapacity(ni: NodeInfo): ResourceList { if ni.node.Some? then ni.node.value.capacity else map[] }

  function NodeAllocatable(ni: NodeInfo): ResourceList { if ni.node.Some? then ni.node.value.allocatable else map[] }

  /** AddNode keeps the sums exactly when the entry had no Node that counted: adding a Node again
      counts it twice. */
  lemma AddNodeAccounted(p: PoolState, node: Node)
    requires Accounted(p)
    ensures Accounted(AddNodeTo(p, node)) <==>
        SameAmounts(NodeCapacity(EntryOf(p, node.name)), map[])
          && SameAmounts(NodeAllocatable(EntryOf(p, node.name)), map[])
  {
    hide Plus, Sub, AddList, NewResource, Amount, Sum, Total, Accounted;
    var e := EntryOf(p, node.name);
    var e' := SetNode(e, node);
    forall n: ResourceName
      ensures NodesAccounted(AddNodeTo(p, node), n) <==>
          Quantity(NodeCapacity(e), n) == 0 && Quantity(NodeAllocatable(e), n) == 0
      ensures PodsAccounted(AddNodeTo(p, node), n)
    {
      AccountedAt(p, n);
      EmptyWeights(n, NameOf(p), Empty);
      PutSum(p, node.name, e', CapacityOf(n));
      PutSum(p, node.name, e', AllocatableOf(n));
      PutSum(p, node.name, e', UsedOf(n));
      PutSum(p, node.name, e', SharedOf(NameOf(p), n));
    }
    AccountedIff(AddNodeTo(p, node));
  }

  lemma AccountedIff(p: PoolState)
    ensures Accounted(p) <==> forall n: ResourceName :: NodesAccounted(p, n) && PodsAccounted(p, n)
  {
  }

  /** RemoveNode keeps the sums exactly when the argument carries the stored Node's figures. */
  lemma RemoveNodeAccounted(p: PoolState, node: Node)
    requires Accounted(p) && node.name in p.nodes
    ensures Accounted(RemoveNodeFrom(p, node)) <==>
        SameAmounts(NodeCapacity(p.nodes[node.name]), node.capacity) &&
        SameAmounts(NodeAllocatable(p.nodes[node.name]), node.allocatable)
  {
    hide Plus, Sub, AddList, NewResource, Amount, Sum, Total, Accounted, Settle;
    var e := p.nodes[node.name];
    var e' := RemoveNode(e);
    forall n: ResourceName
      ensures NodesAccounted(RemoveNodeFrom(p, node), n) <==>
          Quantity(NodeCapacity(e), n) == Quantity(node.capacity, n) &&
          Quantity(NodeAllocatable(e), n) == Quantity(node.allocatable, n)
      ensures PodsAccounted(RemoveNodeFrom(p, node), n)
    {
      AccountedAt(p, n);
      EmptyWeights(n, NameOf(p), e');
      SettleSum(p.nodes, node.name, e', CapacityOf(n));
      SettleSum(p.nodes, node.name, e', AllocatableOf(n));
      SettleSum(p.nodes, node.name, e', UsedOf(n));
      SettleSum(p.nodes, node.name, e', SharedOf(NameOf(p), n));
    }
    AccountedIff(RemoveNodeFrom(p, node));
  }

  /** UpdateNode keeps the sums exactly when the old Node it is given counts like the stored one. */
  lemma UpdateNodeAccounted(p: PoolState, oldNode: Node, newNode: Node)
    requires Accounted(p)
    ensures Accounted(UpdateNodeIn(p, oldNode, newNode)) <==>
        SameAmounts(NodeCapacity(EntryOf(p, newNode.name)), oldNode.capacity) &&
        SameAmounts(NodeAllocatable(EntryOf(p, newNode.name)), oldNode.allocatable)
  {
    hide Plus, Sub, AddList, NewResource, Amount, Sum, Total, Accounted;
    var e := EntryOf(p, newNode.name);
    var e' := SetNode(e, newNode);
    var q := UpdateNodeIn(p, oldNode, newNode);
    forall n: ResourceName
      ensures NodesAccounted(q, n) <==>
          Quantity(NodeCapacity(e), n) == Quantity(oldNode.capacity, n) &&
          Quantity(NodeAllocatable(e), n) == Quantity(oldNode.allocatable, n)
      ensures PodsAccounted(q, n)
    {
      AccountedAt(p, n);
      EmptyWeights(n, NameOf(p), Empty);
      PutSum(p, newNode.name, e', CapacityOf(n));
      PutSum(p, newNode.name, e', AllocatableOf(n));
      PutSum(p, newNode.name, e', UsedOf(n));
      PutSum(p, newNode.name, e', SharedOf(NameOf(p), n));
    }
    AccountedIff(q);
  }

  lemma {:induction false} PlusPodsAmounts(p: PoolState, pods: seq<Pod>, k: nat, n: ResourceName)
    requires k <= |pods|
    ensures Amount(PlusPods(p, pods, k).used, n) == Amount(p.used, n) + PodSum(pods, k, PoolRequestOf(n))
    ensures Amount(PlusPods(p, pods, k).shared, n)
      == Amount(p.shared, n) + PodSum(pods, k, ForeignRequestOf(NameOf(p), n))
    ensures Amount(MinusPods(p, pods, k).used, n) == Amount(p.used, n) - PodSum(pods, k, PoolRequestOf(n))
    ensures Amount(MinusPods(p, pods, k).shared, n)
      == Amount(p.shared, n) - PodSum(pods, k, ForeignRequestOf(NameOf(p), n))
  {
    hide Plus, Sub, AddList, NewResource, Amount, PoolRequest;
    if k > 0 {
      PlusPodsAmounts(p, pods, k - 1, n);
    }
  }

  /** The entry adds nothing to any sum. */
  ghost predicate CountsForNothing(p: PoolState, ni: NodeInfo) {
    forall n: ResourceName :: WeighsNothing(p, ni, n)
  }

  ghost predicate WeighsNothing(p: PoolState, ni: NodeInfo, n: ResourceName) {
    CapacityOf(n)(ni) == 0 && AllocatableOf(n)(ni) == 0 && UsedOf(n)(ni) == 0 && SharedOf(NameOf(p), n)(ni) == 0
  }

  lemma EmptyCountsForNothing(p: PoolState)
    ensures CountsForNothing(p, Empty)
  {
    hide Total;
    forall n: ResourceName ensures WeighsNothing(p, Empty, n) {
      EmptyWeights(n, NameOf(p), Empty);
    }
  }

  /** Taking over an entry keeps the sums exactly when an entry it replaces counted for nothing; a
      free name always does. */
  lemma TakeOverAccounted(p: PoolState, ni: NodeInfo)
    requires Accounted(p) && ni.node.Some?
    ensures Accounted(TakeOver(p, ni)) <==> CountsForNothing(p, EntryOf(p, ni.node.value.name))
  {
    hide Plus, Sub, AddList, NewResource, Amount, Sum, Accounted, PoolRequest, PlusPods, Total;
    var node := ni.node.value;
    var e := EntryOf(p, node.name);
    forall n: ResourceName
      ensures NodesAccounted(TakeOver(p, ni), n) && PodsAccounted(TakeOver(p, ni), n) <==> WeighsNothing(p, e, n)
    {
      AccountedAt(p, n);
      EmptyWeights(n, NameOf(p), Empty);
      PutSum(p, node.name, ni, CapacityOf(n));
      PutSum(p, node.name, ni, AllocatableOf(n));
      PutSum(p, node.name, ni, UsedOf(n));
      PutSum(p, node.name, ni, SharedOf(NameOf(p), n));
      PlusPodsAmounts(WithEntry(p, ni), ni.pods, |ni.pods|, n);
      TotalIs(ni.pods, PoolRequestOf(n));
      TotalIs(ni.pods, ForeignRequestOf(NameOf(p), n));
    }
    AccountedIff(TakeOver(p, ni));
  }

  /** Handing out an entry of the pool keeps the sums exactly when the tree holds its Node, or when
      there is nothing to take off. */
  lemma HandOutAccounted(p: PoolState, ni: NodeInfo)
    requires Accounted(p) && ni.node.Some? && ni.node.value.name in p.nodes && p.nodes[ni.node.value.name] == ni
    ensures Accounted(HandOut(p, ni)) <==> InTree(p, ni) || CountsForNothing(p, ni)
  {
    hide Plus, Sub, AddList, NewResource, Amount, Sum, Accounted, PoolRequest, MinusPods, Total;
    var node := ni.node.value;
    var q := WithoutEntry(p, ni);
    forall n: ResourceName
      ensures NodesAccounted(HandOut(p, ni), n) && PodsAccounted(HandOut(p, ni), n)
        <==> InTree(p, ni) || WeighsNothing(p, ni, n)
    {
      AccountedAt(p, n);
      SumDrop(p.nodes, CapacityOf(n), node.name);
      SumDrop(p.nodes, AllocatableOf(n), node.name);
      SumDrop(p.nodes, UsedOf(n), node.name);
      SumDrop(p.nodes, SharedOf(NameOf(p), n), node.name);
      PlusPodsAmounts(q, ni.pods, |ni.pods|, n);
      TotalIs(ni.pods, PoolRequestOf(n));
      TotalIs(ni.pods, ForeignRequestOf(NameOf(p), n));
    }
    AccountedIff(HandOut(p, ni));
  }

  lemma TotalIs(pods: seq<Pod>, w: Pod -> int)
    ensures Total(pods, w) == PodSum(pods, |pods|, w)
  {
  }
}
