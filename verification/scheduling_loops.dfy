/** The per-pool scheduling loops as a protocol (pkg/scheduler/scheduler.go): each loop takes a
    snapshot of its pool, finds a node that fits, and assumes the pod there, while confirmations,
    forgotten bindings, removals and expiries of pods interleave. No node is overcommitted. */
module SchedulingLoops {
  import opened Api
  import opened Resources
  import opened NodeInfos
  import opened PoolStates
  import opened PoolMaps
  import opened CachePods
  import opened PodEffects
  import PodOrders
  import PoolLists

  /** What a loop is about to do. */
  datatype Loop =
    | Idle
    | Snapped(snapshot: map<string, NodeInfo>)
    | Chosen(snapshot: map<string, NodeInfo>, pod: Pod, host: string)

  datatype System = System(cache: Cache, loops: map<string, Loop>)

  datatype Step =
    | TakeSnapshot(pool: string)
    | Choose(pool: string, pod: Pod, host: string, nominated: seq<Pod>)
    | AssumeChosen(pool: string)
    | GiveUp(pool: string)
    | Deliver(event: PodEvent)

  // ----- fitting -----

  /** addNominatedPods: the node as it would be with the nominated pods that do not yield to `pod`. */
  function WithNominated(pod: Pod, ni: NodeInfo, nominated: seq<Pod>): NodeInfo {
    if nominated == [] then ni
    else
      var rest := WithNominated(pod, ni, nominated[..|nominated| - 1]);
      var p := nominated[|nominated| - 1];
      if PodOrders.PriorityOf(p) >= PodOrders.PriorityOf(pod) && p.uid != pod.uid then AddPod(rest, p) else rest
  }

  /** podFitsOnNode, for the resource predicate: with the nominated pods, and again without them. */
  ghost predicate FitsOnNode(pod: Pod, ni: NodeInfo, nominated: seq<Pod>, ignored: set<string>) {
    && FitsResources(pod, WithNominated(pod, ni, nominated), ignored)
    && (nominated != [] ==> FitsResources(pod, ni, ignored))
  }

  /** The nominated pods that the pod must yield to: others of at least its priority. */
  function Preceding(pod: Pod, nominated: seq<Pod>): seq<Pod> {
    PodOrders.Chosen(nominated, (p: Pod) => PodOrders.PriorityOf(pod) <= PodOrders.PriorityOf(p) && p.uid != pod.uid,
                     |nominated|)
  }

  lemma {:induction false} NominatedAdded(pod: Pod, ni: NodeInfo, nominated: seq<Pod>, n: ResourceName)
    ensures var with, p := WithNominated(pod, ni, nominated), Preceding(pod, nominated);
      && with.node == ni.node && with.allocatable == ni.allocatable && |with.pods| == |ni.pods| + |p|
      && (!n.PodCount? ==> Amount(with.requested, n) == Amount(ni.requested, n) + Total(p, RequestOf(n)))
  {
    hide Amount, PodRequest, PodSum;
    if nominated == [] {
      TotalOfNone(RequestOf(n));
    } else {
      var k := |nominated| - 1;
      NominatedAdded(pod, ni, nominated[..k], n);
      PrecedingStep(pod, nominated);
      TotalAppended(Preceding(pod, nominated[..k]), nominated[k], RequestOf(n));
    }
  }

  lemma TotalOfNone(w: Pod -> int)
    ensures Total([], w) == 0
  {
  }

  lemma PrecedingStep(pod: Pod, nominated: seq<Pod>)
    requires nominated != []
    ensures var k := |nominated| - 1;
      var p := nominated[k];
      Preceding(pod, nominated) ==
      if PodOrders.PriorityOf(pod) <= PodOrders.PriorityOf(p) && p.uid != pod.uid
      then Preceding(pod, nominated[..k]) + [p] else Preceding(pod, nominated[..k])
  {
    var c := (p: Pod) => PodOrders.PriorityOf(pod) <= PodOrders.PriorityOf(p) && p.uid != pod.uid;
    ChosenPrefix(nominated, c, |nominated| - 1);
  }

  lemma {:induction false} ChosenPrefix(pods: seq<Pod>, c: Pod -> bool, k: nat)
    requires k < |pods|
    ensures PodOrders.Chosen(pods, c, k) == PodOrders.Chosen(pods[..|pods| - 1], c, k)
  {
    if k > 0 {
      ChosenPrefix(pods, c, k - 1);
    }
  }

  /** A pod that fits on a node has room there beside all nominated pods that it must yield to. */
  lemma RoomBesideNominated(pod: Pod, ni: NodeInfo, nominated: seq<Pod>, ignored: set<string>, n: ResourceName)
    requires FitsOnNode(pod, ni, nominated, ignored)
    ensures var p := Preceding(pod, nominated);
      && ni.node.Some? && |ni.pods| + |p| + 1 <= ni.allocatable.allowedPodNumber
      && (RequestsNothing(FitRequest(pod)) || !Checked(FitRequest(pod), ignored, n)
          || Amount(FitRequest(pod), n) + Amount(ni.requested, n) + Total(p, RequestOf(n)) <= Amount(ni.allocatable, n))
  {
    hide WithNominated, Preceding, FitRequest, Total, RequestsNothing;
    NominatedAdded(pod, ni, nominated, n);
    assert Checked(FitRequest(pod), ignored, n) && !RequestsNothing(FitRequest(pod)) ==>
      HasRoom(FitRequest(pod), WithNominated(pod, ni, nominated), n);
  }

  // ----- limits -----

  /** The components a node's allocatable limits; extended resources left to extenders are not. */
  predicate Limited(n: ResourceName, ignored: set<string>) {
    match n
    case Scalar(name) => name !in ignored
    case PodCount => false
    case Unaccounted(_) => false
    case _ => true
  }

  /** Neither the requested resources nor the number of pods exceed what the node can allocate. */
  ghost predicate Within(ni: NodeInfo, ignored: set<string>) {
    && |ni.pods| <= ni.allocatable.allowedPodNumber
    && forall n: ResourceName :: Limited(n, ignored) ==> Amount(ni.requested, n) <= Amount(ni.allocatable, n)
  }

  /** The node as it is now holds no more than it held in the snapshot. */
  ghost predicate Below(now: NodeInfo, then_: NodeInfo) {
    && now.node == then_.node && now.allocatable == then_.allocatable && |now.pods| <= |then_.pods|
    && forall n: ResourceName :: Amount(now.requested, n) <= Amount(then_.requested, n)
  }

  /** A pod that fits a snapshot of the node fits the node, and leaves it within its limits. */
  lemma FittingStaysWithin(pod: Pod, now: NodeInfo, then_: NodeInfo, ignored: set<string>)
    requires Within(now, ignored) && Below(now, then_) && FitsResources(pod, then_, ignored) && NonNegative(pod)
    ensures Within(AddPod(now, pod), ignored)
  {
    hide FitRequest, PodRequest, Amount, NonNegative, Charge;
    forall n: ResourceName | Limited(n, ignored)
      ensures Amount(AddPod(now, pod).requested, n) <= Amount(now.allocatable, n)
    {
      FitRequestCoversPodRequest(pod, n);
      PodRequestNonNegative(pod, n);
      if RequestsNothing(FitRequest(pod)) {
        NothingRequested(FitRequest(pod), n);
      } else if Checked(FitRequest(pod), ignored, n) {
        assert Amount(FitRequest(pod), n) + Amount(then_.requested, n) <= Amount(then_.allocatable, n);
      } else {
        assert n.Scalar? && n.name !in PodRequest(pod).scalars;
        NoEntryNoAmount(PodRequest(pod), n.name);
      }
    }
  }

  lemma NothingRequested(r: Resource, n: ResourceName)
    requires RequestsNothing(r) && !n.PodCount?
    ensures Amount(r, n) == 0
  {
  }

  /** The second pass of podFitsOnNode tests the node as it is. */
  lemma FitsOnNodeFitsAsIs(pod: Pod, ni: NodeInfo, nominated: seq<Pod>, ignored: set<string>)
    requires FitsOnNode(pod, ni, nominated, ignored)
    ensures FitsResources(pod, ni, ignored)
  {
  }

  /** Taking out a pod leaves the node with less. */
  lemma RemovalStaysBelow(ni: NodeInfo, then_: NodeInfo, pod: Pod, ignored: set<string>)
    requires Below(ni, then_) && HasPod(ni.pods, pod.uid) && NonNegative(pod)
    ensures Below(RemovePod(ni, pod), then_)
  {
    hide PodRequest, Amount, NonNegative, Discharge, FindPod;
    forall n: ResourceName
      ensures Amount(RemovePod(ni, pod).requested, n) <= Amount(then_.requested, n)
    {
      PodRequestNonNegative(pod, n);
    }
  }

  lemma RemovalStaysWithin(ni: NodeInfo, pod: Pod, ignored: set<string>)
    requires Within(ni, ignored) && HasPod(ni.pods, pod.uid) && NonNegative(pod)
    ensures Within(RemovePod(ni, pod), ignored)
  {
    hide PodRequest, Amount, NonNegative, Discharge, FindPod;
    forall n: ResourceName | Limited(n, ignored)
      ensures Amount(RemovePod(ni, pod).requested, n) <= Amount(ni.allocatable, n)
    {
      PodRequestNonNegative(pod, n);
    }
  }

  // ----- steps -----

  /** The pod events that interleave: finished bindings, confirmations of assumed pods on their
      node, forgotten bindings, removals and expiries, each about the stored pod. */
  ghost predicate Interleaves(c: Cache, ev: PodEvent) {
    && Delivered(c, ev)
    && match ev
       case AssumePod(_) => false
       case UpdatePodEvent(_, _) => false
       case AddPodEvent(pod) =>
         pod.uid in c.assumed && pod.uid in c.podStates && c.podStates[pod.uid].pod.nodeName == pod.nodeName
       case _ => true
  }

  ghost predicate Enabled(s: System, st: Step, ignored: set<string>) {
    match st
    case TakeSnapshot(p) => p in s.loops && p in s.cache.pools && s.loops[p].Idle?
    case Choose(p, pod, host, nominated) =>
      && p in s.loops && s.loops[p].Snapped? && host in s.loops[p].snapshot && host != "" && NonNegative(pod)
      && FitsOnNode(pod, s.loops[p].snapshot[host], nominated, ignored)
    case AssumeChosen(p) => p in s.loops && s.loops[p].Chosen?
    case GiveUp(p) => p in s.loops
    case Deliver(ev) => Interleaves(s.cache, ev)
  }

  ghost function Next(s: System, st: Step, ignored: set<string>, ttl: int): System
    requires Enabled(s, st, ignored) && Keyed(s.cache.pools)
  {
    match st
    case TakeSnapshot(p) => s.(loops := s.loops[p := Snapped(s.cache.pools[p].nodes)])
    case Choose(p, pod, host, _) => s.(loops := s.loops[p := Chosen(s.loops[p].snapshot, pod, host)])
    case AssumeChosen(p) =>
      System(Assume(s.cache, s.loops[p].pod.(nodeName := s.loops[p].host)).0, s.loops[p := Idle])
    case GiveUp(p) => s.(loops := s.loops[p := Idle])
    case Deliver(ev) => s.(cache := Apply(s.cache, ev, ttl).0)
  }

  /** The snapshot step on the pool object: as every entry has a Node, the incremental refresh leaves
      the loop exactly the copy of the pool that the step takes. */
  method SnapshotStep(info: PoolLists.PoolInfo, g: PoolLists.Generations, ghost s: System, p: string,
                      ghost ignored: set<string>, ghost ttl: int)
    requires info.Valid(g) && Keyed(s.cache.pools) && Enabled(s, TakeSnapshot(p), ignored)
    requires AllFine(s.cache.pools, ignored) && info.Abs() == s.cache.pools[p]
    modifies info`snapshot, info`snapshotGeneration, info.items`next
    ensures info.Valid(g) && info.Abs() == s.cache.pools[p]
    ensures info.snapshot == Next(s, TakeSnapshot(p), ignored, ttl).loops[p].snapshot
  {
    hide PoolLists.PoolInfo.Valid, Within, NonNegative, PoolLists.PoolInfo.Sound, PoolLists.PoolInfo.FullSync, Keyed;
    forall x | x in info.Entries() ensures info.Entries()[x].node.Some? {
      assert EntryFine(s.cache.pools[p].nodes[x], ignored);
    }
    ValidIsSound(info, g);
    ghost var visited := info.UpdateNodeInfoSnapshot(g);
  }

  lemma ValidIsSound(info: PoolLists.PoolInfo, g: PoolLists.Generations)
    requires info.Valid(g)
    ensures info.Sound()
  {
  }

  // ----- what every step keeps -----

  /** Every entry has a Node, is within its limits and lists pods with non-negative requests. */
  ghost predicate EntryFine(ni: NodeInfo, ignored: set<string>) {
    ni.node.Some? && Within(ni, ignored) && forall i :: 0 <= i < |ni.pods| ==> NonNegative(ni.pods[i])
  }

  ghost predicate AllFine(pools: Pools, ignored: set<string>) {
    forall n, x {:trigger pools[n].nodes[x]} :: n in pools && x in pools[n].nodes ==>
      EntryFine(pools[n].nodes[x], ignored)
  }

  /** A loop's snapshot covers its pool: the same nodes, each with at least what is there now. */
  ghost predicate Covers(snapshot: map<string, NodeInfo>, nodes: map<string, NodeInfo>) {
    snapshot.Keys == nodes.Keys && forall x :: x in nodes ==> Below(nodes[x], snapshot[x])
  }

  ghost predicate LoopOk(pools: Pools, p: string, loop: Loop, ignored: set<string>) {
    loop.Idle? || (p in pools && Covers(loop.snapshot, pools[p].nodes) && (loop.Chosen? ==>
      loop.host in loop.snapshot && loop.host != "" && NonNegative(loop.pod) &&
      FitsResources(loop.pod, loop.snapshot[loop.host], ignored)))
  }

  ghost predicate Fine(mt: Matcher, s: System, ignored: set<string>) {
    && Inv(mt, s.cache) && AllFine(s.cache.pools, ignored)
    && forall p :: p in s.loops ==> LoopOk(s.cache.pools, p, s.loops[p], ignored)
  }

  lemma CoversSelf(nodes: map<string, NodeInfo>)
    ensures Covers(nodes, nodes)
  {
  }

  /** One entry changed for the better: less on it. */
  lemma CoversLess(snapshot: map<string, NodeInfo>, nodes: map<string, NodeInfo>, x: string, ni: NodeInfo)
    requires Covers(snapshot, nodes) && x in nodes && Below(ni, snapshot[x])
    ensures Covers(snapshot, nodes[x := ni])
  {
    hide Below;
  }

  /** The pools after a pod was put in at an entry of pool `p`: only that entry changed. */
  lemma PodInPools(pools: Pools, p: string, pod: Pod)
    requires PoolsOk(pools) && p in pools && pod.nodeName in pools[p].nodes && pod.nodeName != ""
    ensures PodIn(pools, pod).Keys == pools.Keys
    ensures PodIn(pools, pod)[p].nodes == pools[p].nodes[pod.nodeName := AddPod(pools[p].nodes[pod.nodeName], pod)]
    ensures forall m :: m in pools && m != p ==> PodIn(pools, pod)[m] == pools[m]
  {
    hide AllAccounted, EntriesOk, PoolOf, AddPodTo;
    FlatAt(pools, p, pod.nodeName);
    AddPodParts(pools[p], pod);
  }

  /** The pools after a listed pod was taken out of an entry that has a Node. */
  lemma PodOutPools(pools: Pools, p: string, pod: Pod)
    requires PoolsOk(pools) && p in pools && pod.nodeName in pools[p].nodes && pod.nodeName != "" && pod.uid != ""
    requires pools[p].nodes[pod.nodeName].node.Some? && HasPod(pools[p].nodes[pod.nodeName].pods, pod.uid)
    ensures CanTakeOut(pools, pod) && PodOut(pools, pod).Keys == pools.Keys
    ensures PodOut(pools, pod)[p].nodes == pools[p].nodes[pod.nodeName := RemovePod(pools[p].nodes[pod.nodeName], pod)]
    ensures forall m :: m in pools && m != p ==> PodOut(pools, pod)[m] == pools[m]
  {
    hide AllAccounted, EntriesOk, PoolOf, RemovePodFrom, FindPod;
    FlatAt(pools, p, pod.nodeName);
    RemovePodParts(pools[p], pod);
  }

  /** Where a known pod is, and what is known of it there. */
  lemma KnownAt(mt: Matcher, c: Cache, pod: Pod, ignored: set<string>) returns (p: string)
    requires Inv(mt, c) && AllFine(c.pools, ignored) && pod.uid in c.podStates
    requires SameFigures(pod, c.podStates[pod.uid].pod)
    ensures p in c.pools && pod.nodeName in c.pools[p].nodes && pod.nodeName != "" && pod.uid != ""
    ensures EntryFine(c.pools[p].nodes[pod.nodeName], ignored) && HasPod(c.pools[p].nodes[pod.nodeName].pods, pod.uid)
    ensures NonNegative(pod)
  {
    hide PoolsOk, Placed, EntryFine, NonNegative, FindPod;
    var k := pod.uid;
    assert Found(Flat(c.pools), k, c.podStates[k].pod);
    var x := pod.nodeName;
    FlatFrom(c.pools, x);
    p := PoolOf(c.pools, x);
    var e := c.pools[p].nodes[x];
    var i := FindPod(e.pods, k);
    assert Listed(x, e.pods[i], c.podStates);
    EntryFinePod(e, i, pod, ignored);
  }

  lemma EntryFinePod(e: NodeInfo, i: nat, pod: Pod, ignored: set<string>)
    requires EntryFine(e, ignored) && i < |e.pods| && e.pods[i].containers == pod.containers
    ensures NonNegative(pod)
  {
    assert NonNegative(e.pods[i]);
  }

  lemma EntryFineIn(e: NodeInfo, pod: Pod, then_: NodeInfo, ignored: set<string>)
    requires EntryFine(e, ignored) && NonNegative(pod) && Below(e, then_) && FitsResources(pod, then_, ignored)
    ensures EntryFine(AddPod(e, pod), ignored)
  {
    hide Within, NonNegative, Below, FitsResources, Charge;
    FittingStaysWithin(pod, e, then_, ignored);
  }

  lemma EntryFineOut(e: NodeInfo, pod: Pod, ignored: set<string>)
    requires EntryFine(e, ignored) && NonNegative(pod) && HasPod(e.pods, pod.uid)
    ensures EntryFine(RemovePod(e, pod), ignored)
  {
    hide Within, NonNegative, FindPod, Discharge;
    RemovalStaysWithin(e, pod, ignored);
  }

  /** Taking a known pod out of the cache keeps everything fine. */
  lemma OutKeepsFine(mt: Matcher, s: System, pod: Pod, c: Cache, ignored: set<string>)
    requires Fine(mt, s, ignored) && pod.uid in s.cache.podStates && SameFigures(pod, s.cache.podStates[pod.uid].pod)
    requires Inv(mt, c) && Keyed(s.cache.pools) && CanTakeOut(s.cache.pools, pod)
    requires c.pools == PodOut(s.cache.pools, pod)
    ensures Fine(mt, s.(cache := c), ignored)
  {
    hide Inv, EntryFine, PodOut, CanTakeOut, FindPod, Below, SameFigures, FitsResources, NonNegative, Keyed;
    InvPools(mt, s.cache);
    var p := KnownAt(mt, s.cache, pod, ignored);
    var x, pools := pod.nodeName, s.cache.pools;
    var e := pools[p].nodes[x];
    EntryFineNode(e, ignored);
    PodOutPools(pools, p, pod);
    EntryFineOut(e, pod, ignored);
    forall q | q in s.loops
      ensures LoopOk(c.pools, q, s.loops[q], ignored)
    {
      if q == p && !s.loops[q].Idle? {
        RemovalStaysBelow(e, s.loops[q].snapshot[x], pod, ignored);
        CoversLess(s.loops[q].snapshot, pools[p].nodes, x, RemovePod(e, pod));
      }
    }
  }

  lemma InvPools(mt: Matcher, c: Cache)
    requires Inv(mt, c)
    ensures PoolsOk(c.pools) && Keyed(c.pools)
  {
  }

  lemma EntryFineNode(e: NodeInfo, ignored: set<string>)
    requires EntryFine(e, ignored)
    ensures e.node.Some?
  {
  }

  /** Assuming the chosen pod on its host keeps everything fine: the host has no more on it than
      the snapshot showed, as only this loop puts pods on its pool's nodes. */
  lemma AssumeKeepsFine(mt: Matcher, s: System, p: string, ignored: set<string>, ttl: int)
    requires Fine(mt, s, ignored) && Keyed(s.cache.pools) && p in s.loops && s.loops[p].Chosen?
    ensures Fine(mt, System(Assume(s.cache, s.loops[p].pod.(nodeName := s.loops[p].host)).0, s.loops[p := Idle]),
        ignored)
  {
    hide Inv, EntryFine, PodIn, Below, FitsResources, NonNegative, Keyed, PoolsOk;
    var loop := s.loops[p];
    var pod := loop.pod.(nodeName := loop.host);
    var pools := s.cache.pools;
    InvPools(mt, s.cache);
    EventKeepsInv(mt, s.cache, AssumePod(pod), ttl);
    if pod.uid != "" && pod.uid !in s.cache.podStates {
      var e := pools[p].nodes[loop.host];
      PodInPools(pools, p, pod);
      HostIrrelevant(loop.pod, loop.host, loop.snapshot[loop.host], ignored);
      EntryFineIn(e, pod, loop.snapshot[loop.host], ignored);
    }
  }

  lemma HostIrrelevant(pod: Pod, host: string, ni: NodeInfo, ignored: set<string>)
    ensures NonNegative(pod) ==> NonNegative(pod.(nodeName := host))
    ensures FitsResources(pod, ni, ignored) ==> FitsResources(pod.(nodeName := host), ni, ignored)
  {
  }

  lemma DeliverKeepsFine(mt: Matcher, s: System, ev: PodEvent, ignored: set<string>, ttl: int)
    requires Fine(mt, s, ignored) && Keyed(s.cache.pools) && Interleaves(s.cache, ev)
    ensures Fine(mt, s.(cache := Apply(s.cache, ev, ttl).0), ignored)
  {
    hide Inv, PodIn, PodOut, CanTakeOut, AllFine, LoopOk, Keyed;
    var c := s.cache;
    InvFacts(mt, c);
    EventKeepsInv(mt, c, ev, ttl);
    match ev
    case FinishBindingOf(_, _) =>
    case AddPodEvent(_) =>
    case ForgetPod(pod) =>
      if pod.uid in c.assumed && c.podStates[pod.uid].pod.nodeName == pod.nodeName {
        OutKeepsFine(mt, s, pod, Apply(c, ev, ttl).0, ignored);
      }
    case RemovePodEvent(pod) =>
      if pod.uid in c.podStates && pod.uid !in c.assumed && !Misdirected(c, ev) {
        OutKeepsFine(mt, s, c.podStates[pod.uid].pod, Apply(c, ev, ttl).0, ignored);
      }
    case ExpirePod(key, now) =>
      if Expired(c, key, now) {
        OutKeepsFine(mt, s, c.podStates[key].pod, Apply(c, ev, ttl).0, ignored);
      }
  }

  /** Every step keeps every node within its limits. */
  lemma StepKeepsFine(mt: Matcher, s: System, st: Step, ignored: set<string>, ttl: int)
    requires Fine(mt, s, ignored) && Keyed(s.cache.pools) && Enabled(s, st, ignored)
    ensures Fine(mt, Next(s, st, ignored, ttl), ignored) && Keyed(Next(s, st, ignored, ttl).cache.pools)
  {
    hide Inv, Covers, EntryFine, NonNegative, FitsResources, FitsOnNode, Interleaves, Apply, Assume, Keyed;
    match st {
      case TakeSnapshot(p) => CoversSelf(s.cache.pools[p].nodes);
      case Choose(p, pod, host, nominated) => FitsOnNodeFitsAsIs(pod, s.loops[p].snapshot[host], nominated, ignored);
      case AssumeChosen(p) => AssumeKeepsFine(mt, s, p, ignored, ttl);
      case GiveUp(p) =>
      case Deliver(ev) => DeliverKeepsFine(mt, s, ev, ignored, ttl);
    }
    InvPools(mt, Next(s, st, ignored, ttl).cache);
  }

  /** A run: any interleaving of enabled steps of all loops and of delivered events. */
  ghost predicate IsRun(states: seq<System>, steps: seq<Step>, ignored: set<string>, ttl: int) {
    && |states| == |steps| + 1
    && forall i :: 0 <= i < |steps| ==>
        && Keyed(states[i].cache.pools) && Enabled(states[i], steps[i], ignored)
        && states[i + 1] == Next(states[i], steps[i], ignored, ttl)
  }

  /** No overcommit: in every interleaving, from a sound start with every loop idle, no node's
      requested resources or pod count ever exceed its allocatable. */
  lemma {:induction false} NeverOvercommitted(mt: Matcher, states: seq<System>, steps: seq<Step>, ignored: set<string>,
                                              ttl: int, k: nat)
    requires IsRun(states, steps, ignored, ttl) && k < |states|
    requires Inv(mt, states[0].cache) && AllFine(states[0].cache.pools, ignored)
    requires forall p :: p in states[0].loops ==> states[0].loops[p].Idle?
    ensures Fine(mt, states[k], ignored)
    ensures forall n, x :: n in states[k].cache.pools && x in states[k].cache.pools[n].nodes ==>
        Within(states[k].cache.pools[n].nodes[x], ignored)
  {
    hide Inv, Enabled, Next, Within, NonNegative, LoopOk, Keyed;
    if k > 0 {
      NeverOvercommitted(mt, states, steps, ignored, ttl, k - 1);
      StepKeepsFine(mt, states[k - 1], steps[k - 1], ignored, ttl);
      assert states[k - 1 + 1] == Next(states[k - 1], steps[k - 1], ignored, ttl);
    } else {
      IdleFine(mt, states[0], ignored);
    }
    WithinFromFine(mt, states[k], ignored);
  }

  lemma IdleFine(mt: Matcher, s: System, ignored: set<string>)
    requires Inv(mt, s.cache) && AllFine(s.cache.pools, ignored) && forall p :: p in s.loops ==> s.loops[p].Idle?
    ensures Fine(mt, s, ignored)
  {
    hide Inv, AllFine;
  }

  lemma WithinFromFine(mt: Matcher, s: System, ignored: set<string>)
    requires Fine(mt, s, ignored)
    ensures forall n, x :: n in s.cache.pools && x in s.cache.pools[n].nodes ==>
      Within(s.cache.pools[n].nodes[x], ignored)
  {
    hide Inv, Within, LoopOk;
    assert forall n, x :: n in s.cache.pools && x in s.cache.pools[n].nodes ==>
      EntryFine(s.cache.pools[n].nodes[x], ignored);
  }

  // ----- what the steps are for -----

  /** A pod that fits on a node of an idle loop's pool gets there in three steps: the loop snapshots, chooses
      the node and assumes the pod on it. */
  lemma FittingPodIsAssumed(mt: Matcher, s: System, p: string, pod: Pod, host: string, nominated: seq<Pod>,
                            ignored: set<string>, ttl: int)
    requires Fine(mt, s, ignored) && p in s.loops && s.loops[p].Idle? && p in s.cache.pools
    requires host in s.cache.pools[p].nodes && host != "" && NonNegative(pod)
    requires pod.uid != "" && pod.uid !in s.cache.podStates
    requires FitsOnNode(pod, s.cache.pools[p].nodes[host], nominated, ignored)
    ensures Keyed(s.cache.pools) && Enabled(s, TakeSnapshot(p), ignored)
    ensures var snapped := Next(s, TakeSnapshot(p), ignored, ttl);
      && Keyed(snapped.cache.pools) && Enabled(snapped, Choose(p, pod, host, nominated), ignored)
      && var chosen := Next(snapped, Choose(p, pod, host, nominated), ignored, ttl);
        && Keyed(chosen.cache.pools) && Enabled(chosen, AssumeChosen(p), ignored)
        && var after, there := Next(chosen, AssumeChosen(p), ignored, ttl), pod.(nodeName := host);
          && RecordOf(after.cache, pod.uid) == Known(there, true, None, false)
          && On(after.cache.pools, p, host, there) && after.loops == s.loops
  {
    hide Assume, FitsOnNode, NonNegative, LoopOk, AllFine, Inv, RecordOf, On, Keyed;
    InvIsWellPlaced(mt, s.cache);
    LaidKeyed(s.cache.pools);
    AssumedThere(mt, s.cache, p, pod.(nodeName := host));
    var snapped := Next(s, TakeSnapshot(p), ignored, ttl);
    var chosen := Next(snapped, Choose(p, pod, host, nominated), ignored, ttl);
    assert chosen.cache == s.cache && chosen.loops[p] == Chosen(s.cache.pools[p].nodes, pod, host);
    assert chosen.loops[p := Idle] == s.loops;
  }

  lemma AssumedThere(mt: Matcher, c: Cache, p: string, pod: Pod)
    requires Inv(mt, c) && p in c.pools && pod.nodeName in c.pools[p].nodes && pod.nodeName != ""
    requires pod.uid != "" && pod.uid !in c.podStates
    ensures Keyed(c.pools)
    ensures var d := Assume(c, pod).0;
      RecordOf(d, pod.uid) == Known(pod, true, None, false) && On(d.pools, p, pod.nodeName, pod)
  {
    hide PodIn, PoolsOk, Placed, PodsKnown, Keyed, Laid, Charge;
    InvIsWellPlaced(mt, c);
    LaidKeyed(c.pools);
    PodInPools(c.pools, p, pod);
    var pods := c.pools[p].nodes[pod.nodeName].pods;
    assert pod == (pods + [pod])[|pods|];
  }

  /** A step changes its own loop only, and only an assumption or a pod event changes the cache. */
  lemma StepsAreLocal(s: System, st: Step, ignored: set<string>, ttl: int)
    requires Enabled(s, st, ignored) && Keyed(s.cache.pools)
    ensures var t := Next(s, st, ignored, ttl);
      && t.loops.Keys == s.loops.Keys
      && (forall q :: q in s.loops && (st.Deliver? || q != st.pool) ==> t.loops[q] == s.loops[q])
      && (st.TakeSnapshot? || st.Choose? || st.GiveUp? ==> t.cache == s.cache)
      && (st.Deliver? ==> t.cache == Apply(s.cache, st.event, ttl).0)
  {
    hide Apply, Assume;
  }
}
