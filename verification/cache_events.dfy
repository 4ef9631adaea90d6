/** Runs of the scheduler cache: pod, node and pool events in any order
    (pkg/scheduler/internal/cache/cache.go). */
module CacheEvents {
  import opened Api
  import opened NodeInfos
  import opened PoolStates
  import opened PoolMaps
  import opened CachePods
  import opened CacheNodes
  import opened CachePlacement
  import opened CachePools

  datatype CacheEvent =
    | OfPod(ev: PodEvent)
    | PoolCame(pool: Pool)
    | PoolChanged(oldPool: Pool, newPool: Pool)
    | PoolLeft(name: string)
    | NodeCame(node: Node)
    | NodeChanged(oldNode: Node, newNode: Node)
    | NodeLeft(node: Node)

  /** The cache's operation for the event leads from `c` to `d`; entries move in any order. */
  ghost predicate Leads(mt: Matcher, ttl: int, c: Cache, ev: CacheEvent, d: Cache) {
    Keyed(c.pools) &&
    match ev
    case OfPod(e) => d == Apply(c, e, ttl).0
    case PoolCame(pool) =>
      SamePods(c, d) && if pool.name == DefaultPoolName then d == c else PoolAdded(mt, c.pools, pool, d.pools)
    case PoolChanged(oldPool, newPool) => SamePods(c, d) && PoolUpdated(mt, c.pools, oldPool, newPool, d.pools)
    case PoolLeft(name) =>
      SamePods(c, d) && if Leaves(c.pools, name) then PoolRemoved(mt, c.pools, name, d.pools) else d == c
    case NodeCame(node) => d == c.(pools := NodeAdded(mt, c.pools, node))
    case NodeChanged(oldNode, newNode) => d == c.(pools := NodeUpdated(mt, c.pools, oldNode, newNode).0)
    case NodeLeft(node) => d == c.(pools := NodeRemoved(mt, c.pools, node).0)
  }

  ghost predicate SamePods(c: Cache, d: Cache) { d == c.(pools := d.pools) }

  predicate Leaves(pools: Pools, name: string) { name != DefaultPoolName && name in pools }

  /** What the API promises of an event: a pod comes with a node, a pool has a name, and an update is
      one of a single node. */
  predicate WellFormed(ev: CacheEvent) {
    match ev
    case OfPod(e) => WithNode(e)
    case PoolChanged(_, newPool) => newPool.name != DefaultPoolName
    case NodeChanged(oldNode, newNode) => oldNode.name == newNode.name
    case _ => true
  }

  /** What the placement asks of an event: a new node's name is in no other pool, an update finds its
      place, and a pool that is there already is only changed in ways that move all the nodes
      concerned. */
  ghost predicate KeepsPlaces(mt: Matcher, c: Cache, ev: CacheEvent) {
    match ev
    case PoolCame(pool) =>
      Leaves(c.pools, pool.name) ==> NothingElseToMove(mt, c.pools, WithPool(c.pools, pool), pool.name)
    case PoolChanged(oldPool, newPool) =>
      newPool.name in c.pools && oldPool.spec.nodeSelector == newPool.spec.nodeSelector ==>
        SameReach(mt, c.pools, WithPool(c.pools, newPool), newPool.name)
    case NodeCame(node) => HomeIsFree(mt, c.pools, node)
    case NodeChanged(oldNode, newNode) => Keyed(c.pools) && FindsPlace(mt, c.pools, oldNode, newNode)
    case _ => true
  }

  /** An event keeps the placement exactly then, whatever state sums, trees and known pods are in. */
  lemma EventKeepsPlaces(mt: Matcher, ttl: int, c: Cache, ev: CacheEvent, d: Cache)
    requires WellPlaced(mt, c) && WellFormed(ev) && Leads(mt, ttl, c, ev, d)
    ensures WellPlaced(mt, d) <==> KeepsPlaces(mt, c, ev)
  {
    hide Laid, Placed, Flat, Apply, NodeAdded, NodeRemoved, NodeUpdated, PoolAdded, PoolUpdated, PoolRemoved, Addressed,
      NothingElseToMove, SameReach, HomeIsFree, FindsPlace, WithPool, WithNode;
    match ev
    case OfPod(e) => EventKeepsPlacement(mt, c, e, ttl);
    case PoolCame(pool) =>
      if pool.name != DefaultPoolName {
        AddPoolKeeps(mt, c.pools, pool, d.pools);
      }
    case PoolChanged(oldPool, newPool) => UpdatePoolKeeps(mt, c.pools, oldPool, newPool, d.pools);
    case PoolLeft(name) =>
      if Leaves(c.pools, name) {
        RemovePoolKeeps(mt, c.pools, name, d.pools);
      }
    case NodeCame(node) =>
      AddNodeKeepsNamesUnique(mt, c.pools, node);
      LaidUnique(d.pools);
      if HomeIsFree(mt, c.pools, node) {
        AddNodeKeepsPlacement(mt, c.pools, node);
      }
    case NodeChanged(oldNode, newNode) => UpdateNodeKeepsPlacement(mt, c.pools, oldNode, newNode);
    case NodeLeft(node) => RemoveNodeKeepsPlacement(mt, c.pools, node);
  }

  /** What the whole invariant asks besides: a pod event about a known pod carries its figures, a node
      event counts as the entry does, and a pool that leaves has no entry without a Node. */
  ghost predicate KeepsAll(mt: Matcher, c: Cache, ev: CacheEvent) {
    Keyed(c.pools) &&
    match ev
    case OfPod(e) => Delivered(c, e)
    case PoolCame(_) => true
    case PoolChanged(_, _) => true
    case PoolLeft(name) => Leaves(c.pools, name) ==> Nodeless(c.pools, name) == {}
    case NodeCame(node) => NothingCounted(EntryIn(Flat(c.pools), node.name), node.zone)
    case NodeChanged(oldNode, newNode) =>
      NodeUpdated(mt, c.pools, oldNode, newNode).1 == Failed(NilPointer) || UpdateCounts(mt, c.pools, oldNode, newNode)
    case NodeLeft(node) => RemovalCounts(mt, c.pools, node)
  }

  /** Then every event keeps the whole invariant, and a node or pool event only then. */
  lemma EventKeepsAll(mt: Matcher, ttl: int, c: Cache, ev: CacheEvent, d: Cache)
    requires Inv(mt, c) && WellFormed(ev) && Leads(mt, ttl, c, ev, d)
    ensures KeepsPlaces(mt, c, ev) && KeepsAll(mt, c, ev) ==> Inv(mt, d)
    ensures Inv(mt, d) && !ev.OfPod? ==> KeepsPlaces(mt, c, ev) && KeepsAll(mt, c, ev)
  {
    hide Inv, Leads, KeepsPlaces, KeepsAll, WellFormed;
    InvIsWellPlaced(mt, c);
    EventKeepsPlaces(mt, ttl, c, ev, d);
    if Inv(mt, d) {
      InvIsWellPlaced(mt, d);
    }
    match ev
    case OfPod(e) => PodEventKeepsAll(mt, ttl, c, e, d);
    case PoolCame(_) => PoolEventKeepsAll(mt, ttl, c, ev, d);
    case PoolChanged(_, _) => PoolEventKeepsAll(mt, ttl, c, ev, d);
    case PoolLeft(_) => PoolEventKeepsAll(mt, ttl, c, ev, d);
    case _ => NodeEventKeepsAll(mt, ttl, c, ev, d);
  }

  lemma PodEventKeepsAll(mt: Matcher, ttl: int, c: Cache, e: PodEvent, d: Cache)
    requires Inv(mt, c) && Leads(mt, ttl, c, OfPod(e), d)
    ensures KeepsAll(mt, c, OfPod(e)) ==> Inv(mt, d)
  {
    hide Inv, Apply, Delivered;
    if Delivered(c, e) {
      EventKeepsInv(mt, c, e, ttl);
    }
  }

  lemma PoolEventKeepsAll(mt: Matcher, ttl: int, c: Cache, ev: CacheEvent, d: Cache)
    requires Inv(mt, c) && WellFormed(ev) && Leads(mt, ttl, c, ev, d) && (WellPlaced(mt, d) <==> KeepsPlaces(mt, c, ev))
    requires ev.PoolCame? || ev.PoolChanged? || ev.PoolLeft?
    ensures Inv(mt, d) <==> KeepsPlaces(mt, c, ev) && KeepsAll(mt, c, ev)
  {
    hide Laid, Placed, Flat, PoolAdded, PoolUpdated, PoolRemoved, PodsKnown, KeepsPlaces, Addressed, WithPool,
      NothingElseToMove, SameReach;
    InvIsWellPlaced(mt, c);
    if Inv(mt, d) {
      InvIsWellPlaced(mt, d);
    }
    match ev
    case PoolCame(pool) =>
      if pool.name != DefaultPoolName {
        AddPoolKeeps(mt, c.pools, pool, d.pools);
      }
    case PoolChanged(oldPool, newPool) => UpdatePoolKeeps(mt, c.pools, oldPool, newPool, d.pools);
    case PoolLeft(name) =>
      if Leaves(c.pools, name) {
        RemovePoolKeeps(mt, c.pools, name, d.pools);
        NodelessListPods(c.pools, name);
        DroppedPods(Flat(c.pools), Nodeless(c.pools, name), c.podStates);
      }
  }

  lemma NodeEventKeepsAll(mt: Matcher, ttl: int, c: Cache, ev: CacheEvent, d: Cache)
    requires Inv(mt, c) && WellFormed(ev) && Leads(mt, ttl, c, ev, d) && (WellPlaced(mt, d) <==> KeepsPlaces(mt, c, ev))
    requires ev.NodeCame? || ev.NodeChanged? || ev.NodeLeft?
    ensures Inv(mt, d) <==> KeepsPlaces(mt, c, ev) && KeepsAll(mt, c, ev)
  {
    hide Inv, NodeAdded, NodeRemoved, NodeUpdated, HomeIsFree, NothingCounted, FindsPlace, UpdateCounts, RemovalCounts,
      WellPlaced, Flat;
    if Inv(mt, d) {
      InvIsWellPlaced(mt, d);
    }
    match ev
    case NodeCame(node) => AddNodeKeepsInv(mt, c, node);
    case NodeChanged(oldNode, newNode) =>
      UpdateNodeKeepsInv(mt, c, oldNode, newNode);
      var panics := NodeUpdated(mt, c.pools, oldNode, newNode).1 == Failed(NilPointer);
      if panics && FindsPlace(mt, c.pools, oldNode, newNode) {
        PanicChangesNothing(mt, c.pools, oldNode, newNode);
      }
    case NodeLeft(node) => RemoveNodeKeepsInv(mt, c, node);
  }

  // ----- runs -----

  /** A run: each event leads from one state to the next. */
  ghost predicate IsRun(mt: Matcher, ttl: int, states: seq<Cache>, evs: seq<CacheEvent>) {
    |states| == |evs| + 1 && forall i :: 0 <= i < |evs| ==> Leads(mt, ttl, states[i], evs[i], states[i + 1])
  }

  /** Placement over whole runs: at every point of every run of pod, node and pool events that keep
      places, every Node is in the one non-default pool that matches it if exactly one does, and in
      the default pool otherwise. Dropped entries, wrong sums and lost pods on the way do not matter. */
  lemma {:induction false} RunStaysPlaced(mt: Matcher, ttl: int, states: seq<Cache>, evs: seq<CacheEvent>, k: nat)
    requires IsRun(mt, ttl, states, evs) && k <= |evs| && WellPlaced(mt, states[0])
    requires forall i :: 0 <= i < k ==> WellFormed(evs[i]) && KeepsPlaces(mt, states[i], evs[i])
    ensures WellPlaced(mt, states[k]) && forall n, x :: RightlyAt(mt, states[k].pools, n, x)
  {
    hide KeepsPlaces, Leads, Laid, Placed, RightlyAt, Addressed;
    if k > 0 {
      RunStaysPlaced(mt, ttl, states, evs, k - 1);
      EventKeepsPlaces(mt, ttl, states[k - 1], evs[k - 1], states[k]);
    }
    PlacedBySelectors(mt, states[k].pools);
  }

  /** The whole invariant over whole runs: in particular every known pod is on exactly one entry of
      exactly one pool, all sums and trees are right, and expiry never meets an unknown key or a
      missing deadline. */
  lemma {:induction false} RunKeepsInv(mt: Matcher, ttl: int, states: seq<Cache>, evs: seq<CacheEvent>, k: nat)
    requires IsRun(mt, ttl, states, evs) && k <= |evs| && Inv(mt, states[0])
    requires forall i :: 0 <= i < k ==>
      WellFormed(evs[i]) && KeepsPlaces(mt, states[i], evs[i]) && KeepsAll(mt, states[i], evs[i])
    ensures Inv(mt, states[k])
  {
    hide Inv, KeepsPlaces, KeepsAll, Leads;
    if k > 0 {
      RunKeepsInv(mt, ttl, states, evs, k - 1);
      EventKeepsAll(mt, ttl, states[k - 1], evs[k - 1], states[k]);
    }
  }

  // ----- expiry -----

  /** The event says that the pod's binding is finished. */
  predicate Finishes(ev: CacheEvent, k: string) {
    ev.OfPod? && ev.ev.FinishBindingOf? && ev.ev.pod.uid == k
  }

  /** Only assumed pods have deadlines. */
  predicate Timed(c: Cache) {
    "" !in c.podStates && forall k :: k in c.podStates && c.podStates[k].deadline.Some? ==> k in c.assumed
  }

  /** No pod has a deadline yet. */
  predicate Undated(c: Cache) {
    "" !in c.podStates && forall k :: k in c.podStates ==> c.podStates[k].deadline.None?
  }

  lemma DeadlineStep(c: Cache, ev: PodEvent, ttl: int, k: string)
    requires Keyed(c.pools) && Timed(c)
    ensures var d := Apply(c, ev, ttl).0;
      && Timed(d)
      && (k in d.podStates && d.podStates[k].deadline.Some? ==>
            if Finishes(OfPod(ev), k) then d.podStates[k].deadline == Some(ev.now + ttl)
            else k in c.podStates && c.podStates[k].deadline == d.podStates[k].deadline)
  {
    hide PodIn, PodOut, CanTakeOut, Keyed, Relocated;
  }

  /** A deadline comes from the last time the pod's binding was said to be finished. */
  lemma {:induction false} DeadlineFromBinding(mt: Matcher, ttl: int, states: seq<Cache>, evs: seq<CacheEvent>, i: nat,
                                               k: string) returns (j: nat)
    requires IsRun(mt, ttl, states, evs) && i <= |evs| && Undated(states[0])
    ensures Timed(states[i])
    ensures k in states[i].podStates && states[i].podStates[k].deadline.Some? ==>
      && j < i && Finishes(evs[j], k) && states[i].podStates[k].deadline == Some(evs[j].ev.now + ttl)
      && forall l :: j < l < i ==> !Finishes(evs[l], k)
  {
    hide Leads, Apply;
    j := 0;
    if i > 0 {
      j := DeadlineFromBinding(mt, ttl, states, evs, i - 1, k);
      LeadsPods(mt, ttl, states[i - 1], evs[i - 1], states[i]);
      if evs[i - 1].OfPod? {
        DeadlineStep(states[i - 1], evs[i - 1].ev, ttl, k);
      }
      if Finishes(evs[i - 1], k) {
        j := i - 1;
      }
    }
  }

  lemma LeadsPods(mt: Matcher, ttl: int, c: Cache, ev: CacheEvent, d: Cache)
    requires Leads(mt, ttl, c, ev, d)
    ensures Keyed(c.pools)
    ensures if ev.OfPod? then d == Apply(c, ev.ev, ttl).0 else d.podStates == c.podStates && d.assumed == c.assumed
  {
    hide Apply, PoolAdded, PoolUpdated, PoolRemoved, NodeAdded, NodeRemoved, NodeUpdated, Keyed;
  }

  /** No pod expires before the time to live has passed since its binding was last said to be finished. */
  lemma NoEarlyExpiry(mt: Matcher, ttl: int, states: seq<Cache>, evs: seq<CacheEvent>, i: nat, k: string, now: int)
    returns (j: nat)
    requires IsRun(mt, ttl, states, evs) && i < |evs| && evs[i] == OfPod(ExpirePod(k, now)) && Undated(states[0])
    requires k in states[i].podStates && k !in states[i + 1].podStates
    ensures j < i && Finishes(evs[j], k) && now - evs[j].ev.now > ttl && forall l :: j < l < i ==> !Finishes(evs[l], k)
  {
    hide Leads, Expire;
    j := DeadlineFromBinding(mt, ttl, states, evs, i, k);
    LeadsPods(mt, ttl, states[i], evs[i], states[i + 1]);
  }
}
