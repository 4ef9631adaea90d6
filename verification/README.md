# A verified model of the multi-pool scheduler's core

The scheduler partitions the cluster's nodes into pools. Every pool has its own scheduling loop, its own
queue, its own node tree and its own incrementally kept snapshot, all over one shared cache. This project
models that core in Dafny and proves what its parts promise, for all inputs, all reachable states and all
interleavings.

How the files follow the program:

| files | component |
|---|---|
| `sequences.dfy`, `integers.dfy`, `api.dfy`, `resources.dfy`, `node_info.dfy`, `map_sums.dfy` | shared notions, API objects, resource vectors, node aggregates, the resource predicate |
| `pool_state.dfy`, `list_items.dfy`, `list_walk.dfy`, `pool_list.dfy`, `snapshot_witness.dfy` | one pool: running sums, its node tree, the linked list in generation order, the snapshot walk with cycle repair |
| `pool_maps.dfy`, `cache_pods.dfy`, `pod_effects.dfy`, `cache_nodes.dfy`, `cache_placement.dfy`, `cache_pools.dfy`, `cache.dfy`, `cache_events.dfy`, `cache_witnesses.dfy` | the cache: pod state machine, node events, pool events and the moves of entries between pools, runs of all of them, and runs that fail |
| `scheduling_loops.dfy` | the per-pool loops and the pod events as one concurrent protocol |
| `slot_search.dfy`, `node_search.dfy` | the lock-free search for fitting nodes, and over a node tree |
| `node_tree.dfy` | the zone-by-zone round-robin iterator |
| `pod_order.dfy`, `victim_choice.dfy`, `victim_selection.dfy`, `victim_order.dfy`, `node_choice.dfy` | preemption: candidates, victims, and the choice of the node |
| `heap_order.dfy`, `keyed_heap.dfy`, `pool_queue.dfy`, `backoff.dfy` | the keyed heap, the pool-aware queue order, pod back-off |
| `topology_pairs.dfy`, `affinity_metadata.dfy` | the inter-pod affinity index, incremental and from scratch |
| `wire.dfy` | marshalling and unmarshalling of a pool's spec |

Objects whose fields the program updates are classes (`NodeTree`, `PoolInfo`, `SchedulerCache`, `Heap`,
`PodBackoff`, `TopologyPairsMaps`, `PredicateMetadata`, `PodSlice`). Their methods are proved against functions
on values, and what the program promises is proved of those functions. Locks, the clock, map iteration order and
the interleaving of goroutines appear as parameters, arbitrary choices or schedules.

## Where the code does less than one expects

The model follows the code. Each case below names the exact condition and, after it, an input or a run that fails.

- A node added to the tree in the middle of a round is visited in that round unless an earlier removal left the
  zone's position past its end; a comment at pkg/scheduler/info/node_tree.go:174-175 says otherwise
  (`AddedNodeVisitedThisRound`, `NewZoneVisitedThisRound`; `LateNode`). A removal of a visited node makes the round
  skip the next one (`RemovalMaySkipANode`, `RemovedZoneShiftsTurns`; `SkippedNode`).
- `AddNode` duplicates a node's name when a pod-only entry of that name sits in another pool
  (`AddNodeKeepsNamesUnique`; `NameHeldTwice`).
- `AddNode`, `RemoveNode` and `UpdateNode` of a pool keep the sums exactly when the figures they subtract are the
  stored ones (`AddNodeAccounted`, `RemoveNodeAccounted`, `UpdateNodeAccounted`; `AddedTwice`,
  `RemovedWithOtherFigures`).
- A node that changes its pool is accounted in the new one with its old figures and put into the new tree under its
  old zone: all is well exactly when the update leaves capacity, allocatable and zone as they were
  (`UpdateAcrossKeepsInv`; `MovedWithAnotherFootprint`). Once a tree has a node under another zone, the next move
  takes nothing off the sums of the pool it leaves (`HandOutAccounted`, `MoveEntryTotals`; `CountedTwice`), the
  next update into another pool loses the entry with its pods (`UpdateNodeKeepsPlacement`; `EntryLost`), and an update
  after that ends the program on a nil pointer (`UpdateNodePanicsIff`; `UpdatePanics`).
- `AddPool` on a known name moves nodes towards the pool only: they are all in their place exactly when there is
  nothing else to move (`TowardsPPlacesIff`; `KnownPoolAddedAgain`).
- `UpdatePool` compares the two objects it is given. When their selectors are equal nothing moves, and all is in place
  exactly when the stored selector had the same reach (`StaleSelectorPlaces`; `PoolUpdatedFromStale`).
- `RemovePool` drops entries that have no Node, and with them known pods (`RemovePool`; `PodLostWithPool`).
- A pool move does not renew an entry's generation, so the next snapshot may miss it, or go on showing an older copy
  (`MovedEntryInSnapshot`, `AddNodeInfo`; `EntryMissed`).
- The back-off doubles as documented exactly when default ≤ maximum and twice the maximum does not overflow, or
  the default is zero (`DoublesIff`; `FirstWrong`).
- What the affinity metadata's `AddPod` records for incoming anti-affinity is that of a rebuild exactly when the pod
  matches none of the terms or, for each term whose key the node has, one with that key (`AddedAntiAffinityExactIff`; `ExceedingAdd`).
- The victims are listed violating ones first, so the first victim need not have the highest priority although
  pkg/scheduler/core/generic_scheduler.go:806-807 assumes it. It has exactly when neither the first non-violating
  victim nor a victim whose pool has no queue comes before it (`FirstIsGreatestIff`; `LowVictimFirst`).
- A node event keeps sums and trees exactly when it counts as the entry does (`RemoveNodeKeepsInv`,
  `UpdateNodeKeepsInv`; `RemovedWithOtherFigures`).
- A length just below 2^63 makes unmarshalling slice at a negative index (`KnownFieldPanicsIff`,
  `UnknownFieldPanicsIff`, `PanicNeedsHugeLength`; `HugeLengthPanics`).

## Model

| member | source | states |
|---|---|---|
| `NodeTrees.NodeTree.AddNode` | pkg/scheduler/info/node_tree.go:79-95 | the whole new tree: a known name changes nothing, a new name goes to the end of its zone, a new zone to the end of the zones; the node count follows |
| `NodeTrees.NodeTree.RemoveZone` | pkg/scheduler/info/node_tree.go:125-132 | although the loop ranges over the slice it shortens, exactly the zone is cut out and the order of the others kept |
| `NodeTrees.NodeTree.RemoveNode` | pkg/scheduler/info/node_tree.go:104-121 | refused exactly for an unknown node; otherwise the node is cut out of its zone, and the zone out of the tree when it was the last |
| `NodeTrees.NodeTree.UpdateNode` | pkg/scheduler/info/node_tree.go:135-150 | a node that changed its zone is taken off the tree, if it is there, and added anew: the whole new tree |
| `NodeTrees.NodeTree.SpotsAreTheNodes` | pkg/scheduler/info/node_tree.go:31-37 | the zones and names the tree holds are the nodes the iterator runs through |
| `NodeTrees.NodeTree.ResetExhausted` | pkg/scheduler/info/node_tree.go:152-157 | every zone back to its start and the first zone's turn |
| `NodeTrees.NodeTree.Next` | pkg/scheduler/info/node_tree.go:161-186 | terminates, yields the empty name exactly on an empty tree, and otherwise refines the pure iterator `NextOf` |
| `NodeTrees.NextTakesOnePending` | pkg/scheduler/info/node_tree.go:161-186 | a call resets exactly when no node is pending, returns one pending node and leaves all the others pending |
| `NodeTrees.CallsDrain` | pkg/scheduler/info/node_tree.go:161-186 | while nodes are pending every call returns one of them and none resets |
| `NodeTrees.PositionInRound` | pkg/scheduler/info/node_tree.go:161-186 | every iterator reached from a fresh one is reached within one round |
| `NodeTrees.AnyWindowIsFair` | pkg/scheduler/info/node_tree.go:161-186 | after any number of calls on an unchanged tree, NumNodes consecutive calls return every node exactly once, for any zones of any sizes |
| `NodeTrees.ZonesStayBalanced` | pkg/scheduler/info/node_tree.go:161-186 | zones are visited in turn: those before the index are one visit ahead, except for zones that ran out |
| `NodeTrees.AddedNodeVisitedThisRound` | pkg/scheduler/info/node_tree.go:79-95 | a node added to a zone in a round is visited in it if and only if the zone's position has not run past its end |
| `NodeTrees.NewZoneVisitedThisRound` | pkg/scheduler/info/node_tree.go:79-95 | a node that opens a zone is visited in the current round |
| `NodeTrees.LateNode` | pkg/scheduler/info/node_tree.go:79-95 | a run after which an added node is not visited in the round |
| `NodeTrees.RemovalMaySkipANode` | pkg/scheduler/info/node_tree.go:104-121 | which single node a removal takes out of the current round |
| `NodeTrees.RemovedZoneShiftsTurns` | pkg/scheduler/info/node_tree.go:125-132 | a removed zone takes only its own nodes out of the round; of the zones behind it the one whose turn it was loses it |
| `NodeTrees.SkippedNode` | pkg/scheduler/info/node_tree.go:104-121 | a run after which the round skips a node that was neither visited nor removed |
| `Resources.AddList` | pkg/scheduler/info/node_info.go:158-179 | every component grows by the listed quantity and scalar names are joined |
| `Resources.SetMax` | pkg/scheduler/info/node_info.go:252-280 | every listed component but the pod count becomes the maximum, the others stay; a scalar gets an entry only when it is raised |
| `Resources.GetResourceRequest` | pkg/scheduler/algorithm/predicates/predicates.go:748-760 | each component is the greatest of what the containers list together and what each init container asks for |
| `Resources.MaxWithIsGreatest` | pkg/scheduler/algorithm/predicates/predicates.go:748-760 | raising by each init container in turn gives the maximum |
| `Resources.PodRequestIsListed` | pkg/scheduler/info/node_info.go:519-541 | a node is charged what the containers list together, and nothing for init containers |
| `Resources.FitRequestCoversPodRequest` | pkg/scheduler/algorithm/predicates/predicates.go:748-760 | what is admitted is at least what the node is then charged, in every component |
| `NodeInfos.AddPodConsistent` | pkg/scheduler/info/node_info.go:519-541 | the requested figures stay the sum over the listed pods |
| `NodeInfos.RemovePodConsistent` | pkg/scheduler/info/node_info.go:544-600 | the same for removal by swapping in the last pod |
| `NodeInfos.AddThenRemoveRestores` | pkg/scheduler/info/node_info.go:519-600 | adding a pod and removing it restores every amount and the pods in order |
| `NodeInfos.PodFitsResources` | pkg/scheduler/algorithm/predicates/predicates.go:769-834 | the collected reasons are empty if and only if there is room for one more pod and, unless nothing is asked for, for CPU, memory, ephemeral storage and every scalar asked for that is not ignored; an error exactly without a Node |
| `PoolStates.AddPodAccounted` | pkg/scheduler/info/pool_info.go:103-116 | capacity, allocatable, used and shared stay the sums over nodes, pods and foreign pods |
| `PoolStates.AddPodSums` | pkg/scheduler/info/pool_info.go:103-116 | a pod adds what its containers list and one pod to what is used, and to what is shared exactly if it is annotated with another pool |
| `PoolStates.RemovePodAccounted` | pkg/scheduler/info/pool_info.go:118-136 | the same for removal of a pod with the stored figures |
| `PoolStates.AddNodeAccounted` | pkg/scheduler/info/pool_info.go:152-164 | the sums survive if and only if the entry counted for nothing before |
| `PoolStates.RemoveNodeAccounted` | pkg/scheduler/info/pool_info.go:166-188 | the sums survive if and only if the argument counts like the stored Node |
| `PoolStates.UpdateNodeAccounted` | pkg/scheduler/info/pool_info.go:190-209 | the sums survive if and only if the old Node given counts like the stored one |
| `PoolStates.TakeOverAccounted` | pkg/scheduler/info/pool_info.go:212-233 | taking over an entry with all its pods keeps the sums if and only if what the pool had under that name counted for nothing |
| `PoolStates.HandOutAccounted` | pkg/scheduler/info/pool_info.go:236-253 | handing out an entry with all its pods keeps the sums if and only if the tree held its Node, or the entry counted for nothing; otherwise the operation stops half way |
| `ListItems.MoveToHead` | pkg/scheduler/info/pool_info.go:458-481 | an item of the list moves to the front and a detached one is inserted there; the list stays doubly linked and acyclic, and writing through left-over links changes nothing |
| `ListItems.Bypass` | pkg/scheduler/info/pool_info.go:458-504 | the neighbours close the gap; the item keeps its stale links, which point at no item that points back |
| `ListWalks.FiniteChainIsRho` | pkg/scheduler/info/pool_info.go:517-555 | every chain of next pointers over finitely many items ends or runs into one cycle |
| `ListWalks.MeetIff` | pkg/scheduler/info/pool_info.go:517-555 | the slow and the fast pointer meet after exactly the multiples of the cycle's length from the cycle's entry on |
| `ListWalks.Scan` | pkg/scheduler/info/pool_info.go:517-555 | the walk terminates, copies exactly the items before its stop, and flags a cycle only where there is one |
| `ListWalks.Cut` | pkg/scheduler/info/pool_info.go:517-555 | from the meeting point the cycle is cut at its entry, and the chain then ends and runs through the same items |
| `ListWalks.Walk` | pkg/scheduler/info/pool_info.go:506-569 | a chain that ends is never flagged or changed; a cycle of newer items is always found and cut without losing an item |
| `ListWalks.MovedEntryInSnapshot` | pkg/scheduler/info/pool_info.go:212-233 | an entry at the front shows in the next snapshot as it is if and only if its generation is above the snapshot's or the snapshot shows it so already; with an older one nothing is refreshed |
| `PoolLists.PoolInfo.Extract` | pkg/scheduler/info/pool_info.go:486-504 | the item leaves map and list, both stay equal to each other, and its stale links point into the remaining list |
| `PoolLists.PoolInfo.AddPod` | pkg/scheduler/info/pool_info.go:103-116 | refines the value operation; list strictly decreasing in generation, equal to the map, snapshot in sync up to its generation |
| `PoolLists.PoolInfo.RemovePod` | pkg/scheduler/info/pool_info.go:118-136 | each refusal with its reason and no effect; otherwise refines the value operation and keeps the invariant |
| `PoolLists.PoolInfo.UpdatePod` | pkg/scheduler/info/pool_info.go:138-146 | nothing when both are one object; otherwise the old pod leaves if it is listed, the new one comes in either way, and the invariant is kept |
| `PoolLists.PoolInfo.AddNode` | pkg/scheduler/info/pool_info.go:152-164 | refines the value operation, tree included, and keeps the invariant |
| `PoolLists.PoolInfo.RemoveNode` | pkg/scheduler/info/pool_info.go:166-188 | refused exactly for an unknown name; otherwise refines the value operation, tree included; the entry stays while it lists pods |
| `PoolLists.PoolInfo.UpdateNode` | pkg/scheduler/info/pool_info.go:190-209 | refines the value operation, tree included, and keeps the invariant |
| `PoolLists.PoolInfo.UpdateNodeInfoSnapshot` | pkg/scheduler/info/pool_info.go:506-569 | on any sound list, exactly the items before the stop are refreshed and the list is untouched; under the invariant, although it stops early and prunes only a larger map, the snapshot becomes exactly the current entries when every entry has a Node |
| `PoolLists.PoolInfo.AddNodeInfo` | pkg/scheduler/info/pool_info.go:212-233 | a detached item comes to the front with the generation it has, and one of the pool moves there; the list stays sound; the value taken over; the snapshot invariant survives a new item if and only if it is newer than all others and either newer than the snapshot or shown there as it is, and a known one if and only if it was in front |
| `PoolLists.PoolInfo.RemoveNodeInfo` | pkg/scheduler/info/pool_info.go:236-253 | the item leaves with stale links; the list stays sound, and the snapshot invariant is kept; the value handed out; an error exactly for an unknown name or a Node that the tree does not hold, and then no sum is reduced |
| `PoolLists.MoveEntry` | pkg/scheduler/internal/cache/cache.go:506-587 | a remove-then-add pair, its error ignored, leaves both pools' lists sound and equal to their maps, moving exactly one item; the pool it leaves keeps its snapshot invariant, the one it enters if and only if the item is the newest there |
| `SnapshotWitness.EntryMissed` | pkg/scheduler/info/pool_info.go:212-233 | a run after which the pool has an entry with a Node that its fresh snapshot does not show |
| `PoolMaps.MoveEntryLaid` | pkg/scheduler/internal/cache/cache.go:506-587 | whatever the trees hold, a move keeps names unique, every entry, and every other entry where it is |
| `PoolMaps.MoveEntryOk` | pkg/scheduler/internal/cache/cache.go:506-587 | between sound pools the tree holds the Node, and sums and trees stay right |
| `PoolMaps.MoveEntryTotal` | pkg/scheduler/internal/cache/cache.go:506-587 | what a move adds to each of the cluster's totals: nothing, or the whole entry once more when the tree it leaves does not hold the Node |
| `PoolMaps.MoveEntryTotals` | pkg/scheduler/internal/cache/cache.go:506-587 | a move conserves the cluster's capacity, allocatable and used totals if and only if the tree it leaves held the Node, or the entry adds nothing |
| `CacheWitnesses.CountedTwice` | pkg/scheduler/internal/cache/cache.go:433-453 | a run of node and pool updates after which the entries are the same and the cluster's capacity is greater |
| `CachePlacement.HomeWithP` | pkg/scheduler/internal/cache/cache.go:551-587 | how one more pool changes where a node belongs |
| `CachePlacement.AwayFromPlaces` | pkg/scheduler/internal/cache/cache.go:506-549 | after the first loop everything is placed as if the pool were not there |
| `CachePlacement.TowardsPPlaces` | pkg/scheduler/internal/cache/cache.go:551-587 | after the second loop everything is placed |
| `CachePlacement.TowardsPPlacesIff` | pkg/scheduler/internal/cache/cache.go:551-587 | on a pool that was there before, the second loop alone places everything if and only if each Node of the pool is matched by it and no other, and no Node of the default pool belongs to a third one |
| `CachePlacement.StaleSelectorPlaces` | pkg/scheduler/internal/cache/cache.go:433-453 | a new selector without any move leaves everything in place if and only if, for every Node, it matches as the old one did or two other pools match |
| `PoolMaps.HomeBySelectors` | pkg/scheduler/info/pool_info.go:406-431 | over selectors and labels alone: a node belongs to the named pool whose selector selects its labels if exactly one does, and else to the default pool |
| `PoolMaps.PlacedBySelectors` | pkg/scheduler/internal/cache/cache.go:657-673 | the placement holds if and only if every Node of a named pool is selected by that pool and no other, and every Node of the default pool by none or several |
| `SchedulerCaches.SchedulerCache.MatchPoolForNode` | pkg/scheduler/internal/cache/cache.go:657-673 | the loop finds the one named pool whose selector selects the node's labels if exactly one does, and the default pool otherwise; a pool without a selector selects nothing |
| `SchedulerCaches.SchedulerCache.MatchPoolForPod` | pkg/scheduler/internal/cache/cache.go:676-694 | a pool that holds the pod's node, or the default pool if none does; without a node the annotated pool, or the default |
| `SchedulerCaches.SchedulerCache.MoveEntriesAwayFrom` | pkg/scheduler/internal/cache/cache.go:506-549 | moving entries while ranging over the maps, errors ignored, is a sequence of moves that ends with every entry where the rule sends it |
| `SchedulerCaches.SchedulerCache.MoveEntriesTo` | pkg/scheduler/internal/cache/cache.go:551-587 | the same for the moves towards a pool and out of it again |
| `CachePools.MovesKeep` | pkg/scheduler/internal/cache/cache.go:506-587 | any sequence of moves keeps entries, pools and unique names, and between sound pools sums, trees and totals |
| `CachePools.AddPoolKeeps` | pkg/scheduler/internal/cache/cache.go:412-431 | entries are kept in any state; sound pools and totals in sound ones; placement for a new name always, for a known one if and only if there is nothing else to move |
| `CachePools.UpdatePoolKeeps` | pkg/scheduler/internal/cache/cache.go:433-453 | the same; placement when the selectors given differ or the pool is new, and otherwise if and only if the stored selector had the same reach |
| `CachePools.RemovePoolKeeps` | pkg/scheduler/internal/cache/cache.go:469-488 | placement is kept; exactly the pool's entries without a Node are lost; capacity and allocatable totals are conserved, and all totals when there are none |
| `SchedulerCaches.SchedulerCache.AddPool` | pkg/scheduler/internal/cache/cache.go:412-431 | in any state with unique names: the moves and the exact condition for placement, and under the invariant the invariant and the totals; the default pool is refused |
| `SchedulerCaches.SchedulerCache.UpdatePool` | pkg/scheduler/internal/cache/cache.go:433-453 | the same for a changed, unchanged or stale selector |
| `SchedulerCaches.SchedulerCache.RemovePool` | pkg/scheduler/internal/cache/cache.go:469-488 | in any placed state the nodes go where they belong without the pool; the invariant survives if and only if the pool had no entry without a Node, and then entries and all totals are conserved; the default pool is refused |
| `CacheWitnesses.KnownPoolAddedAgain` | pkg/scheduler/internal/cache/cache.go:412-431 | a run of AddPool, AddNode and AddPool after which a node is misplaced |
| `CacheWitnesses.PoolUpdatedFromStale` | pkg/scheduler/internal/cache/cache.go:433-453 | a run of AddPool, AddNode and UpdatePool after which a node is misplaced |
| `CacheWitnesses.PodLostWithPool` | pkg/scheduler/internal/cache/cache.go:469-488 | a run after which a known pod is on no entry |
| `CacheNodes.AddNodeKeepsNamesUnique` | pkg/scheduler/internal/cache/cache.go:589-602 | names stay unique if and only if no other pool has an entry of the name |
| `CacheNodes.AddNodeKeepsPlacement` | pkg/scheduler/internal/cache/cache.go:589-602 | with the name free elsewhere the node is in its place, and no other entry changes |
| `CacheNodes.AddNodeKeepsInv` | pkg/scheduler/internal/cache/cache.go:589-602 | the invariant survives if and only if, besides, the entry had no Node that counted or sat in another zone |
| `CacheWitnesses.NameHeldTwice` | pkg/scheduler/internal/cache/cache.go:589-602 | a run of AddPool, AddPod and AddNode after which a name is in two pools |
| `CacheWitnesses.AddedTwice` | pkg/scheduler/info/pool_info.go:152-164 | a Node added twice is counted twice |
| `CacheWitnesses.RemovedWithOtherFigures` | pkg/scheduler/info/pool_info.go:166-209 | removal and update with other figures leave wrong sums |
| `SchedulerCaches.SchedulerCache.AddNode` | pkg/scheduler/internal/cache/cache.go:589-602 | in any placed state: the new pools, and the exact conditions for placement and for the invariant |
| `SchedulerCaches.SchedulerCache.RemoveNode` | pkg/scheduler/internal/cache/cache.go:646-655 | any argument keeps the placement; the invariant is kept if and only if the Node counts like the entry's and sits in its zone, as the stored one does |
| `CacheNodes.RemoveNodeKeepsPlacement` | pkg/scheduler/internal/cache/cache.go:646-655 | whatever Node the argument is, the placement is kept and only its entry changes |
| `CacheNodes.RemoveNodeKeepsInv` | pkg/scheduler/internal/cache/cache.go:646-655 | for any Node, the exact condition under which sums, trees and the rest of the invariant survive |
| `CacheNodes.UpdateAcrossKeepsInv` | pkg/scheduler/internal/cache/cache.go:604-644 | an update that changes the pool keeps the invariant if and only if capacity, allocatable and zone are unchanged |
| `CacheNodes.UpdateNodeKeepsInv` | pkg/scheduler/internal/cache/cache.go:604-644 | for any two Nodes of a name, the exact condition for the invariant in place, across pools and for an entry taken over twice; for the stored one: unless it changes the pool together with figures or zone |
| `CacheNodes.UpdateInPlaceKeepsInv` | pkg/scheduler/info/pool_info.go:190-209 | the condition in place: the name is free elsewhere, the old Node counts like the entry's, and the tree follows |
| `CacheNodes.UpdateNodeKeepsPlacement` | pkg/scheduler/internal/cache/cache.go:604-644 | for any two Nodes: the exact condition under which an update keeps the placement, and the entries afterwards in each outcome |
| `CacheNodes.UpdateNodePanicsIff` | pkg/scheduler/internal/cache/cache.go:604-644 | the program ends on a nil pointer if and only if the pool changes, the old one has no entry with a Node, and the new one no entry |
| `SchedulerCaches.SchedulerCache.UpdateNode` | pkg/scheduler/internal/cache/cache.go:604-644 | in any placed state and for any two Nodes: the new pools, the exact conditions for placement and for the invariant, and the entry lost on the tree's error |
| `CacheWitnesses.MovedWithAnotherFootprint` | pkg/scheduler/internal/cache/cache.go:604-644 | a run that ends in a broken invariant for every change of figures or zone together with the pool |
| `CacheWitnesses.EntryLost` | pkg/scheduler/internal/cache/cache.go:604-644 | a run of updates after which a node's entry is in no pool |
| `CacheWitnesses.UpdatePanics` | pkg/scheduler/internal/cache/cache.go:604-644 | a run of updates that ends the program |
| `CacheWitnesses.FullLife` | pkg/scheduler/internal/cache/cache.go:190-377 | a run in which a pod is assumed, bound, confirmed, updated and removed, and every event is accepted |
| `CacheWitnesses.Expiry` | pkg/scheduler/internal/cache/cache.go:765-796 | a run in which a pod is there at its deadline and gone one moment later |
| `CacheWitnesses.Forgotten` | pkg/scheduler/internal/cache/cache.go:235-262 | a run in which an assumed pod is forgotten |
| `SchedulerCaches.SchedulerCache.AssumePod` | pkg/scheduler/internal/cache/cache.go:190-209 | the whole new state and outcome, the invariant, and the effect: a pod not known becomes assumed, on its node, and its node is charged for it |
| `SchedulerCaches.SchedulerCache.FinishBindingAt` | pkg/scheduler/internal/cache/cache.go:216-233 | the whole new state: exactly an assumed pod gets the deadline now plus the time to live, and nothing else changes |
| `SchedulerCaches.SchedulerCache.ForgetPod` | pkg/scheduler/internal/cache/cache.go:235-262 | the whole new state and each refusal; an assumed pod on its node is gone afterwards, from the known pods and from every entry, its node is discharged, and no other pod changes |
| `SchedulerCaches.SchedulerCache.AddPod` | pkg/scheduler/internal/cache/cache.go:287-320 | the whole new state: confirms, relocates or adds; afterwards the stored pod is the argument, without a deadline, on its node once |
| `SchedulerCaches.SchedulerCache.UpdatePod` | pkg/scheduler/internal/cache/cache.go:322-348 | the fatal branch is taken if and only if the pod is known, not assumed and stored on another node, and then nothing changes; after success the stored pod is the new one, on its node once with its figures, and its node is charged the difference |
| `SchedulerCaches.SchedulerCache.RemovePod` | pkg/scheduler/internal/cache/cache.go:350-377 | the fatal branch likewise; after success the pod is gone, from the known pods and from every entry, its node is discharged, and no other pod changes; the invariant is kept for every argument |
| `SchedulerCaches.SchedulerCache.CleanupAssumedPods` | pkg/scheduler/internal/cache/cache.go:765-796 | placement is kept in any placed state; under the invariant exactly the assumed pods with finished binding and passed deadline are forgotten, and neither the panic nor a missing deadline is met |
| `CachePods.EventKeepsInv` | pkg/scheduler/internal/cache/cache.go:190-377 | every pod event keeps: assumed are known, finished bindings have deadlines, each known pod is on exactly one entry of exactly one pool, sums and placement right; the fatal branch exactly for a misdirected event |
| `CachePods.KnownPodHasOnePlace` | pkg/scheduler/internal/cache/cache.go:190-377 | under the invariant a pod is known if and only if it is listed, at one pool, entry and position only, with the stored node and figures |
| `CachePods.EventKeepsPlacement` | pkg/scheduler/internal/cache/cache.go:190-377 | every pod event keeps the placement, whatever the sums and the known pods are |
| `CachePods.PhasesFollowDiagram` | pkg/scheduler/internal/cache/interface.go:35-61 | phases change only along the documented arrows and only for the event's pod |
| `PodEffects.PodFollowsAutomaton` | pkg/scheduler/internal/cache/interface.go:35-61 | every delivered event moves its pod along an automaton of its own, outcome included, and changes what is known of no other pod |
| `PodEffects.OthersStayPut` | pkg/scheduler/internal/cache/cache.go:190-377 | every other pod stays on its entry in its pool, and so does every Node |
| `PodEffects.RequestedIsKnown` | pkg/scheduler/internal/cache/cache.go:190-377 | under the invariant the requested amounts of every entry are the sums over the known pods on that node |
| `PodEffects.EventCharges` | pkg/scheduler/internal/cache/cache.go:190-377 | an event changes every amount of every entry by what its pod brings there and takes away |
| `PodEffects.EventEffect` | pkg/scheduler/internal/cache/cache.go:190-377 | all of that together |
| `CacheEvents.EventKeepsPlaces` | pkg/scheduler/internal/cache/cache.go:190-655 | any pod, node or pool event keeps the placement if and only if the stated condition on that event, whatever state sums, trees and known pods are in |
| `CacheEvents.EventKeepsAll` | pkg/scheduler/internal/cache/cache.go:190-655 | under the further conditions any event keeps the whole invariant, and a node or pool event only under them |
| `CacheEvents.RunStaysPlaced` | pkg/scheduler/internal/cache/cache.go:190-655 | at every point of every mixed run of such events every Node is in the one pool whose selector selects its labels, or in the default pool |
| `CacheEvents.RunKeepsInv` | pkg/scheduler/internal/cache/cache.go:190-655 | the whole invariant at every point of every such run |
| `CacheEvents.DeadlineFromBinding` | pkg/scheduler/internal/cache/cache.go:216-233 | in any run a deadline is the time to live after the pod's binding was last said to be finished |
| `CacheEvents.NoEarlyExpiry` | pkg/scheduler/internal/cache/cache.go:765-796 | in any run no pod expires before the time to live has passed since then |
| `SchedulingLoops.FittingStaysWithin` | pkg/scheduler/algorithm/predicates/predicates.go:769-834 | a pod that fits an older, fuller snapshot of a node leaves the node within its limits |
| `SchedulingLoops.RoomBesideNominated` | pkg/scheduler/core/generic_scheduler.go:538-566 | a pod that fits has room beside all nominated pods of at least its priority, in number and in every checked amount |
| `SchedulingLoops.StepKeepsFine` | pkg/scheduler/scheduler.go:456-627 | every step of every loop and every interleaved pod event keeps all nodes within their limits and all snapshots covering |
| `SchedulingLoops.SnapshotStep` | pkg/scheduler/info/pool_info.go:506-569 | the incremental snapshot of the linked list yields exactly the snapshot that the protocol's step takes |
| `SchedulingLoops.NeverOvercommitted` | pkg/scheduler/scheduler.go:456-627 | in every interleaving no node's requested resources or pod count ever exceed its allocatable |
| `SchedulingLoops.FittingPodIsAssumed` | pkg/scheduler/scheduler.go:456-627 | a pod that fits on a node of an idle loop's pool is assumed there after snapshot, choice and assumption, each of them enabled |
| `SchedulingLoops.StepsAreLocal` | pkg/scheduler/scheduler.go:456-627 | a step changes its own loop only, and only an assumption or a pod event changes the cache |
| `SlotSearch.StepInv` | pkg/scheduler/core/generic_scheduler.go:466-498 | every atomic step of every worker keeps counter, slots, pieces and nodes in account |
| `SlotSearch.SlotsWrittenOnce` | pkg/scheduler/core/generic_scheduler.go:485-492 | in every interleaving a worker about to write finds its slot in range and empty |
| `SlotSearch.EverySearchIsComplete` | pkg/scheduler/core/generic_scheduler.go:449-501 | for every number of workers and every interleaving the prefix read at the end has no gap, holds distinct fitting nodes, is as long as the fitting nodes up to the target, and has exactly the target when cancelled |
| `NodeSearch.WindowLists` | pkg/scheduler/info/node_tree.go:161-186 | on a tree that holds no name twice, any NumNodes consecutive calls list its nodes |
| `NodeSearch.EverySearchFindsNodes` | pkg/scheduler/core/generic_scheduler.go:449-501 | on such a tree, unchanged meanwhile, in every interleaving the result holds distinct fitting nodes, as many as the tree has, up to the target |
| `SlotSearch.EveryStepCounts` | pkg/scheduler/core/generic_scheduler.go:466-498 | no interleaving runs forever |
| `PodOrders.OwnPoolFirstIsStrictWeakOrder` | pkg/scheduler/util/utils.go:103-117 | the comparison of candidates is a strict weak order |
| `PodOrders.Sort` | pkg/scheduler/util/utils.go:91-93 | an ordered permutation |
| `VictimSelection.PodSlice.Append` | pkg/scheduler/info/node_info.go:519-541 | appends in place or in a new array |
| `VictimSelection.PodSlice.Remove` | pkg/scheduler/info/node_info.go:544-600 | swap-removal of the first pod with the uid; only its position is written; refused exactly when there is none |
| `VictimSelection.TakeCandidates` | pkg/scheduler/core/generic_scheduler.go:1052-1062 | although removals rewrite the array being ranged over, the candidates are exactly the eligible pods in order, and the others remain |
| `VictimSelection.FilterPodsWithPDBViolation` | pkg/scheduler/core/generic_scheduler.go:972-1004 | a stable split of the pods by whether a budget of the pod's namespace that selects it allows no disruption |
| `VictimSelection.Reprieve` | pkg/scheduler/core/generic_scheduler.go:1081-1090 | the pod stays exactly when the preemptor still fits, and otherwise leaves no trace |
| `VictimSelection.SelectVictimsOnNode` | pkg/scheduler/core/generic_scheduler.go:1021-1101 | only pods of this scheduler that borrow, or have a lower priority than the preemptor, are victims, whatever the fit test; unsuitable if and only if the preemptor does not fit with all of those gone; otherwise the victims of the greedy reprieve in trial order, violating ones first and counted, feasible and irreducible |
| `VictimSelection.VictimsMayGo` | pkg/scheduler/core/generic_scheduler.go:1052-1062 | every victim is a pod of the node that may be evicted, in the pods' own fields |
| `VictimOrder.VictimsInOrder` | pkg/scheduler/core/generic_scheduler.go:1081-1101 | victims keep the order of the pods that were tried |
| `VictimOrder.GroupsInOrder` | pkg/scheduler/core/generic_scheduler.go:1081-1101 | each budget group of victims is own-pool first and by falling priority |
| `VictimOrder.FirstIsGreatestIff` | pkg/scheduler/core/generic_scheduler.go:806-807 | the first victim has the greatest effective priority if and only if it has it against the first non-violating victim and against those whose pool has no queue |
| `VictimOrder.LowVictimFirst` | pkg/scheduler/core/generic_scheduler.go:806-807 | two victims, the first of lower priority |
| `VictimChoice.VictimsSuffice` | pkg/scheduler/core/generic_scheduler.go:1081-1101 | the preemptor fits once the victims are gone |
| `VictimChoice.NothingLost` | pkg/scheduler/core/generic_scheduler.go:1081-1101 | victims and kept pods are together the pods there were |
| `VictimChoice.NoVictimCanStay` | pkg/scheduler/core/generic_scheduler.go:1081-1101 | for any antitone fit, no single victim can be put back |
| `VictimChoice.GreedyIsGreatest` | pkg/scheduler/core/generic_scheduler.go:1081-1101 | the kept pods are the lexicographically greatest feasible choice in trial order |
| `VictimChoice.FitsResourcesIsResourcesFit` | pkg/scheduler/algorithm/predicates/predicates.go:769-834 | the predicate on aggregates is a predicate of the node's pods |
| `VictimChoice.ResourcesFitAntitone` | pkg/scheduler/algorithm/predicates/predicates.go:769-834 | fewer pods never make the preemptor not fit |
| `NodeChoice.FewestViolationsStage` | pkg/scheduler/core/generic_scheduler.go:820-842 | in any map order, exactly the nodes with the fewest violations, or a node without victims; no node has fewer than one that is kept |
| `NodeChoice.HighestPriorityStage` | pkg/scheduler/core/generic_scheduler.go:849-869 | exactly the remaining nodes whose first victim is lowest, borrowers below all others, written in bounds |
| `NodeChoice.SumPriorities` | pkg/scheduler/core/generic_scheduler.go:879-892 | the sum of the own-pool victims' priorities counted from the lowest there is, without 64-bit overflow |
| `NodeChoice.PrioritySumStage` | pkg/scheduler/core/generic_scheduler.go:876-901 | exactly the remaining nodes with the least sum, in the reused buffer |
| `NodeChoice.FewestVictimsStage` | pkg/scheduler/core/generic_scheduler.go:908-921 | exactly the remaining nodes with the fewest victims, in the reused buffer; none seen has fewer than one that is kept |
| `NodeChoice.PickOneNodeForPreemption` | pkg/scheduler/core/generic_scheduler.go:816-928 | no node only from no nodes, so the error branch is unreachable; a node without victims if there is one; otherwise none has fewer violations, at equal ones a lower first victim, then victims worth less, then fewer; so never one whose victims include another's, and among nodes of borrowers one with the fewest |
| `NodeChoice.NoWorseIsPreferable` | pkg/scheduler/core/generic_scheduler.go:806-812 | the staged comparison in the victims' own fields |
| `NodeChoice.RaisingNeverWins` | pkg/scheduler/core/generic_scheduler.go:876-901 | raising the priority of a victim never makes its node win |
| `KeyedHeaps.Heap.Swap` | pkg/scheduler/util/heap.go:87-93 | keys and indexes stay in one-to-one correspondence and two objects change places |
| `KeyedHeaps.Heap.Add` | pkg/scheduler/util/heap.go:134-146 | the map gets the object under its key, even if the stored object had been changed in place; heap order is restored |
| `KeyedHeaps.Heap.AddIfNotPresent` | pkg/scheduler/util/heap.go:150-159 | the map gets the object exactly when its key is free |
| `KeyedHeaps.Heap.Delete` | pkg/scheduler/util/heap.go:168-178 | the map loses the key; an error exactly when it is not there |
| `KeyedHeaps.Heap.Peek` | pkg/scheduler/util/heap.go:117-122 | a stored object that no other belongs before; none exactly when empty |
| `KeyedHeaps.Heap.Pop` | pkg/scheduler/util/heap.go:186-192 | removes and returns a least object |
| `KeyedHeaps.Heap.GetByKey` | pkg/scheduler/util/heap.go:204-210 | what the map holds |
| `HeapOrders.FirstIsLeast` | pkg/scheduler/util/heap.go:117-122 | in heap order no object belongs before the first |
| `PoolQueues.ComesBeforeIsStrictWeakOrder` | pkg/scheduler/internal/queue/pool_queue.go:297-323 | for a fixed set of queues the comparison is a strict weak order |
| `PoolQueues.Drain` | pkg/scheduler/util/heap.go:186-192 | popping until empty yields every object once, under its key, in order |
| `PoolQueues.DrainPoolQueue` | pkg/scheduler/internal/queue/pool_queue.go:297-338 | all own-pool pods come before any borrower, each class by falling priority and then by waiting time; all come out when no two have the same namespace and name |
| `PoolQueues.KeysTellApart` | pkg/scheduler/internal/queue/scheduling_queue.go:973-975 | two pods have the same key if and only if they have the same namespace and name |
| `Backoffs.PodBackoff.BackoffPod` | pkg/scheduler/util/backoff_utils.go:136-143 | the whole new table, although the time is written into the stored entry before the heap is put back in order |
| `Backoffs.PodBackoff.TryBackoff` | pkg/scheduler/util/backoff_utils.go:145-164 | the whole new table, the time of the last update kept; nothing but the entry's creation when its lock is taken |
| `Backoffs.PodBackoff.Gc` | pkg/scheduler/util/backoff_utils.go:166-183 | exactly the entries older than the maximum duration are removed |
| `Backoffs.PodBackoff.ClearPodBackoff` | pkg/scheduler/util/backoff_utils.go:198-207 | the entry is gone; true exactly when there was one |
| `Backoffs.SinceIsExact` | pkg/scheduler/util/backoff_utils.go:177 | saturation of the elapsed time matters only for the largest maximum there is |
| `Backoffs.DoublesIff` | pkg/scheduler/util/backoff_utils.go:69-81 | with wrap-around, the n-th back-off is min(maximum, default·2^(n-1)) for all n if and only if the stated condition on the two durations |
| `Backoffs.FirstWrong` | pkg/scheduler/util/backoff_utils.go:69-81 | for every pair of durations that fails the condition, a number of calls whose duration is wrong |
| `Backoffs.RunOperations` | pkg/scheduler/util/backoff_utils.go:119-207 | in any run of back-offs of any pods, with and without waiting, clean-ups and clearings, each back-off takes the duration of its number since the pod's entry was last dropped, the documented one under that condition |
| `TopologyPairs.TopologyPairsMaps.AddTopologyPair` | pkg/scheduler/algorithm/predicates/metadata.go:184-194 | the two maps stay mutual inverses without empty sets and hold one pair more |
| `TopologyPairs.TopologyPairsMaps.RemovePod` | pkg/scheduler/algorithm/predicates/metadata.go:196-205 | they stay so and hold the pod nowhere |
| `TopologyPairs.TopologyPairsMaps.AppendMaps` | pkg/scheduler/algorithm/predicates/metadata.go:207-216 | they stay so and hold the union |
| `TopologyPairs.HoldsDetermine` | pkg/scheduler/algorithm/predicates/metadata.go:69-74 | two such indexes with the same pods under the same pairs are equal, both maps |
| `TopologyPairs.FullNamesTellApart` | pkg/scheduler/algorithm/predicates/metadata.go:184-205 | two pods have the same full name if and only if they have the same name and namespace |
| `AffinityMetadata.GetMatchingAntiAffinityTopologyPairsOfPod` | pkg/scheduler/algorithm/predicates/predicates.go:1288-1309 | exactly the node's pairs of terms against the incoming pod; an error exactly for an invalid term |
| `AffinityMetadata.BuildExisting` | pkg/scheduler/algorithm/predicates/metadata.go:378-420 | in any order of nodes, exactly the pairs of the world, or the exact errors |
| `AffinityMetadata.BuildIncoming` | pkg/scheduler/algorithm/predicates/metadata.go:426-508 | in any order of nodes, both indexes of the world, or the exact errors, an entry without a Node among them |
| `AffinityMetadata.GetMetadata` | pkg/scheduler/algorithm/predicates/metadata.go:145-176 | all three indexes are those of the world, spelled out in the pods' terms, namespaces and labels; the exact condition for failure |
| `AffinityMetadata.RepellingRecorded` | pkg/scheduler/algorithm/predicates/metadata.go:378-420 | recorded are exactly the pods with an anti-affinity term of the pair's key that selects the incoming pod |
| `AffinityMetadata.AttractedRecorded` | pkg/scheduler/algorithm/predicates/metadata.go:350-360 | recorded are exactly the pods that every affinity term of the incoming pod selects |
| `AffinityMetadata.RepelledRecorded` | pkg/scheduler/algorithm/predicates/metadata.go:426-508 | recorded are exactly the pods that an anti-affinity term of the pair's key selects |
| `AffinityMetadata.PredicateMetadata.AddPod` | pkg/scheduler/algorithm/predicates/metadata.go:249-300 | the pairs each index gains; the first two become those of a rebuild with the pod; the third covers it, and stays exact if and only if the pod matches no term or, on this node, each; each refusal without effect |
| `AffinityMetadata.PredicateMetadata.RemovePod` | pkg/scheduler/algorithm/predicates/metadata.go:220-245 | the indexes become those of a rebuild without the pod |
| `AffinityMetadata.PredicateMetadata.ShallowCopy` | pkg/scheduler/algorithm/predicates/metadata.go:304-324 | equal maps in new objects |
| `AffinityMetadata.AddThenRemove` | pkg/scheduler/core/generic_scheduler.go:1036-1051 | a pod added and removed again leaves all six maps as they were |
| `AffinityMetadata.AddedAntiAffinityExactIff` | pkg/scheduler/algorithm/predicates/metadata.go:280-288 | from an exact index, what AddPod records leaves the index of a rebuild if and only if the pod matches no term or, for each term whose key the node has, one with that key |
| `AffinityMetadata.ExceedingAdd` | pkg/scheduler/algorithm/predicates/metadata.go:280-288 | a pod added on a node with two keys, after which the index holds more than a rebuild |
| `AffinityMetadata.OneTermIsExact` | pkg/scheduler/algorithm/predicates/metadata.go:280-288 | with at most one term the third index is exactly the rebuilt one, too |
| `Wire.EncodeVarint` | pkg/apis/resource/v1alpha1/generated.pb.go:528-536 | writes exactly the base-128 varint at the offset and keeps what is before it |
| `Wire.Sov` | pkg/apis/resource/v1alpha1/generated.pb.go:669-678 | exactly the length of the varint |
| `Wire.DecodeVarint` | pkg/apis/resource/v1alpha1/generated.pb.go:1090-1106 | the loop refines the reader, with both of its errors, and yields a 64-bit value |
| `Wire.VarintReadsBack` | pkg/apis/resource/v1alpha1/generated.pb.go:528-536 | decoding undoes encoding anywhere in a buffer |
| `Wire.VarintRoundTrip` | pkg/apis/resource/v1alpha1/generated.pb.go:528-536 | for every unsigned 64-bit value |
| `Wire.VarintMeans` | pkg/apis/resource/v1alpha1/generated.pb.go:528-536 | the bytes of a varint stand for its value, seven bits a byte, lowest first, and only the last one ends it |
| `Wire.Size` | pkg/apis/resource/v1alpha1/generated.pb.go:563-580 | exactly the number of bytes that marshalling writes |
| `Wire.MarshalTo` | pkg/apis/resource/v1alpha1/generated.pb.go:174-229 | writes the encoding in bounds and returns its length |
| `Wire.Marshal` | pkg/apis/resource/v1alpha1/generated.pb.go:164-172 | a buffer of Size bytes is filled completely |
| `Wire.EncodeIsFields` | pkg/apis/resource/v1alpha1/generated.pb.go:174-229 | the encoding is the spec's fields 1 to 5 in the wire format, in order, one for each pool to borrow from |
| `Wire.Unmarshal` | pkg/apis/resource/v1alpha1/generated.pb.go:1086-1257 | the loop, in 64-bit arithmetic with wrap-around, refines the parser, for every input with its error or panic, those of the selector's own unmarshalling included |
| `Wire.ParsesEncoding` | pkg/apis/resource/v1alpha1/generated.pb.go:1086-1257 | parsing an encoding anywhere in the data merges the encoded message and goes on after it |
| `Wire.RoundTrip` | pkg/apis/resource/v1alpha1/generated.pb.go:164-229 | unmarshalling what was marshalled gives the spec back, for every spec whose encoding is a slice and whose selector reads back itself; so it never panics |
| `Wire.UnknownFieldIgnored` | pkg/apis/resource/v1alpha1/generated.pb.go:1237-1249 | an unknown field of any kind, groups within groups included, is passed over |
| `Wire.FieldSkipped` | pkg/apis/resource/v1alpha1/generated.pb.go:2415-2511 | any field in its wire format is skipped as a whole |
| `Wire.KnownFieldPanicsIff` | pkg/apis/resource/v1alpha1/generated.pb.go:1115-1217 | a known field panics if and only if it is a selector or a pool name whose length moves the index past 2^63, or a selector that panics itself |
| `Wire.UnknownFieldPanicsIff` | pkg/apis/resource/v1alpha1/generated.pb.go:1237-1249 | an unknown length-delimited field panics if and only if its length overflows the index in the data but not in the rest of the data |
| `Wire.PanicNeedsHugeLength` | pkg/apis/resource/v1alpha1/generated.pb.go:1086-1257 | if the selector panics over such lengths only, no input of less than 2^63 - 8 bytes without one panics, whatever its fields |
| `Wire.HugeLengthPanics` | pkg/apis/resource/v1alpha1/generated.pb.go:1188-1217 | ten bytes that panic |

## Left out

- Node entries are values: `NodeInfo` fields are updated by building a new value, so aliasing between a NodeInfo and its clone is not captured; the list items that hold them are objects.
- The cache's pools are values too (`SchedulerCache` holds a map of `PoolState`); that the pointer structure and the node tree of one pool refine this value is proved in `PoolLists`, and that a move does in `PoolLists.MoveEntry`.
- Resource sums are unbounded integers: 64-bit overflow of capacities and requests is not modelled.
- Host ports, image states, volume counts, non-zero requests, taints and conditions of a node.
- SchedulerCaches.SchedulerCache.UpdatePool: not for an object without a name, which the API server does not admit.
- PoolLists.PoolInfo.AddNodeInfo: not for an item under whose name the pool has another item, which no caller passes while names are unique across pools; the value `TakeOver` covers it.
- PoolLists.PoolInfo.UpdateNode: not for a nil old Node, which no event handler passes.
- Pods that reach the cache without a node name: the event handlers deliver only assigned pods (pkg/scheduler/eventhandlers.go:349).
- SchedulingLoops.NeverOvercommitted: for runs in which pools, Nodes and selectors stay fixed and added pods confirm assumed ones, since a node's limits can be passed from outside otherwise.
- SchedulingLoops: the predicates other than the resource predicate, which do not bear on overcommitment.
- VictimSelection.SelectVictimsOnNode: the fit test is any predicate of the pods on the node; that all registered predicates depend on nothing else and are antitone is not claimed, except for the resource predicate.
- PodOrders.Sort: Go's sorting algorithm is not part of this model; any ordered permutation satisfies its callers.
- SlotSearch: how the target is computed from percentages is not modelled.
- KeyedHeaps.Heap: an object changed through its pointer is modelled as the explicit step `Overwrite`.
- Backoffs: the per-entry lock, whose outcome is a parameter, and the waiting of TryBackoffAndWait.
- AffinityMetadata: label matching is a parameter; service affinity lists are not modelled; a pod pointer is the pod's value, and full names are taken to be unique, so that TopologyPairsMaps.RemovePod meets no other pod of the name.
- Wire: the label selector's own encoding is opaque bytes, and what its unmarshalling refuses is a parameter; PoolStatus and the list types.
- Label selector matching, the classification of resource names, and PDB selectors are parameters or part of the names.
- Informers, API calls, extenders, volume binding, scoring, borrowing order, metrics and configuration.
