/** The pod part of the scheduler cache (pkg/scheduler/internal/cache/cache.go): the state machine
    Initial, Assumed, Added, Expired of a pod, and the pods' places in the pools' entries. */
module CachePods {
  import opened Api
  import opened Resources
  import opened NodeInfos
  import opened PoolStates
  import opened PoolMaps

  datatype PodState = PodState(pod: Pod, deadline: Option<int>, bindingFinished: bool)

  datatype Cache = Cache(pools: Pools, podStates: map<string, PodState>, assumed: set<string>)

  // ----- putting a pod in and taking it out -----

  /** matchPoolForPod: the pool that has the pod's node; for a pod without a node, the pool it is
      annotated with; the default pool if there is none. */
  ghost function TargetPool(pools: Pools, pod: Pod): string {
    if pod.nodeName != "" then PoolOf(pools, pod.nodeName)
    else if pod.poolAnnotation in pools then pod.poolAnnotation else DefaultPoolName
  }

  lemma TargetExists(pools: Pools, pod: Pod)
    requires Keyed(pools)
    ensures TargetPool(pools, pod) in pools
  {
  }

  ghost function PodIn(pools: Pools, pod: Pod): Pools
    requires Keyed(pools)
  {
    TargetExists(pools, pod);
    var n := TargetPool(pools, pod);
    pools[n := AddPodTo(pools[n], pod)]
  }

  ghost predicate CanTakeOut(pools: Pools, pod: Pod)
    requires Keyed(pools)
  {
    TargetExists(pools, pod);
    pod.uid != "" && Holds(pools[TargetPool(pools, pod)], pod)
  }

  ghost function PodOut(pools: Pools, pod: Pod): Pools
    requires Keyed(pools) && CanTakeOut(pools, pod)
  {
    TargetExists(pools, pod);
    var n := TargetPool(pools, pod);
    pools[n := RemovePodFrom(pools[n], pod)]
  }

  // ----- events -----

  /** AssumePod. */
  ghost function Assume(c: Cache, pod: Pod): (r: (Cache, Outcome))
    requires Keyed(c.pools)
  {
    if pod.uid == "" then (c, Failed(EmptyUid))
    else if pod.uid in c.podStates then (c, Failed(PodAlreadyKnown))
    else (Cache(PodIn(c.pools, pod), c.podStates[pod.uid := PodState(pod, None, false)], c.assumed + {pod.uid}), Done)
  }

  /** finishBinding: an assumed pod gets a deadline and may expire from then on. */
  function FinishBinding(c: Cache, pod: Pod, now: int, ttl: int): (Cache, Outcome) {
    if pod.uid == "" then (c, Failed(EmptyUid))
    else if pod.uid in c.podStates && pod.uid in c.assumed then
      var ps := c.podStates[pod.uid].(deadline := Some(now + ttl), bindingFinished := true);
      (c.(podStates := c.podStates[pod.uid := ps]), Done)
    else (c, Done)
  }

  /** ForgetPod: only an assumed pod, on the node it was assumed on. */
  ghost function Forget(c: Cache, pod: Pod): (Cache, Outcome)
    requires Keyed(c.pools)
  {
    if pod.uid == "" then (c, Failed(EmptyUid))
    else if pod.uid in c.podStates && c.podStates[pod.uid].pod.nodeName != pod.nodeName then
      (c, Failed(AssumedElsewhere))
    else if !(pod.uid in c.podStates && pod.uid in c.assumed) then (c, Failed(PodNotAssumed))
    else if !CanTakeOut(c.pools, pod) then (c, Failed(PodNotFound))
    else (Cache(PodOut(c.pools, pod), c.podStates - {pod.uid}, c.assumed - {pod.uid}), Done)
  }

  /** A confirmed pod that turned up on another node than it was assumed on changes places; the
      source ignores a failure to take it out. */
  ghost function Relocated(pools: Pools, stored: Pod, pod: Pod): Pools
    requires Keyed(pools)
  {
    if stored.nodeName == pod.nodeName then pools
    else if CanTakeOut(pools, stored) then
      PodOutKeyed(pools, stored);
      PodIn(PodOut(pools, stored), pod)
    else PodIn(pools, pod)
  }

  /** AddPod: confirms an assumed pod, or adds one that is not known. */
  ghost function Add(c: Cache, pod: Pod): (Cache, Outcome)
    requires Keyed(c.pools)
  {
    if pod.uid == "" then (c, Failed(EmptyUid))
    else if pod.uid in c.podStates && pod.uid in c.assumed then
      var ps := c.podStates[pod.uid];
      var podStates := c.podStates[pod.uid := ps.(deadline := None, pod := pod)];
      (Cache(Relocated(c.pools, ps.pod, pod), podStates, c.assumed - {pod.uid}), Done)
    else if pod.uid !in c.podStates then
      (Cache(PodIn(c.pools, pod), c.podStates[pod.uid := PodState(pod, None, false)], c.assumed), Done)
    else (c, Failed(PodAlreadyKnown))
  }

  /** UpdatePod, on a pod that was added. An update that names another node ends the process. */
  ghost function Update(c: Cache, oldPod: Pod, newPod: Pod): (Cache, Outcome)
    requires Keyed(c.pools)
  {
    if oldPod.uid == "" then (c, Failed(EmptyUid))
    else if !(oldPod.uid in c.podStates && oldPod.uid !in c.assumed) then (c, Failed(PodNotAdded))
    else if c.podStates[oldPod.uid].pod.nodeName != newPod.nodeName then (c, Failed(CacheCorrupted))
    else if !CanTakeOut(c.pools, oldPod) then (c, Failed(PodNotFound))
    else
      PodOutKeyed(c.pools, oldPod);
      var podStates := c.podStates[oldPod.uid := c.podStates[oldPod.uid].(pod := newPod)];
      (Cache(PodIn(PodOut(c.pools, oldPod), newPod), podStates, c.assumed), Done)
  }

  /** RemovePod, of a pod that was added. A removal that names another node ends the process. */
  ghost function Remove(c: Cache, pod: Pod): (Cache, Outcome)
    requires Keyed(c.pools)
  {
    if pod.uid == "" then (c, Failed(EmptyUid))
    else if !(pod.uid in c.podStates && pod.uid !in c.assumed) then (c, Failed(PodNotAdded))
    else if c.podStates[pod.uid].pod.nodeName != pod.nodeName then (c, Failed(CacheCorrupted))
    else if !CanTakeOut(c.pools, c.podStates[pod.uid].pod) then (c, Failed(PodNotFound))
    else (Cache(PodOut(c.pools, c.podStates[pod.uid].pod), c.podStates - {pod.uid}, c.assumed), Done)
  }

  /** An assumed pod whose binding is finished and whose deadline is over. */
  predicate Expired(c: Cache, key: string, now: int) {
    && key in c.assumed && key in c.podStates && c.podStates[key].bindingFinished
    && c.podStates[key].deadline.Some? && now > c.podStates[key].deadline.value
  }

  /** expirePod. */
  ghost function Expire(c: Cache, key: string): (Cache, Outcome)
    requires Keyed(c.pools) && key in c.podStates
  {
    if !CanTakeOut(c.pools, c.podStates[key].pod) then (c, Failed(PodNotFound))
    else (Cache(PodOut(c.pools, c.podStates[key].pod), c.podStates - {key}, c.assumed - {key}), Done)
  }

  lemma PodOutKeyed(pools: Pools, pod: Pod)
    requires Keyed(pools) && CanTakeOut(pools, pod)
    ensures Keyed(PodOut(pools, pod))
  {
  }

  // ----- what every event keeps -----

  /** Every pod listed at an entry is known, is on that node and has the figures of the stored pod;
      no entry lists a pod twice; and every known pod is listed at its node's entry. As no node
      name is in two pools, each known pod is on exactly one entry, once. */
  ghost predicate PodsKnown(flat: map<string, NodeInfo>, podStates: map<string, PodState>) {
    && (forall x, i :: x in flat && 0 <= i < |flat[x].pods| ==> Listed(x, flat[x].pods[i], podStates))
    && (forall x, i, j :: x in flat && 0 <= i < j < |flat[x].pods| ==> flat[x].pods[i].uid != flat[x].pods[j].uid)
    && (forall k :: k in podStates ==> Found(flat, k, podStates[k].pod))
  }

  ghost predicate Listed(x: string, pod: Pod, podStates: map<string, PodState>) {
    pod.uid in podStates && SameFigures(pod, podStates[pod.uid].pod) && pod.nodeName == x
  }

  ghost predicate Found(flat: map<string, NodeInfo>, k: string, pod: Pod) {
    k != "" && pod.uid == k && pod.nodeName != "" && pod.nodeName in flat && HasPod(flat[pod.nodeName].pods, k)
  }

  /** Assumed pods are known, and one whose binding is finished has a deadline: expiry meets
      neither an unknown key nor a missing deadline. */
  predicate AssumedOk(c: Cache) {
    && c.assumed <= c.podStates.Keys
    && forall k :: k in c.assumed && c.podStates[k].bindingFinished ==> c.podStates[k].deadline.Some?
  }

  /** What placement needs, and no more: the pools are laid out, every Node is where it belongs, and
      known pods have a node. */
  ghost predicate WellPlaced(mt: Matcher, c: Cache) {
    Laid(c.pools) && Placed(mt, c.pools) && AssumedOk(c) && Addressed(c.podStates)
  }

  predicate Addressed(podStates: map<string, PodState>) {
    forall k :: k in podStates ==> podStates[k].pod.nodeName != ""
  }

  ghost predicate Inv(mt: Matcher, c: Cache) {
    PoolsOk(c.pools) && Placed(mt, c.pools) && PodsKnown(Flat(c.pools), c.podStates) && AssumedOk(c)
  }

  /** Where a pod is listed: a pool, an entry of it, and a position there. */
  datatype Place = Place(pool: string, entry: string, position: nat)

  ghost predicate ListedAt(pools: Pools, k: string, at: Place) {
    && at.pool in pools && at.entry in pools[at.pool].nodes
    && at.position < |pools[at.pool].nodes[at.entry].pods|
    && pools[at.pool].nodes[at.entry].pods[at.position].uid == k
  }

  lemma PlaceFacts(pools: Pools, podStates: map<string, PodState>, k: string, at: Place)
    requires NamesUnique(pools) && PodsKnown(Flat(pools), podStates) && ListedAt(pools, k, at)
    ensures var pod := pools[at.pool].nodes[at.entry].pods[at.position];
      && k in podStates && at.entry == podStates[k].pod.nodeName && SameFigures(pod, podStates[k].pod)
      && PoolOf(pools, at.entry) == at.pool
  {
    hide Flat, PoolOf, Found, NamesUnique;
    FlatAt(pools, at.pool, at.entry);
    assert Listed(at.entry, Flat(pools)[at.entry].pods[at.position], podStates);
  }

  lemma OnePlace(pools: Pools, podStates: map<string, PodState>, k: string, at: Place, bt: Place)
    requires NamesUnique(pools) && PodsKnown(Flat(pools), podStates) && ListedAt(pools, k, at) && ListedAt(pools, k, bt)
    ensures at == bt
  {
    hide Flat, PoolOf, SameFigures, Found, NamesUnique;
    PlaceFacts(pools, podStates, k, at);
    PlaceFacts(pools, podStates, k, bt);
    FlatAt(pools, at.pool, at.entry);
  }

  /** Every known pod, and no other, is listed; at one place only; and there with the stored pod's node
      and figures. */
  lemma KnownPodHasOnePlace(mt: Matcher, c: Cache, k: string)
    requires Inv(mt, c)
    ensures k in c.podStates <==> exists at :: ListedAt(c.pools, k, at)
    ensures forall at, bt :: ListedAt(c.pools, k, at) && ListedAt(c.pools, k, bt) ==> at == bt
    ensures forall at :: ListedAt(c.pools, k, at) ==>
      && k in c.podStates && at.entry == c.podStates[k].pod.nodeName
      && SameFigures(c.pools[at.pool].nodes[at.entry].pods[at.position], c.podStates[k].pod)
  {
    hide Flat, PoolOf, Accounted, Treed, EntriesOk, Placed, SameFigures, NamesUnique, PodsKnown;
    forall at | ListedAt(c.pools, k, at)
      ensures k in c.podStates && at.pool in c.pools && at.entry in c.pools[at.pool].nodes
      ensures at.position < |c.pools[at.pool].nodes[at.entry].pods| && at.entry == c.podStates[k].pod.nodeName
      ensures SameFigures(c.pools[at.pool].nodes[at.entry].pods[at.position], c.podStates[k].pod)
    {
      PlaceFacts(c.pools, c.podStates, k, at);
    }
    forall at, bt | ListedAt(c.pools, k, at) && ListedAt(c.pools, k, bt)
      ensures at == bt
    {
      OnePlace(c.pools, c.podStates, k, at, bt);
    }
    if k in c.podStates {
      KnownIsListed(c.pools, c.podStates, k);
    }
  }

  lemma KnownIsListed(pools: Pools, podStates: map<string, PodState>, k: string)
    requires PodsKnown(Flat(pools), podStates) && k in podStates
    ensures exists at :: ListedAt(pools, k, at)
  {
    hide Flat, PoolOf;
    var x := podStates[k].pod.nodeName;
    assert Found(Flat(pools), k, podStates[k].pod);
    FlatFrom(pools, x);
    assert ListedAt(pools, k, Place(PoolOf(pools, x), x, FindPod(Flat(pools)[x].pods, k)));
  }

  // ----- the pools' side -----

  function EntryIn(flat: map<string, NodeInfo>, x: string): NodeInfo {
    if x in flat then flat[x] else Empty
  }

  lemma PlacedKept(mt: Matcher, a: Pools, b: Pools)
    requires Placed(mt, a) && SameSpecs(a, b)
    requires forall x :: x in Flat(b) && Flat(b)[x].node.Some? ==>
        x in Flat(a) && Flat(a)[x].node == Flat(b)[x].node && PoolOf(b, x) == PoolOf(a, x)
    ensures Placed(mt, b)
  {
    hide PoolOf, Flat, Home, SameSpecs;
    forall x | x in Flat(b) && Flat(b)[x].node.Some?
      ensures PoolOf(b, x) == Home(mt, b, Flat(b)[x].node.value)
    {
      SameSpecsSameHome(mt, a, b, Flat(b)[x].node.value, {});
    }
  }

  /** Putting a pod in changes its node's entry and nothing else. */
  lemma PodInLaid(mt: Matcher, pools: Pools, pod: Pod)
    requires Laid(pools) && pod.nodeName != ""
    ensures Laid(PodIn(pools, pod)) && SameSpecs(pools, PodIn(pools, pod))
    ensures Placed(mt, pools) ==> Placed(mt, PodIn(pools, pod))
    ensures Flat(PodIn(pools, pod)) == Flat(pools)[pod.nodeName := AddPod(EntryIn(Flat(pools), pod.nodeName), pod)]
    ensures forall y :: y in Flat(pools) ==> PoolOf(PodIn(pools, pod), y) == PoolOf(pools, y)
  {
    hide PoolOf, Flat, NamesUnique, Placed, AddPodTo, Charge;
    var n, x := TargetPool(pools, pod), pod.nodeName;
    PlaceOf(pools, pod);
    var q := PodIn(pools, pod);
    AddPodParts(pools[n], pod);
    PutLaid(pools, n, q[n], x, AddPod(EntryIn(Flat(pools), x), pod));
    if Placed(mt, pools) {
      PlacedKept(mt, pools, q);
    }
  }

  /** The entry that a pod with a node goes to. */
  lemma PlaceOf(pools: Pools, pod: Pod)
    requires Laid(pools) && pod.nodeName != ""
    ensures var n, x := TargetPool(pools, pod), pod.nodeName;
      && n in pools && EntryIn(Flat(pools), x) == EntryOf(pools[n], x) && (x in Flat(pools) <==> x in pools[n].nodes)
      && (EntryOf(pools[n], x).node.Some? ==> EntryOf(pools[n], x).node.value.name == x)
      && (x in Flat(pools) ==> PoolOf(pools, x) == n)
  {
    hide PoolOf, Flat, NamesUnique;
    TargetExists(pools, pod);
    if pod.nodeName in Flat(pools) {
      FlatFrom(pools, pod.nodeName);
    } else {
      NotFlat(pools, pod.nodeName);
    }
  }

  lemma PodInOk(mt: Matcher, pools: Pools, pod: Pod)
    requires PoolsOk(pools) && Placed(mt, pools) && pod.nodeName != ""
    ensures PoolsOk(PodIn(pools, pod)) && Placed(mt, PodIn(pools, pod)) && SameSpecs(pools, PodIn(pools, pod))
    ensures Flat(PodIn(pools, pod)) == Flat(pools)[pod.nodeName := AddPod(EntryIn(Flat(pools), pod.nodeName), pod)]
  {
    hide Accounted, Consistent, PoolOf, Flat, Placed, AddPodTo, Laid, Treed, Charge;
    PodInLaid(mt, pools, pod);
    PlaceOf(pools, pod);
    var n := TargetPool(pools, pod);
    AddPodAccounted(pools[n], pod);
    AddPodTreed(pools, n, pod);
    EmptyConsistent();
    AddPodConsistent(EntryIn(Flat(pools), pod.nodeName), pod);
  }

  lemma AddPodTreed(pools: Pools, n: string, pod: Pod)
    requires Laid(pools) && n in pools && Treed(pools[n])
    ensures Treed(AddPodTo(pools[n], pod))
  {
    hide SpotsOf, AddPodTo;
    AddPodParts(pools[n], pod);
    SpotsKept(pools[n].nodes, pod.nodeName, AddPod(EntryOf(pools[n], pod.nodeName), pod));
  }

  /** The pod is listed at its node's entry, with these figures. */
  ghost predicate ListedAs(flat: map<string, NodeInfo>, pod: Pod) {
    && pod.uid != "" && pod.nodeName != "" && pod.nodeName in flat && HasPod(flat[pod.nodeName].pods, pod.uid)
    && SameFigures(flat[pod.nodeName].pods[FindPod(flat[pod.nodeName].pods, pod.uid)], pod)
  }

  /** Taking a pod out changes its node's entry and nothing else. */
  lemma PodOutLaid(mt: Matcher, pools: Pools, pod: Pod)
    requires Laid(pools) && CanTakeOut(pools, pod)
    ensures Laid(PodOut(pools, pod)) && SameSpecs(pools, PodOut(pools, pod))
    ensures Placed(mt, pools) ==> Placed(mt, PodOut(pools, pod))
    ensures pod.nodeName in Flat(pools) && HasPod(Flat(pools)[pod.nodeName].pods, pod.uid)
    ensures Flat(PodOut(pools, pod)) == Settle(Flat(pools), pod.nodeName, RemovePod(Flat(pools)[pod.nodeName], pod))
    ensures forall y :: y in Flat(PodOut(pools, pod)) ==> PoolOf(PodOut(pools, pod), y) == PoolOf(pools, y)
  {
    hide PoolOf, Flat, NamesUnique, Placed, RemovePodFrom, Discharge, FindPod;
    var n, x := TargetPool(pools, pod), pod.nodeName;
    TargetExists(pools, pod);
    LaidNamed(pools, n, x);
    var e' := RemovePod(Flat(pools)[x], pod);
    var q := PodOut(pools, pod);
    RemovePodParts(pools[n], pod);
    if e'.pods == [] && e'.node.None? {
      DropLaid(pools, n, q[n], x);
    } else {
      PutLaid(pools, n, q[n], x, e');
    }
    if Placed(mt, pools) {
      PlacedKept(mt, pools, q);
    }
  }

  /** Taking a listed pod out succeeds and leaves sound pools sound. */
  lemma PodOutOk(mt: Matcher, pools: Pools, pod: Pod)
    requires PoolsOk(pools) && Placed(mt, pools) && ListedAs(Flat(pools), pod)
    ensures CanTakeOut(pools, pod)
    ensures PoolsOk(PodOut(pools, pod)) && Placed(mt, PodOut(pools, pod)) && SameSpecs(pools, PodOut(pools, pod))
    ensures Flat(PodOut(pools, pod)) == Settle(Flat(pools), pod.nodeName, RemovePod(Flat(pools)[pod.nodeName], pod))
  {
    hide Accounted, Consistent, PoolOf, Flat, Placed, RemovePodFrom, Laid, Treed, FindPod, Discharge;
    PlaceOf(pools, pod);
    var n := TargetPool(pools, pod);
    PodOutLaid(mt, pools, pod);
    RemovePodAccounted(pools[n], pod);
    RemovePodTreed(pools, n, pod);
    RemovePodConsistent(Flat(pools)[pod.nodeName], pod);
  }

  lemma RemovePodTreed(pools: Pools, n: string, pod: Pod)
    requires Laid(pools) && n in pools && Treed(pools[n]) && Holds(pools[n], pod)
    ensures Treed(RemovePodFrom(pools[n], pod))
  {
    hide SpotsOf, RemovePodFrom, FindPod;
    RemovePodParts(pools[n], pod);
    SpotsKept(pools[n].nodes, pod.nodeName, RemovePod(pools[n].nodes[pod.nodeName], pod));
  }

  // ----- the pods' side -----

  lemma HasPodIff(pods: seq<Pod>, uid: string)
    ensures HasPod(pods, uid) <==> exists i :: 0 <= i < |pods| && pods[i].uid == uid
  {
  }

  lemma AppendedPods(pods: seq<Pod>, pod: Pod, uid: string)
    ensures HasPod(pods + [pod], uid) <==> HasPod(pods, uid) || uid == pod.uid
  {
    HasPodIff(pods, uid);
    HasPodIff(pods + [pod], uid);
    var all := pods + [pod];
    if HasPod(pods, uid) {
      assert all[FindPod(pods, uid)].uid == uid;
    } else if uid == pod.uid {
      assert all[|pods|].uid == uid;
    }
  }

  lemma SwapRemovedPods(pods: seq<Pod>, i: nat, uid: string)
    requires i < |pods| && forall a, b :: 0 <= a < b < |pods| ==> pods[a].uid != pods[b].uid
    ensures HasPod(SwapRemoved(pods, i), uid) <==> HasPod(pods, uid) && uid != pods[i].uid
    ensures forall a, b :: 0 <= a < b < |pods| - 1 ==> SwapRemoved(pods, i)[a].uid != SwapRemoved(pods, i)[b].uid
    ensures forall a :: 0 <= a < |pods| - 1 ==>
      SwapRemoved(pods, i)[a] in pods && SwapRemoved(pods, i)[a].uid != pods[i].uid
  {
    hide FindPod;
    var s, last := SwapRemoved(pods, i), |pods| - 1;
    HasPodIff(pods, uid);
    HasPodIff(s, uid);
    assert forall a :: 0 <= a < last ==> s[a] == pods[if a == i then last else a];
    if HasPod(pods, uid) && uid != pods[i].uid {
      var j :| 0 <= j < |pods| && pods[j].uid == uid;
      assert s[if j == last then i else j].uid == uid;
    }
  }

  lemma EntryListed(flat: map<string, NodeInfo>, podStates: map<string, PodState>, x: string)
    requires PodsKnown(flat, podStates)
    ensures forall i :: 0 <= i < |EntryIn(flat, x).pods| ==> Listed(x, EntryIn(flat, x).pods[i], podStates)
    ensures forall i, j :: 0 <= i < j < |EntryIn(flat, x).pods| ==>
      EntryIn(flat, x).pods[i].uid != EntryIn(flat, x).pods[j].uid
  {
    hide Listed, Found;
  }

  /** A new pod put in at its node is known from then on. */
  lemma KnownAdd(flat: map<string, NodeInfo>, podStates: map<string, PodState>, pod: Pod, ps: PodState)
    requires PodsKnown(flat, podStates) && pod.uid !in podStates && pod.uid != "" && pod.nodeName != "" && ps.pod == pod
    ensures PodsKnown(flat[pod.nodeName := AddPod(EntryIn(flat, pod.nodeName), pod)], podStates[pod.uid := ps])
  {
    hide FindPod, HasPod, Charge;
    var x := pod.nodeName;
    var e := EntryIn(flat, x);
    var f, s := flat[x := AddPod(e, pod)], podStates[pod.uid := ps];
    EntryListed(flat, podStates, x);
    forall y, i | y in f && 0 <= i < |f[y].pods|
      ensures Listed(y, f[y].pods[i], s)
    {
      if y == x {
        assert i < |e.pods| ==> Listed(x, e.pods[i], podStates);
      } else {
        assert Listed(y, flat[y].pods[i], podStates);
      }
    }
    forall k | k in s
      ensures Found(f, k, s[k].pod)
    {
      AppendedPods(e.pods, pod, k);
      if k in podStates {
        assert Found(flat, k, podStates[k].pod);
      }
    }
  }

  /** A known pod is listed, and taking it out makes it unknown and leaves the others known. */
  lemma KnownRemove(flat: map<string, NodeInfo>, podStates: map<string, PodState>, pod: Pod)
    requires PodsKnown(flat, podStates) && pod.uid in podStates && SameFigures(pod, podStates[pod.uid].pod)
    ensures ListedAs(flat, pod)
    ensures PodsKnown(Settle(flat, pod.nodeName, RemovePod(flat[pod.nodeName], pod)), podStates - {pod.uid})
  {
    hide Discharge, FindPod;
    var x := pod.nodeName;
    assert Found(flat, pod.uid, podStates[pod.uid].pod);
    var e := flat[x];
    var i := FindPod(e.pods, pod.uid);
    assert Listed(x, e.pods[i], podStates);
    var f, s := Settle(flat, x, RemovePod(e, pod)), podStates - {pod.uid};
    SwapRemovedPods(e.pods, i, pod.uid);
    forall y, j | y in f && 0 <= j < |f[y].pods|
      ensures Listed(y, f[y].pods[j], s)
    {
      StillListed(flat, podStates, pod, y, f[y].pods[j]);
    }
    forall k | k in s
      ensures Found(f, k, s[k].pod)
    {
      assert Found(flat, k, podStates[k].pod);
      SwapRemovedPods(e.pods, i, k);
    }
  }

  lemma StillListed(flat: map<string, NodeInfo>, podStates: map<string, PodState>, pod: Pod, y: string, q: Pod)
    requires PodsKnown(flat, podStates) && pod.uid in podStates && SameFigures(pod, podStates[pod.uid].pod)
    requires y in flat && q in flat[y].pods && (y == pod.nodeName ==> q.uid != pod.uid)
    ensures Listed(y, q, podStates - {pod.uid})
  {
    hide HasPod;
    var k :| 0 <= k < |flat[y].pods| && flat[y].pods[k] == q;
    assert Listed(y, flat[y].pods[k], podStates);
    if y != pod.nodeName {
      NotOnTwoNodes(flat, podStates, pod, y, k);
    }
  }

  lemma NotOnTwoNodes(flat: map<string, NodeInfo>, podStates: map<string, PodState>, pod: Pod, y: string, j: nat)
    requires PodsKnown(flat, podStates) && pod.uid in podStates && SameFigures(pod, podStates[pod.uid].pod)
    requires y in flat && y != pod.nodeName && j < |flat[y].pods|
    ensures flat[y].pods[j].uid != pod.uid
  {
    assert Listed(y, flat[y].pods[j], podStates);
  }

  /** A stored pod may be replaced by an object with the same figures. */
  lemma KnownReplace(flat: map<string, NodeInfo>, podStates: map<string, PodState>, k: string, ps: PodState)
    requires PodsKnown(flat, podStates) && k in podStates && SameFigures(ps.pod, podStates[k].pod)
    ensures PodsKnown(flat, podStates[k := ps])
  {
    hide FindPod, HasPod;
    forall x, i | x in flat && 0 <= i < |flat[x].pods|
      ensures Listed(x, flat[x].pods[i], podStates[k := ps])
    {
      assert Listed(x, flat[x].pods[i], podStates);
    }
    var s := podStates[k := ps];
    forall j | j in s
      ensures Found(flat, j, s[j].pod)
    {
      assert Found(flat, j, podStates[j].pod);
    }
  }

  // ----- the state machine -----

  datatype PodEvent =
    | AssumePod(pod: Pod)
    | FinishBindingOf(pod: Pod, now: int)
    | ForgetPod(pod: Pod)
    | AddPodEvent(pod: Pod)
    | UpdatePodEvent(oldPod: Pod, newPod: Pod)
    | RemovePodEvent(pod: Pod)
    | ExpirePod(key: string, now: int)

  ghost function Apply(c: Cache, ev: PodEvent, ttl: int): (Cache, Outcome)
    requires Keyed(c.pools)
  {
    match ev
    case AssumePod(pod) => Assume(c, pod)
    case FinishBindingOf(pod, now) => FinishBinding(c, pod, now, ttl)
    case ForgetPod(pod) => Forget(c, pod)
    case AddPodEvent(pod) => Add(c, pod)
    case UpdatePodEvent(oldPod, newPod) => Update(c, oldPod, newPod)
    case RemovePodEvent(pod) => Remove(c, pod)
    case ExpirePod(key, now) => if Expired(c, key, now) then Expire(c, key) else (c, Done)
  }

  /** What the cache's callers guarantee: pods reach it with a node, and an event about a stored pod
      carries its figures. */
  ghost predicate Delivered(c: Cache, ev: PodEvent) {
    match ev
    case AssumePod(pod) => pod.nodeName != ""
    case FinishBindingOf(_, _) => true
    case ForgetPod(pod) =>
      pod.uid in c.assumed && pod.uid in c.podStates && c.podStates[pod.uid].pod.nodeName == pod.nodeName ==>
        SameFigures(pod, c.podStates[pod.uid].pod)
    case AddPodEvent(pod) =>
      && pod.nodeName != ""
      && (pod.uid in c.assumed && pod.uid in c.podStates && c.podStates[pod.uid].pod.nodeName == pod.nodeName ==>
            SameFigures(pod, c.podStates[pod.uid].pod))
    case UpdatePodEvent(oldPod, newPod) =>
      oldPod.uid in c.podStates ==>
        SameFigures(oldPod, c.podStates[oldPod.uid].pod) && newPod.uid == oldPod.uid
    case RemovePodEvent(_) => true
    case ExpirePod(_, _) => true
  }

  lemma InvAdd(mt: Matcher, c: Cache, pod: Pod, ps: PodState, assumed: set<string>)
    requires Inv(mt, c) && pod.uid !in c.podStates && pod.uid != "" && pod.nodeName != ""
    requires ps == PodState(pod, None, false) && c.assumed <= assumed <= c.assumed + {pod.uid}
    ensures Inv(mt, Cache(PodIn(c.pools, pod), c.podStates[pod.uid := ps], assumed))
  {
    hide PoolsOk, Placed, PodsKnown, Flat, PodIn;
    PodInOk(mt, c.pools, pod);
    KnownAdd(Flat(c.pools), c.podStates, pod, ps);
  }

  lemma InvRemove(mt: Matcher, c: Cache, pod: Pod)
    requires Inv(mt, c) && pod.uid in c.podStates && SameFigures(pod, c.podStates[pod.uid].pod)
    ensures CanTakeOut(c.pools, pod)
    ensures Inv(mt, Cache(PodOut(c.pools, pod), c.podStates - {pod.uid}, c.assumed - {pod.uid}))
    ensures SameSpecs(c.pools, PodOut(c.pools, pod))
  {
    hide Placed, PodsKnown, Flat, PodOut, NamesUnique, AllAccounted, EntriesOk, Settle, RemovePod, CanTakeOut;
    KnownRemove(Flat(c.pools), c.podStates, pod);
    PodOutOk(mt, c.pools, pod);
  }

  lemma InvReplace(mt: Matcher, c: Cache, k: string, ps: PodState, assumed: set<string>)
    requires Inv(mt, c) && k in c.podStates && SameFigures(ps.pod, c.podStates[k].pod) && assumed <= c.assumed
    requires k in assumed && ps.bindingFinished ==> ps.deadline.Some?
    ensures Inv(mt, Cache(c.pools, c.podStates[k := ps], assumed))
  {
    hide PoolsOk, Placed, PodsKnown, Flat;
    KnownReplace(Flat(c.pools), c.podStates, k, ps);
  }

  lemma InvFacts(mt: Matcher, c: Cache)
    requires Inv(mt, c)
    ensures Keyed(c.pools) && c.assumed <= c.podStates.Keys
    ensures forall k :: k in c.podStates ==> k != "" && c.podStates[k].pod.uid == k && c.podStates[k].pod.nodeName != ""
  {
    forall k | k in c.podStates
      ensures k != "" && c.podStates[k].pod.uid == k && c.podStates[k].pod.nodeName != ""
    {
      assert Found(Flat(c.pools), k, c.podStates[k].pod);
    }
  }

  /** A known pod that changes places: out with the stored object, in with the new one. */
  lemma InvSwap(mt: Matcher, c: Cache, stored: Pod, pod: Pod, ps: PodState, assumed: set<string>)
    requires Inv(mt, c) && pod.uid == stored.uid && stored.uid in c.podStates && pod.nodeName != ""
    requires SameFigures(stored, c.podStates[stored.uid].pod)
    requires ps.pod == pod && assumed == c.assumed - {pod.uid}
    ensures CanTakeOut(c.pools, stored) && Keyed(PodOut(c.pools, stored))
    ensures Inv(mt, Cache(PodIn(PodOut(c.pools, stored), pod), c.podStates[pod.uid := ps], assumed))
  {
    hide PoolsOk, Placed, PodsKnown, Flat, PodIn, PodOut, CanTakeOut, SameFigures;
    InvFacts(mt, c);
    InvRemove(mt, c, stored);
    PodOutKeyed(c.pools, stored);
    var mid := Cache(PodOut(c.pools, stored), c.podStates - {pod.uid}, assumed);
    PodInOk(mt, mid.pools, pod);
    KnownAdd(Flat(mid.pools), mid.podStates, pod, ps);
    assert mid.podStates[pod.uid := ps] == c.podStates[pod.uid := ps];
  }

  /** The event is about an added pod and names another node than the pod is on. */
  predicate Misdirected(c: Cache, ev: PodEvent) {
    match ev
    case UpdatePodEvent(oldPod, newPod) => OnAnotherNode(c, oldPod.uid, newPod.nodeName)
    case RemovePodEvent(pod) => OnAnotherNode(c, pod.uid, pod.nodeName)
    case _ => false
  }

  predicate OnAnotherNode(c: Cache, uid: string, nodeName: string) {
    uid != "" && uid in c.podStates && uid !in c.assumed && c.podStates[uid].pod.nodeName != nodeName
  }

  /** Every event keeps the invariant, no removal fails, and the process is ended exactly by an event
      that names another node. */
  lemma EventKeepsInv(mt: Matcher, c: Cache, ev: PodEvent, ttl: int)
    requires Inv(mt, c) && Delivered(c, ev)
    ensures Keyed(c.pools) && Inv(mt, Apply(c, ev, ttl).0)
    ensures Apply(c, ev, ttl).1 != Failed(PodNotFound)
    ensures Apply(c, ev, ttl).1 == Failed(CacheCorrupted) <==> Misdirected(c, ev)
  {
    hide Inv, PodIn, PodOut, CanTakeOut, Keyed;
    InvFacts(mt, c);
    match ev
    case AssumePod(pod) =>
      if pod.uid != "" && pod.uid !in c.podStates {
        InvAdd(mt, c, pod, PodState(pod, None, false), c.assumed + {pod.uid});
      }
    case FinishBindingOf(pod, now) =>
      if pod.uid in c.assumed {
        var ps := c.podStates[pod.uid].(deadline := Some(now + ttl), bindingFinished := true);
        InvReplace(mt, c, pod.uid, ps, c.assumed);
      }
    case ForgetPod(pod) =>
      if pod.uid in c.assumed && c.podStates[pod.uid].pod.nodeName == pod.nodeName {
        InvRemove(mt, c, pod);
      }
    case AddPodEvent(pod) =>
      if pod.uid != "" {
        AddKeepsInv(mt, c, pod);
      }
    case UpdatePodEvent(oldPod, newPod) =>
      if oldPod.uid in c.podStates && oldPod.uid !in c.assumed && !Misdirected(c, ev) {
        assert c.assumed - {newPod.uid} == c.assumed;
        InvSwap(mt, c, oldPod, newPod, c.podStates[oldPod.uid].(pod := newPod), c.assumed);
      }
    case RemovePodEvent(pod) =>
      if pod.uid in c.podStates && pod.uid !in c.assumed {
        assert c.assumed - {pod.uid} == c.assumed;
        InvRemove(mt, c, c.podStates[pod.uid].pod);
      }
    case ExpirePod(key, now) =>
      if Expired(c, key, now) {
        InvRemove(mt, c, c.podStates[key].pod);
      }
  }

  lemma AddKeepsInv(mt: Matcher, c: Cache, pod: Pod)
    requires Inv(mt, c) && Delivered(c, AddPodEvent(pod)) && pod.uid != ""
    ensures Keyed(c.pools) && Inv(mt, Add(c, pod).0)
  {
    hide Inv, PodIn, PodOut, CanTakeOut, Keyed;
    InvFacts(mt, c);
    if pod.uid in c.assumed {
      var ps := c.podStates[pod.uid];
      if ps.pod.nodeName == pod.nodeName {
        InvReplace(mt, c, pod.uid, ps.(deadline := None, pod := pod), c.assumed - {pod.uid});
      } else {
        InvSwap(mt, c, ps.pod, pod, ps.(deadline := None, pod := pod), c.assumed - {pod.uid});
      }
    } else if pod.uid !in c.podStates {
      InvAdd(mt, c, pod, PodState(pod, None, false), c.assumed);
    }
  }

  // ----- the diagram -----

  datatype Phase = Unknown | Assumed | Added

  function PhaseOf(c: Cache, k: string): Phase {
    if k !in c.podStates then Unknown else if k in c.assumed then Assumed else Added
  }

  /** The phases change only along the arrows of the documented diagram, and only for the pod the
      event is about. */
  lemma PhasesFollowDiagram(mt: Matcher, c: Cache, ev: PodEvent, ttl: int, k: string)
    requires Inv(mt, c) && Delivered(c, ev)
    ensures Keyed(c.pools)
    ensures var a, b := PhaseOf(c, k), PhaseOf(Apply(c, ev, ttl).0, k);
      || a == b
      || (ev.AssumePod? && k == ev.pod.uid && a.Unknown? && b.Assumed?)
      || (ev.ForgetPod? && k == ev.pod.uid && a.Assumed? && b.Unknown?)
      || (ev.ExpirePod? && k == ev.key && a.Assumed? && b.Unknown?)
      || (ev.AddPodEvent? && k == ev.pod.uid && (a.Assumed? || a.Unknown?) && b.Added?)
      || (ev.RemovePodEvent? && k == ev.pod.uid && a.Added? && b.Unknown?)
    ensures ev.AddPodEvent? && ev.pod.uid != "" ==> PhaseOf(Apply(c, ev, ttl).0, ev.pod.uid).Added?
    ensures ev.AssumePod? && ev.pod.uid != "" && PhaseOf(c, ev.pod.uid).Unknown? ==>
        PhaseOf(Apply(c, ev, ttl).0, ev.pod.uid).Assumed?
    ensures ev.ExpirePod? && Expired(c, ev.key, ev.now) ==> PhaseOf(Apply(c, ev, ttl).0, ev.key).Unknown?
  {
    hide Inv, PodIn, PodOut, CanTakeOut, Keyed;
    InvFacts(mt, c);
    EventKeepsInv(mt, c, ev, ttl);
  }

  // ----- placement alone -----

  /** A pod reaches the cache with a node. */
  predicate WithNode(ev: PodEvent) {
    match ev
    case AssumePod(pod) => pod.nodeName != ""
    case AddPodEvent(pod) => pod.nodeName != ""
    case _ => true
  }

  lemma InvIsWellPlaced(mt: Matcher, c: Cache)
    requires Inv(mt, c)
    ensures WellPlaced(mt, c)
  {
    hide Laid, Placed, Flat, HasPod;
    forall k | k in c.podStates ensures c.podStates[k].pod.nodeName != "" {
      assert Found(Flat(c.pools), k, c.podStates[k].pod);
    }
  }

  lemma PlacedIn(mt: Matcher, c: Cache, pod: Pod, podStates: map<string, PodState>, assumed: set<string>)
    requires WellPlaced(mt, c) && pod.nodeName != "" && Addressed(podStates)
    requires AssumedOk(Cache(c.pools, podStates, assumed))
    ensures WellPlaced(mt, Cache(PodIn(c.pools, pod), podStates, assumed))
  {
    hide Laid, Placed, Flat, PodIn;
    PodInLaid(mt, c.pools, pod);
  }

  lemma PlacedOut(mt: Matcher, c: Cache, pod: Pod, podStates: map<string, PodState>, assumed: set<string>)
    requires WellPlaced(mt, c) && Addressed(podStates) && CanTakeOut(c.pools, pod)
    requires AssumedOk(Cache(c.pools, podStates, assumed))
    ensures WellPlaced(mt, Cache(PodOut(c.pools, pod), podStates, assumed))
  {
    hide Laid, Placed, Flat, PodOut, CanTakeOut;
    PodOutLaid(mt, c.pools, pod);
  }

  /** Every pod event keeps the placement, whatever the sums and the known pods are. */
  lemma EventKeepsPlacement(mt: Matcher, c: Cache, ev: PodEvent, ttl: int)
    requires WellPlaced(mt, c) && WithNode(ev)
    ensures WellPlaced(mt, Apply(c, ev, ttl).0)
  {
    hide Laid, Placed, PodIn, PodOut, CanTakeOut;
    LaidKeyed(c.pools);
    var d := Apply(c, ev, ttl).0;
    match ev
    case AssumePod(pod) =>
      if pod.uid != "" && pod.uid !in c.podStates {
        PlacedIn(mt, c, pod, d.podStates, d.assumed);
      }
    case FinishBindingOf(pod, now) =>
    case ForgetPod(pod) =>
      if Forget(c, pod).1.Done? {
        PlacedOut(mt, c, pod, d.podStates, d.assumed);
      }
    case AddPodEvent(pod) => AddKeepsPlacement(mt, c, pod);
    case UpdatePodEvent(oldPod, newPod) => UpdateKeepsPlacement(mt, c, oldPod, newPod);
    case RemovePodEvent(pod) =>
      if Remove(c, pod).1.Done? {
        PlacedOut(mt, c, c.podStates[pod.uid].pod, d.podStates, d.assumed);
      }
    case ExpirePod(key, now) =>
      if Expired(c, key, now) && CanTakeOut(c.pools, c.podStates[key].pod) {
        PlacedOut(mt, c, c.podStates[key].pod, d.podStates, d.assumed);
      }
  }

  lemma AddKeepsPlacement(mt: Matcher, c: Cache, pod: Pod)
    requires WellPlaced(mt, c) && pod.nodeName != ""
    ensures Keyed(c.pools) && WellPlaced(mt, Add(c, pod).0)
  {
    hide Laid, Placed, PodIn, PodOut, CanTakeOut;
    LaidKeyed(c.pools);
    var d := Add(c, pod).0;
    if pod.uid in c.podStates && pod.uid in c.assumed {
      var stored := c.podStates[pod.uid].pod;
      if stored.nodeName != pod.nodeName {
        if CanTakeOut(c.pools, stored) {
          PlacedOut(mt, c, stored, c.podStates, c.assumed);
          PodOutKeyed(c.pools, stored);
          PlacedIn(mt, Cache(PodOut(c.pools, stored), c.podStates, c.assumed), pod, d.podStates, d.assumed);
        } else {
          PlacedIn(mt, c, pod, d.podStates, d.assumed);
        }
      }
    } else if pod.uid != "" && pod.uid !in c.podStates {
      PlacedIn(mt, c, pod, d.podStates, d.assumed);
    }
  }

  lemma UpdateKeepsPlacement(mt: Matcher, c: Cache, oldPod: Pod, newPod: Pod)
    requires WellPlaced(mt, c)
    ensures Keyed(c.pools) && WellPlaced(mt, Update(c, oldPod, newPod).0)
  {
    hide Laid, Placed, PodIn, PodOut, CanTakeOut;
    LaidKeyed(c.pools);
    var d := Update(c, oldPod, newPod).0;
    if Update(c, oldPod, newPod).1.Done? {
      PodOutKeyed(c.pools, oldPod);
      PlacedOut(mt, c, oldPod, c.podStates, c.assumed);
      PlacedIn(mt, Cache(PodOut(c.pools, oldPod), c.podStates, c.assumed), newPod, d.podStates, d.assumed);
    }
  }
}
