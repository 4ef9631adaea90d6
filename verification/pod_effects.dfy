/** What a pod event does, seen from outside (pkg/scheduler/internal/cache/cache.go): the event's pod
    follows a small automaton, no other pod changes, and every node is charged with its known pods. */
module PodEffects {
  import opened Api
  import opened Resources
  import opened NodeInfos
  import opened MapSums
  import opened PoolStates
  import opened PoolMaps
  import opened CachePods

  // ----- one pod's automaton -----

  /** What the cache knows of one pod. */
  datatype Record = Gone | Known(pod: Pod, assumed: bool, deadline: Option<int>, bindingFinished: bool)

  function RecordOf(c: Cache, k: string): Record {
    if k !in c.podStates then Gone
    else Known(c.podStates[k].pod, k in c.assumed, c.podStates[k].deadline, c.podStates[k].bindingFinished)
  }

  /** The pod an event is about. */
  function Subject(ev: PodEvent): string {
    match ev
    case AssumePod(pod) => pod.uid
    case FinishBindingOf(pod, _) => pod.uid
    case ForgetPod(pod) => pod.uid
    case AddPodEvent(pod) => pod.uid
    case UpdatePodEvent(oldPod, _) => oldPod.uid
    case RemovePodEvent(pod) => pod.uid
    case ExpirePod(key, _) => key
  }

  /** What becomes of the event's pod: a pod that is not known can be assumed or added; an assumed one
      confirmed, forgotten where it was assumed, or after its deadline expired; an added one updated or
      removed on its node. */
  function Next(was: Record, ev: PodEvent, ttl: int): (Record, Outcome) {
    if !ev.ExpirePod? && Subject(ev) == "" then (was, Failed(EmptyUid))
    else
      match was
      case Gone => (
        match ev
        case AssumePod(pod) => (Known(pod, true, None, false), Done)
        case AddPodEvent(pod) => (Known(pod, false, None, false), Done)
        case FinishBindingOf(_, _) => (Gone, Done)
        case ExpirePod(_, _) => (Gone, Done)
        case ForgetPod(_) => (Gone, Failed(PodNotAssumed))
        case UpdatePodEvent(_, _) => (Gone, Failed(PodNotAdded))
        case RemovePodEvent(_) => (Gone, Failed(PodNotAdded))
      )
      case Known(stored, true, deadline, finished) => (
        match ev
        case AssumePod(_) => (was, Failed(PodAlreadyKnown))
        case AddPodEvent(pod) => (Known(pod, false, None, finished), Done)
        case FinishBindingOf(_, now) => (Known(stored, true, Some(now + ttl), true), Done)
        case ExpirePod(_, now) =>
          (if finished && deadline.Some? && deadline.value < now then Gone else was, Done)
        case ForgetPod(pod) =>
          if stored.nodeName == pod.nodeName then (Gone, Done) else (was, Failed(AssumedElsewhere))
        case UpdatePodEvent(_, _) => (was, Failed(PodNotAdded))
        case RemovePodEvent(_) => (was, Failed(PodNotAdded))
      )
      case Known(stored, false, deadline, finished) => (
        match ev
        case AssumePod(_) => (was, Failed(PodAlreadyKnown))
        case AddPodEvent(_) => (was, Failed(PodAlreadyKnown))
        case FinishBindingOf(_, _) => (was, Done)
        case ExpirePod(_, _) => (was, Done)
        case ForgetPod(pod) =>
          (was, Failed(if stored.nodeName == pod.nodeName then PodNotAssumed else AssumedElsewhere))
        case UpdatePodEvent(_, newPod) =>
          if stored.nodeName == newPod.nodeName then (Known(newPod, false, deadline, finished), Done)
          else (was, Failed(CacheCorrupted))
        case RemovePodEvent(pod) =>
          if stored.nodeName == pod.nodeName then (Gone, Done) else (was, Failed(CacheCorrupted))
      )
  }

  /** Every delivered event moves its pod along the automaton, and the other pods not at all. */
  lemma PodFollowsAutomaton(mt: Matcher, c: Cache, ev: PodEvent, ttl: int)
    requires Inv(mt, c) && Delivered(c, ev)
    ensures Keyed(c.pools)
    ensures var (d, r) := Apply(c, ev, ttl);
      && (RecordOf(d, Subject(ev)), r) == Next(RecordOf(c, Subject(ev)), ev, ttl)
      && forall k :: k != Subject(ev) ==> RecordOf(d, k) == RecordOf(c, k)
  {
    hide Inv, PodIn, PodOut, CanTakeOut, Keyed, Delivered;
    InvFacts(mt, c);
    EventKeepsInv(mt, c, ev, ttl);
  }

  // ----- where the pods are -----

  /** The pod is on entry `x` of pool `n`. */
  ghost predicate On(pools: Pools, n: string, x: string, pod: Pod) {
    n in pools && x in pools[n].nodes && pod in pools[n].nodes[x].pods
  }

  ghost predicate NodeAt(pools: Pools, n: string, x: string, node: Node) {
    n in pools && x in pools[n].nodes && pools[n].nodes[x].node == Some(node)
  }

  lemma OnIff(pools: Pools, n: string, x: string)
    requires NamesUnique(pools)
    ensures forall pod :: On(pools, n, x, pod) <==> PoolOf(pools, x) == n && pod in EntryIn(Flat(pools), x).pods
    ensures forall node ::
        NodeAt(pools, n, x, node) <==> PoolOf(pools, x) == n && EntryIn(Flat(pools), x).node == Some(node)
  {
    hide Flat, PoolOf, NamesUnique;
    if n in pools && x in pools[n].nodes {
      FlatAt(pools, n, x);
    }
    if x in Flat(pools) {
      FlatFrom(pools, x);
    }
  }

  /** Every pod but those of this uid is where it was, every Node too, and no pool changes its spec. */
  ghost predicate OthersStay(a: Pools, b: Pools, k: string) {
    && SameSpecs(a, b)
    && (forall n, x, q: Pod :: q.uid != k ==> (On(a, n, x, q) <==> On(b, n, x, q)))
    && (forall n, x, node :: NodeAt(a, n, x, node) <==> NodeAt(b, n, x, node))
  }

  lemma OthersStaySelf(a: Pools, k: string)
    ensures OthersStay(a, a, k)
  {
  }

  lemma OthersStayTwice(a: Pools, b: Pools, c: Pools, k: string)
    requires OthersStay(a, b, k) && OthersStay(b, c, k)
    ensures OthersStay(a, c, k)
  {
    hide NodeAt, On;
  }

  /** One entry changes, and only in the pods of one uid. */
  lemma OthersStayFrom(a: Pools, b: Pools, x: string, k: string)
    requires NamesUnique(a) && NamesUnique(b) && SameSpecs(a, b)
    requires forall y :: y != x ==> EntryIn(Flat(a), y) == EntryIn(Flat(b), y)
    requires forall y :: y in Flat(a) && y in Flat(b) ==> PoolOf(b, y) == PoolOf(a, y)
    requires x in Flat(a) || x in Flat(b)
    requires forall q: Pod :: q.uid != k ==> (q in EntryIn(Flat(a), x).pods <==> q in EntryIn(Flat(b), x).pods)
    requires EntryIn(Flat(a), x).node == EntryIn(Flat(b), x).node
    requires forall y :: y != x ==> (y in Flat(a) <==> y in Flat(b))
    ensures OthersStay(a, b, k)
  {
    hide Flat, PoolOf, NamesUnique, On, NodeAt, SameSpecs;
    forall n, y, q: Pod | q.uid != k ensures On(a, n, y, q) <==> On(b, n, y, q) {
      BothIff(a, b, n, y);
    }
    forall n, y, node ensures NodeAt(a, n, y, node) <==> NodeAt(b, n, y, node) {
      BothIff(a, b, n, y);
    }
  }

  lemma BothIff(a: Pools, b: Pools, n: string, y: string)
    requires NamesUnique(a) && NamesUnique(b)
    ensures forall pod :: On(a, n, y, pod) <==> PoolOf(a, y) == n && pod in EntryIn(Flat(a), y).pods
    ensures forall node :: NodeAt(a, n, y, node) <==> PoolOf(a, y) == n && EntryIn(Flat(a), y).node == Some(node)
    ensures forall pod :: On(b, n, y, pod) <==> PoolOf(b, y) == n && pod in EntryIn(Flat(b), y).pods
    ensures forall node :: NodeAt(b, n, y, node) <==> PoolOf(b, y) == n && EntryIn(Flat(b), y).node == Some(node)
    ensures y !in Flat(a) && y !in Flat(b) ==> PoolOf(a, y) == PoolOf(b, y)
  {
    hide Flat, PoolOf, NamesUnique, On, NodeAt;
    OnIff(a, n, y);
    OnIff(b, n, y);
    if y !in Flat(a) && y !in Flat(b) {
      NotFlat(a, y);
      NotFlat(b, y);
    }
  }

  lemma PodInStays(mt: Matcher, pools: Pools, pod: Pod)
    requires Laid(pools) && pod.nodeName != ""
    ensures Keyed(pools) && OthersStay(pools, PodIn(pools, pod), pod.uid)
  {
    hide Flat, PoolOf, NamesUnique, SameSpecs, OthersStay, PodIn, Charge, Named, Keyed;
    LaidKeyed(pools);
    PodInLaid(mt, pools, pod);
    OthersStayFrom(pools, PodIn(pools, pod), pod.nodeName, pod.uid);
  }

  lemma PodOutStays(mt: Matcher, pools: Pools, pod: Pod)
    requires Laid(pools) && Keyed(pools) && CanTakeOut(pools, pod)
    ensures OthersStay(pools, PodOut(pools, pod), pod.uid)
  {
    hide Flat, PoolOf, NamesUnique, SameSpecs, OthersStay, PodOut, Discharge, FindPod, SwapRemoved, Named, Keyed;
    PodOutLaid(mt, pools, pod);
    OthersAfterRemoval(Flat(pools)[pod.nodeName].pods, pod.uid);
    OthersStayFrom(pools, PodOut(pools, pod), pod.nodeName, pod.uid);
  }

  lemma OthersAfterRemoval(pods: seq<Pod>, uid: string)
    requires HasPod(pods, uid)
    ensures forall q: Pod :: q.uid != uid ==> (q in pods <==> q in SwapRemoved(pods, FindPod(pods, uid)))
  {
    hide FindPod;
    var i, last := FindPod(pods, uid), |pods| - 1;
    var s := SwapRemoved(pods, i);
    forall q: Pod | q.uid != uid && q in pods ensures q in s {
      var j :| 0 <= j < |pods| && pods[j] == q;
      assert s[if j == last then i else j] == q;
    }
  }

  /** A pod of one uid out, and another of the same uid in. */
  lemma SwapStays(mt: Matcher, pools: Pools, out: Pod, pod: Pod)
    requires Laid(pools) && Keyed(pools) && CanTakeOut(pools, out) && pod.nodeName != "" && pod.uid == out.uid
    ensures Keyed(PodOut(pools, out)) && OthersStay(pools, PodIn(PodOut(pools, out), pod), pod.uid)
  {
    hide Laid, PodIn, PodOut, OthersStay, CanTakeOut, Keyed;
    PodOutLaid(mt, pools, out);
    PodOutStays(mt, pools, out);
    PodInStays(mt, PodOut(pools, out), pod);
    OthersStayTwice(pools, PodOut(pools, out), PodIn(PodOut(pools, out), pod), pod.uid);
  }

  /** Every delivered event leaves the other pods, all Nodes and the pools' specs where they are. */
  lemma OthersStayPut(mt: Matcher, c: Cache, ev: PodEvent, ttl: int)
    requires Inv(mt, c) && Delivered(c, ev)
    ensures Keyed(c.pools) && OthersStay(c.pools, Apply(c, ev, ttl).0.pools, Subject(ev))
  {
    hide PodIn, PodOut, CanTakeOut, Laid, OthersStay, Keyed, Placed, PodsKnown, Inv, SameFigures;
    InvIsWellPlaced(mt, c);
    LaidKeyed(c.pools);
    EventKeepsInv(mt, c, ev, ttl);
    OthersStaySelf(c.pools, Subject(ev));
    match ev
    case AssumePod(pod) => PodInStays(mt, c.pools, pod);
    case FinishBindingOf(_, _) =>
    case ForgetPod(pod) =>
      if CanTakeOut(c.pools, pod) {
        PodOutStays(mt, c.pools, pod);
      }
    case AddPodEvent(pod) => AddStays(mt, c, pod);
    case UpdatePodEvent(oldPod, newPod) =>
      if oldPod.uid != "" && PhaseOf(c, oldPod.uid).Added? && CanTakeOut(c.pools, oldPod) && !Misdirected(c, ev) {
        StoredUid(mt, c, oldPod.uid);
        SwapStays(mt, c.pools, oldPod, newPod);
      }
    case RemovePodEvent(pod) =>
      if pod.uid in c.podStates && CanTakeOut(c.pools, c.podStates[pod.uid].pod) {
        StoredUid(mt, c, pod.uid);
        PodOutStays(mt, c.pools, c.podStates[pod.uid].pod);
      }
    case ExpirePod(key, now) =>
      if key in c.podStates && CanTakeOut(c.pools, c.podStates[key].pod) {
        StoredUid(mt, c, key);
        PodOutStays(mt, c.pools, c.podStates[key].pod);
      }
  }

  lemma StoredUid(mt: Matcher, c: Cache, k: string)
    requires Inv(mt, c) && k in c.podStates
    ensures c.podStates[k].pod.uid == k && c.podStates[k].pod.nodeName != ""
  {
    hide PoolsOk, Placed, Flat;
    assert Found(Flat(c.pools), k, c.podStates[k].pod);
  }

  lemma AddStays(mt: Matcher, c: Cache, pod: Pod)
    requires Inv(mt, c) && Laid(c.pools) && Keyed(c.pools) && pod.nodeName != ""
    ensures OthersStay(c.pools, Add(c, pod).0.pools, pod.uid)
  {
    hide PodIn, PodOut, CanTakeOut, Laid, OthersStay, Keyed, Placed, PodsKnown, Inv;
    OthersStaySelf(c.pools, pod.uid);
    PodInStays(mt, c.pools, pod);
    if pod.uid in c.podStates {
      var stored := c.podStates[pod.uid].pod;
      StoredUid(mt, c, pod.uid);
      if CanTakeOut(c.pools, stored) {
        SwapStays(mt, c.pools, stored, pod);
      }
    }
  }

  // ----- what the nodes are charged -----

  /** What a known pod takes from entry `x`. */
  function ChargeAt(x: string, n: ResourceName): PodState -> int {
    (ps: PodState) => if ps.pod.nodeName == x then Amount(PodRequest(ps.pod), n) else 0
  }

  function Uids(pods: seq<Pod>, k: nat): set<string>
    requires k <= |pods|
  {
    set i | 0 <= i < k :: pods[i].uid
  }

  lemma {:induction false} TakenOff(pods: seq<Pod>, k: nat, podStates: map<string, PodState>, x: string,
                                    n: ResourceName)
    requires k <= |pods| && forall i :: 0 <= i < |pods| ==> Listed(x, pods[i], podStates)
    requires forall i, j :: 0 <= i < j < |pods| ==> pods[i].uid != pods[j].uid
    ensures Sum(podStates - Uids(pods, k), ChargeAt(x, n))
      == Sum(podStates, ChargeAt(x, n)) - PodSum(pods, k, RequestOf(n))
  {
    hide Sum, Amount, PodRequest;
    if k == 0 {
      assert podStates - Uids(pods, 0) == podStates;
    } else {
      var pod, before := pods[k - 1], Uids(pods, k - 1);
      TakenOff(pods, k - 1, podStates, x, n);
      assert Listed(x, pod, podStates);
      assert pod.uid !in before;
      assert podStates - Uids(pods, k) == podStates - before - {pod.uid};
      SumDrop(podStates - before, ChargeAt(x, n), pod.uid);
      SameFiguresSameRequest(pod, podStates[pod.uid].pod);
    }
  }

  /** The requested amounts of every entry are those of the known pods on that node. */
  lemma RequestedIsKnown(mt: Matcher, c: Cache, x: string, n: ResourceName)
    requires Inv(mt, c) && !n.PodCount?
    ensures Amount(EntryIn(Flat(c.pools), x).requested, n) == Sum(c.podStates, ChargeAt(x, n))
  {
    hide Flat, Accounted, Treed, Laid, Placed, PodRequest, Amount, Sum, PodSum, Consistent;
    var flat := Flat(c.pools);
    var pods := EntryIn(flat, x).pods;
    EntryListed(flat, c.podStates, x);
    TakenOff(pods, |pods|, c.podStates, x, n);
    var rest := c.podStates - Uids(pods, |pods|);
    forall k | k in rest ensures ChargeAt(x, n)(rest[k]) == 0 {
      ElsewhereOrListed(flat, c.podStates, x, k);
    }
    SumOfZeros(rest, ChargeAt(x, n));
    RequestedTotal(flat, x, n);
  }

  lemma ElsewhereOrListed(flat: map<string, NodeInfo>, podStates: map<string, PodState>, x: string, k: string)
    requires PodsKnown(flat, podStates) && k in podStates
    ensures podStates[k].pod.nodeName == x ==> k in Uids(EntryIn(flat, x).pods, |EntryIn(flat, x).pods|)
  {
    hide Listed;
    assert Found(flat, k, podStates[k].pod);
  }

  lemma RequestedTotal(flat: map<string, NodeInfo>, x: string, n: ResourceName)
    requires EntriesOk(flat) && !n.PodCount?
    ensures Amount(EntryIn(flat, x).requested, n)
      == PodSum(EntryIn(flat, x).pods, |EntryIn(flat, x).pods|, RequestOf(n))
  {
  }

  /** So every amount of every entry changes by what the event's pod brings there and takes away. */
  lemma EventCharges(mt: Matcher, c: Cache, ev: PodEvent, ttl: int, x: string, n: ResourceName)
    requires Inv(mt, c) && Delivered(c, ev) && !n.PodCount?
    ensures Keyed(c.pools)
    ensures var d, k := Apply(c, ev, ttl).0, Subject(ev);
      Amount(EntryIn(Flat(d.pools), x).requested, n)
      == Amount(EntryIn(Flat(c.pools), x).requested, n) + Brings(RecordOf(d, k), x, n) - Brings(RecordOf(c, k), x, n)
  {
    hide Inv, Apply, Flat, Amount, PodRequest, Sum, Delivered, Next;
    EventKeepsInv(mt, c, ev, ttl);
    PodFollowsAutomaton(mt, c, ev, ttl);
    var d, k := Apply(c, ev, ttl).0, Subject(ev);
    RequestedIsKnown(mt, c, x, n);
    RequestedIsKnown(mt, d, x, n);
    SumDrop(c.podStates, ChargeAt(x, n), k);
    SumDrop(d.podStates, ChargeAt(x, n), k);
    assert c.podStates - {k} == d.podStates - {k} by {
      forall j | j != k ensures j in c.podStates <==> j in d.podStates
        ensures j in c.podStates ==> c.podStates[j] == d.podStates[j]
      {
        assert RecordOf(d, j) == RecordOf(c, j);
      }
    }
  }

  function Brings(r: Record, x: string, n: ResourceName): int {
    if r.Known? && r.pod.nodeName == x then Amount(PodRequest(r.pod), n) else 0
  }

  // ----- the whole effect -----

  /** The pod is on its node's entry, once, with the figures the cache stored, or nowhere at all. */
  ghost predicate OnItsNode(c: Cache, k: string) {
    match RecordOf(c, k)
    case Gone => forall n, x, q: Pod :: On(c.pools, n, x, q) ==> q.uid != k
    case Known(stored, _, _, _) =>
      && (exists n, q :: On(c.pools, n, stored.nodeName, q) && SameFigures(q, stored))
      && forall n, x, q: Pod :: On(c.pools, n, x, q) && q.uid == k ==> x == stored.nodeName && SameFigures(q, stored)
  }

  lemma PodsInPlace(mt: Matcher, c: Cache, k: string)
    requires Inv(mt, c)
    ensures OnItsNode(c, k)
  {
    hide Inv, SameFigures;
    KnownPodHasOnePlace(mt, c, k);
    forall n, x, q: Pod | On(c.pools, n, x, q) && q.uid == k
      ensures k in c.podStates && x == c.podStates[k].pod.nodeName && SameFigures(q, c.podStates[k].pod)
    {
      var i :| 0 <= i < |c.pools[n].nodes[x].pods| && c.pools[n].nodes[x].pods[i] == q;
      assert ListedAt(c.pools, k, Place(n, x, i));
    }
    if k in c.podStates {
      var at :| ListedAt(c.pools, k, at);
      assert On(c.pools, at.pool, at.entry, c.pools[at.pool].nodes[at.entry].pods[at.position]);
    }
  }

  /** What an event does: its pod follows the automaton and is in place, the other pods are as and where
      they were, and every node is charged the difference. */
  ghost predicate Effect(c: Cache, ev: PodEvent, ttl: int, d: Cache, r: Outcome) {
    var k := Subject(ev);
    && (RecordOf(d, k), r) == Next(RecordOf(c, k), ev, ttl) && OnItsNode(d, k)
    && (forall j :: j != k ==> RecordOf(d, j) == RecordOf(c, j))
    && OthersStay(c.pools, d.pools, k)
    && forall x, n :: Charged(c, d, k, x, n)
  }

  ghost predicate Charged(c: Cache, d: Cache, k: string, x: string, n: ResourceName) {
    !n.PodCount? ==>
      Amount(EntryIn(Flat(d.pools), x).requested, n) - Amount(EntryIn(Flat(c.pools), x).requested, n)
      == Brings(RecordOf(d, k), x, n) - Brings(RecordOf(c, k), x, n)
  }

  lemma EventEffect(mt: Matcher, c: Cache, ev: PodEvent, ttl: int)
    requires Inv(mt, c) && Delivered(c, ev)
    ensures Keyed(c.pools) && Effect(c, ev, ttl, Apply(c, ev, ttl).0, Apply(c, ev, ttl).1)
  {
    hide Inv, Delivered, Apply, OthersStay, Next, OnItsNode, RecordOf, Flat, Brings, Amount;
    EventKeepsInv(mt, c, ev, ttl);
    PodFollowsAutomaton(mt, c, ev, ttl);
    OthersStayPut(mt, c, ev, ttl);
    PodsInPlace(mt, Apply(c, ev, ttl).0, Subject(ev));
    forall x, n ensures Charged(c, Apply(c, ev, ttl).0, Subject(ev), x, n) {
      if !n.PodCount? {
        EventCharges(mt, c, ev, ttl, x, n);
      }
    }
  }
}
