/** Node-level aggregates (pkg/scheduler/info/node_info.go) and the resource predicate that reads
    them (pkg/scheduler/algorithm/predicates/predicates.go). A NodeInfo is a value here; cloning
    one is using it twice. */
module NodeInfos {
  import opened Api
  import opened Resources

  datatype NodeInfo = NodeInfo(node: Option<Node>, pods: seq<Pod>, requested: Resource, allocatable: Resource)

  const Empty := NodeInfo(None, [], Zero, Zero)

  // ----- sums over pods -----

  /** The sum of a weight over the first `k` pods. */
  function PodSum(pods: seq<Pod>, k: nat, w: Pod -> int): int
    requires k <= |pods|
  {
    if k == 0 then 0 else PodSum(pods, k - 1, w) + w(pods[k - 1])
  }

  function Total(pods: seq<Pod>, w: Pod -> int): int { PodSum(pods, |pods|, w) }

  /** What a pod takes from its node. */
  function RequestOf(n: ResourceName): Pod -> int { pod => Amount(PodRequest(pod), n) }

  lemma {:induction false} SumOfAgreeing(a: seq<Pod>, b: seq<Pod>, k: nat, w: Pod -> int)
    requires k <= |a| && k <= |b| && forall j :: 0 <= j < k ==> a[j] == b[j]
    ensures PodSum(a, k, w) == PodSum(b, k, w)
  {
    if k > 0 {
      SumOfAgreeing(a, b, k - 1, w);
    }
  }

  lemma {:induction false} SumOfReplaced(pods: seq<Pod>, i: nat, pod: Pod, k: nat, w: Pod -> int)
    requires i < |pods| && k <= |pods|
    ensures PodSum(pods[i := pod], k, w) == PodSum(pods, k, w) + if i < k then w(pod) - w(pods[i]) else 0
  {
    if k > 0 {
      SumOfReplaced(pods, i, pod, k - 1, w);
    }
  }

  lemma TotalAppended(pods: seq<Pod>, pod: Pod, w: Pod -> int)
    ensures Total(pods + [pod], w) == Total(pods, w) + w(pod)
  {
    SumOfAgreeing(pods + [pod], pods, |pods|, w);
  }

  /** The source deletes by moving the last element into the gap. */
  function SwapRemoved(pods: seq<Pod>, i: nat): seq<Pod>
    requires i < |pods|
  {
    pods[i := pods[|pods| - 1]][..|pods| - 1]
  }

  lemma TotalSwapRemoved(pods: seq<Pod>, i: nat, w: Pod -> int)
    requires i < |pods|
    ensures Total(SwapRemoved(pods, i), w) == Total(pods, w) - w(pods[i])
  {
    var last := |pods| - 1;
    var moved := pods[i := pods[last]];
    SumOfAgreeing(SwapRemoved(pods, i), moved, last, w);
    SumOfReplaced(pods, i, pods[last], last, w);
  }

  // ----- operations -----

  /** The first position whose pod has this uid; the length if there is none. */
  function FindPod(pods: seq<Pod>, uid: string): (i: nat)
    ensures i <= |pods|
    ensures forall j :: 0 <= j < i ==> pods[j].uid != uid
    ensures i < |pods| ==> pods[i].uid == uid
  {
    FindFrom(pods, uid, 0)
  }

  function FindFrom(pods: seq<Pod>, uid: string, k: nat): (i: nat)
    requires k <= |pods|
    ensures k <= i <= |pods|
    ensures forall j :: k <= j < i ==> pods[j].uid != uid
    ensures i < |pods| ==> pods[i].uid == uid
    decreases |pods| - k
  {
    if k == |pods| || pods[k].uid == uid then k else FindFrom(pods, uid, k + 1)
  }

  predicate HasPod(pods: seq<Pod>, uid: string) { FindPod(pods, uid) < |pods| }

  /** requestedResource leaves the pod count alone. */
  function Charge(r: Resource, d: Resource): (s: Resource)
    ensures forall n :: Amount(s, n) == (if n.PodCount? then Amount(r, n) else Amount(r, n) + Amount(d, n))
  {
    Plus(r, d).(allowedPodNumber := r.allowedPodNumber)
  }

  function Discharge(r: Resource, d: Resource): (s: Resource)
    ensures forall n :: Amount(s, n) == (if n.PodCount? then Amount(r, n) else Amount(r, n) - Amount(d, n))
  {
    Sub(r, d).(allowedPodNumber := r.allowedPodNumber)
  }

  function AddPod(ni: NodeInfo, pod: Pod): NodeInfo {
    ni.(pods := ni.pods + [pod], requested := Charge(ni.requested, PodRequest(pod)))
  }

  /** Takes out the first pod with the argument's uid, and the argument's figures. */
  function RemovePod(ni: NodeInfo, pod: Pod): NodeInfo
    requires HasPod(ni.pods, pod.uid)
  {
    ni.(pods := SwapRemoved(ni.pods, FindPod(ni.pods, pod.uid)),
        requested := Discharge(ni.requested, PodRequest(pod)))
  }

  function SetNode(ni: NodeInfo, node: Node): NodeInfo {
    ni.(node := Some(node), allocatable := NewResource(node.allocatable))
  }

  function RemoveNode(ni: NodeInfo): NodeInfo {
    ni.(node := None, allocatable := Zero)
  }

  // ----- the aggregates are what they aggregate -----

  ghost predicate Consistent(ni: NodeInfo) {
    && (forall n :: Amount(ni.requested, n) == if n.PodCount? then 0 else Total(ni.pods, RequestOf(n)))
    && ni.allocatable == (if ni.node.Some? then NewResource(ni.node.value.allocatable) else Zero)
  }

  lemma EmptyConsistent()
    ensures Consistent(Empty)
  {
  }

  lemma AddPodConsistent(ni: NodeInfo, pod: Pod)
    requires Consistent(ni)
    ensures Consistent(AddPod(ni, pod))
  {
    forall n: ResourceName | !n.PodCount?
      ensures Amount(AddPod(ni, pod).requested, n) == Total(AddPod(ni, pod).pods, RequestOf(n))
    {
      TotalAppended(ni.pods, pod, RequestOf(n));
    }
  }

  /** Two objects of one pod that agree on every figure the cache keeps. */
  predicate SameFigures(p: Pod, q: Pod) {
    p.uid == q.uid && p.nodeName == q.nodeName && p.containers == q.containers && p.poolAnnotation == q.poolAnnotation
  }

  lemma RemovePodConsistent(ni: NodeInfo, pod: Pod)
    requires Consistent(ni) && HasPod(ni.pods, pod.uid)
    requires SameFigures(ni.pods[FindPod(ni.pods, pod.uid)], pod)
    ensures Consistent(RemovePod(ni, pod))
  {
    hide NewResource;
    var i := FindPod(ni.pods, pod.uid);
    forall n: ResourceName | !n.PodCount?
      ensures Amount(RemovePod(ni, pod).requested, n) == Total(RemovePod(ni, pod).pods, RequestOf(n))
    {
      TotalSwapRemoved(ni.pods, i, RequestOf(n));
    }
  }

  /** Adding a pod and removing it again restores every amount, and the pods in order. */
  lemma AddThenRemoveRestores(ni: NodeInfo, pod: Pod, n: ResourceName)
    requires !HasPod(ni.pods, pod.uid)
    ensures HasPod(AddPod(ni, pod).pods, pod.uid)
    ensures RemovePod(AddPod(ni, pod), pod).pods == ni.pods
    ensures Amount(RemovePod(AddPod(ni, pod), pod).requested, n) == Amount(ni.requested, n)
  {
    var pods := ni.pods + [pod];
    assert forall j :: 0 <= j < |ni.pods| ==> pods[j].uid != pod.uid;
    assert pods[|ni.pods|].uid == pod.uid;
    assert FindPod(pods, pod.uid) == |ni.pods|;
  }

  // ----- PodFitsResources -----

  predicate RequestsNothing(r: Resource) {
    r.milliCPU == 0 && r.memory == 0 && r.ephemeralStorage == 0 && r.scalars == map[]
  }

  /** Whether a component is compared with what is left. */
  predicate Checked(request: Resource, ignored: set<string>, n: ResourceName) {
    match n
    case CPU => true
    case Memory => true
    case EphemeralStorage => true
    case Scalar(name) => name in request.scalars && name !in ignored
    case PodCount => false
    case Unaccounted(_) => false
  }

  /** PodFitsResources: whether the node has room for the pod. `ignored` holds the extended
      resources left to the scheduler extenders. */
  ghost predicate FitsResources(pod: Pod, ni: NodeInfo, ignored: set<string>) {
    && ni.node.Some?
    && |ni.pods| + 1 <= ni.allocatable.allowedPodNumber
    && (RequestsNothing(FitRequest(pod)) ||
        forall n :: Checked(FitRequest(pod), ignored, n) ==> HasRoom(FitRequest(pod), ni, n))
  }

  /** The component leaves room for what is requested. */
  predicate HasRoom(request: Resource, ni: NodeInfo, n: ResourceName) {
    Amount(request, n) + Amount(ni.requested, n) <= Amount(ni.allocatable, n)
  }

  /** All scalars that are checked leave room. */
  ghost predicate ScalarsHaveRoom(request: Resource, ni: NodeInfo, ignored: set<string>, names: set<string>) {
    forall name :: name in names && name !in ignored ==> HasRoom(request, ni, Scalar(name))
  }

  lemma RoomByParts(request: Resource, ni: NodeInfo, ignored: set<string>)
    ensures (forall n :: Checked(request, ignored, n) ==> HasRoom(request, ni, n)) <==>
      && HasRoom(request, ni, CPU) && HasRoom(request, ni, Memory) && HasRoom(request, ni, EphemeralStorage)
      && ScalarsHaveRoom(request, ni, ignored, request.scalars.Keys)
  {
    hide HasRoom;
    assert forall name :: name in request.scalars && name !in ignored ==> Checked(request, ignored, Scalar(name));
    assert Checked(request, ignored, CPU) && Checked(request, ignored, Memory);
    assert Checked(request, ignored, EphemeralStorage);
  }

  /** The reasons that the scalar resources give. */
  method ScalarReasons(request: Resource, ni: NodeInfo, ignored: set<string>) returns (reasons: nat)
    ensures reasons == 0 <==> ScalarsHaveRoom(request, ni, ignored, request.scalars.Keys)
  {
    reasons := 0;
    var todo := request.scalars.Keys;
    while todo != {}
      invariant todo <= request.scalars.Keys
      invariant reasons == 0 <==> ScalarsHaveRoom(request, ni, ignored, request.scalars.Keys - todo)
      decreases todo
    {
      var name :| name in todo;
      todo := todo - {name};
      if name !in ignored && ScalarOf(ni.allocatable, name) < request.scalars[name] + ScalarOf(ni.requested, name) {
        reasons := reasons + 1;
      }
    }
    assert request.scalars.Keys - {} == request.scalars.Keys;
  }

  predicate AsksNothing(r: Resource) {
    r.milliCPU == 0 && r.memory == 0 && r.ephemeralStorage == 0 && |r.scalars| == 0
  }

  /** What is asked for and what is taken are together no more than there is: CPU, memory, ephemeral storage,
      and every scalar that is asked for and not left to extenders. */
  ghost predicate LeavesRoom(asked: Resource, taken: Resource, there: Resource, ignored: set<string>) {
    && asked.milliCPU + taken.milliCPU <= there.milliCPU && asked.memory + taken.memory <= there.memory
    && asked.ephemeralStorage + taken.ephemeralStorage <= there.ephemeralStorage
    && forall name :: name in asked.scalars && name !in ignored ==>
      asked.scalars[name] + ScalarOf(taken, name) <= ScalarOf(there, name)
  }

  lemma RoomInFields(request: Resource, ni: NodeInfo, ignored: set<string>)
    ensures (forall n :: Checked(request, ignored, n) ==> HasRoom(request, ni, n)) <==>
      LeavesRoom(request, ni.requested, ni.allocatable, ignored)
    ensures RequestsNothing(request) <==> AsksNothing(request)
  {
    RoomByParts(request, ni, ignored);
    assert forall name :: HasRoom(request, ni, Scalar(name)) <==>
      ScalarOf(request, name) + ScalarOf(ni.requested, name) <= ScalarOf(ni.allocatable, name);
  }

  /** The predicate as the source computes it: it fails when any reason was collected. */
  method PodFitsResources(pod: Pod, ni: NodeInfo, ignored: set<string>) returns (fits: bool, error: bool)
    ensures error <==> ni.node.None?
    ensures fits <==> FitsResources(pod, ni, ignored)
    ensures fits <==>
      && ni.node.Some? && |ni.pods| < ni.allocatable.allowedPodNumber
      && (AsksNothing(FitRequest(pod)) || LeavesRoom(FitRequest(pod), ni.requested, ni.allocatable, ignored))
  {
    hide FitRequest, ScalarsHaveRoom, Checked, LeavesRoom;
    RoomInFields(FitRequest(pod), ni, ignored);
    if ni.node.None? {
      return false, true;
    }
    var reasons := 0;
    if |ni.pods| + 1 > ni.allocatable.allowedPodNumber {
      reasons := reasons + 1;
    }
    var request := GetResourceRequest(pod);
    if request.milliCPU == 0 && request.memory == 0 && request.ephemeralStorage == 0 && |request.scalars| == 0 {
      return reasons == 0, false;
    }
    if ni.allocatable.milliCPU < request.milliCPU + ni.requested.milliCPU {
      reasons := reasons + 1;
    }
    if ni.allocatable.memory < request.memory + ni.requested.memory {
      reasons := reasons + 1;
    }
    if ni.allocatable.ephemeralStorage < request.ephemeralStorage + ni.requested.ephemeralStorage {
      reasons := reasons + 1;
    }
    var more := ScalarReasons(request, ni, ignored);
    reasons := reasons + more;
    RoomByParts(request, ni, ignored);
    fits, error := reasons == 0, false;
  }
}
