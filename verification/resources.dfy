/** Resource vectors and what a pod requests (pkg/scheduler/info/node_info.go,
    pkg/scheduler/algorithm/predicates/predicates.go). Amounts are unbounded integers. */
module Resources {
  import opened Api

  datatype Resource = Resource(milliCPU: int, memory: int, ephemeralStorage: int,
                               allowedPodNumber: int, scalars: map<string, int>)

  const Zero := Resource(0, 0, 0, 0, map[])

  function ScalarOf(r: Resource, name: string): int {
    if name in r.scalars then r.scalars[name] else 0
  }

  /** One component of the vector; a name without an entry counts as zero. */
  function Amount(r: Resource, n: ResourceName): int {
    match n
    case CPU => r.milliCPU
    case Memory => r.memory
    case EphemeralStorage => r.ephemeralStorage
    case PodCount => r.allowedPodNumber
    case Scalar(name) => ScalarOf(r, name)
    case Unaccounted(_) => 0
  }

  /** What a resource list contributes to one component. */
  function Quantity(rl: ResourceList, n: ResourceName): int {
    if n in rl && !n.Unaccounted? then rl[n] else 0
  }

  function ScalarNames(rl: ResourceList): set<string> {
    set n | n in rl && n.Scalar? :: n.name
  }

  /** Resource.Add: adds a resource list. */
  function AddList(r: Resource, rl: ResourceList): (s: Resource)
    ensures forall n :: Amount(s, n) == Amount(r, n) + Quantity(rl, n)
    ensures s.scalars.Keys == r.scalars.Keys + ScalarNames(rl)
  {
    Resource(r.milliCPU + Quantity(rl, CPU), r.memory + Quantity(rl, Memory),
             r.ephemeralStorage + Quantity(rl, EphemeralStorage), r.allowedPodNumber + Quantity(rl, PodCount),
             map k | k in r.scalars.Keys + ScalarNames(rl) :: ScalarOf(r, k) + Quantity(rl, Scalar(k)))
  }

  function Plus(r: Resource, d: Resource): (s: Resource)
    ensures forall n :: Amount(s, n) == Amount(r, n) + Amount(d, n)
  {
    Resource(r.milliCPU + d.milliCPU, r.memory + d.memory, r.ephemeralStorage + d.ephemeralStorage,
             r.allowedPodNumber + d.allowedPodNumber,
             map k | k in r.scalars.Keys + d.scalars.Keys :: ScalarOf(r, k) + ScalarOf(d, k))
  }

  function Sub(r: Resource, d: Resource): (s: Resource)
    ensures forall n :: Amount(s, n) == Amount(r, n) - Amount(d, n)
  {
    Resource(r.milliCPU - d.milliCPU, r.memory - d.memory, r.ephemeralStorage - d.ephemeralStorage,
             r.allowedPodNumber - d.allowedPodNumber,
             map k | k in r.scalars.Keys + d.scalars.Keys :: ScalarOf(r, k) - ScalarOf(d, k))
  }

  function NewResource(rl: ResourceList): (s: Resource)
    ensures forall n :: Amount(s, n) == Quantity(rl, n)
  {
    AddList(Zero, rl)
  }

  /** Whether the list can raise this component. */
  predicate Raises(rl: ResourceList, n: ResourceName) {
    n in rl && !n.PodCount? && !n.Unaccounted?
  }

  function Max(a: int, b: int): int { if a > b then a else b }

  function MaxScalars(r: Resource, rl: ResourceList): (m: map<string, int>)
    ensures forall k :: k in m <==> k in r.scalars || (Scalar(k) in rl && rl[Scalar(k)] > 0)
    ensures forall k ::
        (if k in m then m[k] else 0)
        == (if Scalar(k) in rl then Max(ScalarOf(r, k), rl[Scalar(k)]) else ScalarOf(r, k))
  {
    map k | k in r.scalars.Keys + ScalarNames(rl) && (k in r.scalars || rl[Scalar(k)] > 0) ::
      if Scalar(k) in rl then Max(ScalarOf(r, k), rl[Scalar(k)]) else ScalarOf(r, k)
  }

  /** Resource.SetMaxResource: raises each listed component, other than the pod count, to the
      listed quantity. A scalar gets an entry only when it is raised. */
  function SetMax(r: Resource, rl: ResourceList): (s: Resource)
    ensures forall n :: Amount(s, n) == (if Raises(rl, n) then Max(Amount(r, n), rl[n]) else Amount(r, n))
    ensures forall k :: k in s.scalars <==> k in r.scalars || (Scalar(k) in rl && rl[Scalar(k)] > 0)
  {
    Resource(if CPU in rl then Max(r.milliCPU, rl[CPU]) else r.milliCPU,
             if Memory in rl then Max(r.memory, rl[Memory]) else r.memory,
             if EphemeralStorage in rl then Max(r.ephemeralStorage, rl[EphemeralStorage]) else r.ephemeralStorage,
             r.allowedPodNumber,
             MaxScalars(r, rl))
  }

  // ----- what a pod requests -----

  /** calculateResource: the sum over the first `k` containers. */
  function SumOf(containers: seq<ResourceList>, k: nat): Resource
    requires k <= |containers|
  {
    if k == 0 then Zero else AddList(SumOf(containers, k - 1), containers[k - 1])
  }

  /** What a pod takes from its node once it is there. */
  function PodRequest(pod: Pod): Resource {
    SumOf(pod.containers, |pod.containers|)
  }

  /** GetResourceRequestForPool: the same, counting the pod itself. */
  function PoolRequest(pod: Pod): (r: Resource)
    ensures forall n :: Amount(r, n) == Amount(PodRequest(pod), n) + if n.PodCount? then 1 else 0
  {
    var r := PodRequest(pod);
    r.(allowedPodNumber := r.allowedPodNumber + 1)
  }

  /** What the containers list of one component, all together. */
  function AllLists(containers: seq<ResourceList>, n: ResourceName): int {
    if containers == [] then 0 else Quantity(containers[0], n) + AllLists(containers[1..], n)
  }

  lemma {:induction false} ListedMore(containers: seq<ResourceList>, c: ResourceList, n: ResourceName)
    ensures AllLists(containers + [c], n) == AllLists(containers, n) + Quantity(c, n)
  {
    if containers != [] {
      ListedMore(containers[1..], c, n);
      assert (containers + [c])[1..] == containers[1..] + [c];
    }
  }

  lemma {:induction false} SumOfIsListed(containers: seq<ResourceList>, k: nat, n: ResourceName)
    requires k <= |containers|
    ensures Amount(SumOf(containers, k), n) == AllLists(containers[..k], n)
  {
    hide Amount, AddList;
    if k == 0 {
      NothingInZero(n);
    } else {
      SumOfIsListed(containers, k - 1, n);
      ListedMore(containers[..k - 1], containers[k - 1], n);
      assert containers[..k] == containers[..k - 1] + [containers[k - 1]];
    }
  }

  lemma NothingInZero(n: ResourceName)
    ensures Amount(Zero, n) == 0
  {
  }

  /** A pod takes from its node what its containers list; init containers are not counted. */
  lemma PodRequestIsListed(pod: Pod, n: ResourceName)
    ensures Amount(PodRequest(pod), n) == AllLists(pod.containers, n)
  {
    hide Amount, SumOf;
    SumOfIsListed(pod.containers, |pod.containers|, n);
    assert pod.containers[..|pod.containers|] == pod.containers;
  }

  /** The component-wise maximum with the first `k` init containers. */
  function MaxWith(r: Resource, initContainers: seq<ResourceList>, k: nat): Resource
    requires k <= |initContainers|
  {
    if k == 0 then r else SetMax(MaxWith(r, initContainers, k - 1), initContainers[k - 1])
  }

  /** GetResourceRequest: what a node must have free to admit the pod. */
  function FitRequest(pod: Pod): Resource {
    MaxWith(PodRequest(pod), pod.initContainers, |pod.initContainers|)
  }

  /** The amount is the greatest of the containers' sum and what any of the first `k` init containers
      asks for. */
  ghost predicate IsGreatest(a: int, sum: int, initContainers: seq<ResourceList>, k: nat, n: ResourceName)
    requires k <= |initContainers|
  {
    && sum <= a && (forall i :: 0 <= i < k && Raises(initContainers[i], n) ==> initContainers[i][n] <= a)
    && (a == sum || exists i :: 0 <= i < k && Raises(initContainers[i], n) && initContainers[i][n] == a)
  }

  lemma {:induction false} MaxWithIsGreatest(r: Resource, initContainers: seq<ResourceList>, k: nat, n: ResourceName)
    requires k <= |initContainers|
    ensures IsGreatest(Amount(MaxWith(r, initContainers, k), n), Amount(r, n), initContainers, k, n)
  {
    hide SetMax, Amount;
    if k > 0 {
      MaxWithIsGreatest(r, initContainers, k - 1, n);
      var a := Amount(MaxWith(r, initContainers, k - 1), n);
      if i :| 0 <= i < k - 1 && Raises(initContainers[i], n) && initContainers[i][n] == a {
        assert 0 <= i < k;
      }
    }
  }

  /** GetResourceRequest: in every component the greatest of what the containers ask for together and
      what any init container asks for. */
  method GetResourceRequest(pod: Pod) returns (result: Resource)
    ensures result == FitRequest(pod)
    ensures forall n ::
        IsGreatest(Amount(result, n), AllLists(pod.containers, n), pod.initContainers, |pod.initContainers|, n)
  {
    hide AddList, SetMax, IsGreatest;
    forall n
      ensures IsGreatest(Amount(FitRequest(pod), n), AllLists(pod.containers, n), pod.initContainers,
                         |pod.initContainers|, n)
    {
      PodRequestIsListed(pod, n);
      MaxWithIsGreatest(PodRequest(pod), pod.initContainers, |pod.initContainers|, n);
    }
    result := Zero;
    for i := 0 to |pod.containers|
      invariant result == SumOf(pod.containers, i)
    {
      result := AddList(result, pod.containers[i]);
    }
    for i := 0 to |pod.initContainers|
      invariant result == MaxWith(PodRequest(pod), pod.initContainers, i)
    {
      result := SetMax(result, pod.initContainers[i]);
    }
  }

  lemma {:induction false} MaxWithDominates(r: Resource, initContainers: seq<ResourceList>, k: nat, n: ResourceName)
    requires k <= |initContainers|
    ensures Amount(r, n) <= Amount(MaxWith(r, initContainers, k), n)
    ensures r.scalars.Keys <= MaxWith(r, initContainers, k).scalars.Keys
  {
    hide SetMax, Amount;
    if k > 0 {
      MaxWithDominates(r, initContainers, k - 1, n);
    }
  }

  /** What is admitted covers what is then charged, in every component. */
  lemma FitRequestCoversPodRequest(pod: Pod, n: ResourceName)
    ensures Amount(PodRequest(pod), n) <= Amount(FitRequest(pod), n)
    ensures PodRequest(pod).scalars.Keys <= FitRequest(pod).scalars.Keys
  {
    MaxWithDominates(PodRequest(pod), pod.initContainers, |pod.initContainers|, n);
  }

  /** The API server admits no negative quantity. */
  predicate NonNegative(pod: Pod) {
    forall i, n :: 0 <= i < |pod.containers| && n in pod.containers[i] ==> pod.containers[i][n] >= 0
  }

  lemma {:induction false} SumOfNonNegative(pod: Pod, k: nat, n: ResourceName)
    requires k <= |pod.containers| && NonNegative(pod)
    ensures Amount(SumOf(pod.containers, k), n) >= 0
  {
    hide AddList;
    if k > 0 {
      SumOfNonNegative(pod, k - 1, n);
    }
  }

  lemma PodRequestNonNegative(pod: Pod, n: ResourceName)
    requires NonNegative(pod)
    ensures Amount(PodRequest(pod), n) >= 0
  {
    SumOfNonNegative(pod, |pod.containers|, n);
  }

  /** A component without a scalar entry is not requested. */
  lemma NoEntryNoAmount(r: Resource, name: string)
    requires name !in r.scalars
    ensures Amount(r, Scalar(name)) == 0
  {
  }
}
