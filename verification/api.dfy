/** The API objects the scheduler works on, cut down to the fields its core reads. */
module Api {

  datatype Option<+T> = None | Some(value: T)

  /** Why an operation was refused; the source returns an error value. */
  datatype Error =
    | EmptyUid
    | NodeNotFound
    | PodNotFound
    | PodAlreadyKnown
    | PodNotAssumed
    | PodNotAdded
    | AssumedElsewhere
    | ForbiddenPool
    | CacheCorrupted
    | NilPointer

  datatype Outcome = Done | Failed(error: Error)

  /** A resource name, already classified the way the source's name helpers classify it. */
  datatype ResourceName =
    | CPU
    | Memory
    | EphemeralStorage
    | PodCount
    | Scalar(name: string)
    | Unaccounted(name: string)

  /** Quantities per name; CPU counts in thousandths, everything else in units. */
  type ResourceList = map<ResourceName, int>

  datatype Node = Node(name: string, zone: string, labels: map<string, string>,
                       capacity: ResourceList, allocatable: ResourceList)

  /** Where a node tree keeps a node. */
  datatype Spot = Spot(zone: string, name: string)

  function SpotOf(node: Node): Spot { Spot(node.zone, node.name) }

  datatype Pod = Pod(uid: string, name: string, namespace: string, nodeName: string,
                     poolAnnotation: string, schedulerName: string, priority: Option<int>,
                     containers: seq<ResourceList>, initContainers: seq<ResourceList>)

  /** A label selector stays uninterpreted: every theorem takes the matching relation as a
      parameter. */
  type Selector = string

  datatype PoolSpec = PoolSpec(nodeSelector: Option<Selector>, disablePreemption: bool,
                               disableBorrowing: bool, borrowingPools: seq<string>, disableSharing: bool)

  datatype Pool = Pool(name: string, spec: PoolSpec)

  /** The pool of every node and pod that no other pool claims. */
  const DefaultPoolName := ""
}
