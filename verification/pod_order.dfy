/** How pods compare: their priority, and whether they run in the pool they asked for
    (pkg/scheduler/util/utils.go, pkg/scheduler/internal/queue/pool_queue.go). */
module PodOrders {
  import opened Api

  /** GetPodPriority: a pod without a priority has the static default. */
  function PriorityOf(pod: Pod): int {
    if pod.priority.Some? then pod.priority.value else 0
  }

  /** Priorities compare as the numbers they are, and a pod without one ranks like zero. */
  lemma PrioritiesCompare(p: Pod, a: int, b: int)
    ensures PriorityOf(p.(priority := Some(a))) < PriorityOf(p.(priority := Some(b))) <==> a < b
    ensures PriorityOf(p.(priority := None)) == PriorityOf(p.(priority := Some(0)))
  {
  }

  /** matchPoolQueueNameForPod: the queue of the pool the pod asks for, if there is one. */
  function QueueNameOf(queues: set<string>, pod: Pod): string {
    if pod.poolAnnotation in queues then pod.poolAnnotation else DefaultPoolName
  }

  /** Whether a pod is one of the pool's own: it asks for this pool, or for one that has no queue when this
      is the default pool. */
  predicate InOwnPool(pool: string, queues: set<string>, pod: Pod) {
    if pod.poolAnnotation in queues then pod.poolAnnotation == pool else pool == DefaultPoolName
  }

  /** SelfPoolHasHigherPriorityFunc: own-pool pods first, then by falling priority. */
  predicate OwnPoolFirst(pool: string, p: Pod, q: Pod) {
    if p.poolAnnotation == pool && q.poolAnnotation != pool then true
    else if p.poolAnnotation != pool && q.poolAnnotation == pool then false
    else PriorityOf(p) > PriorityOf(q)
  }

  /** No later item belongs before an earlier one. */
  ghost predicate Ordered<T(!new)>(less: (T, T) -> bool, s: seq<T>) {
    forall i, j :: 0 <= i < j < |s| ==> !less(s[j], s[i])
  }

  /** A strict weak order: what sorting and heaps need of a comparison. */
  ghost predicate StrictWeakOrder<T(!new)>(less: (T, T) -> bool) {
    && (forall x :: !less(x, x))
    && (forall x, y, z :: !less(x, y) && !less(y, z) ==> !less(x, z))
    && (forall x, y :: less(x, y) ==> !less(y, x))
  }

  lemma OwnPoolFirstIsStrictWeakOrder(pool: string)
    ensures StrictWeakOrder((p, q) => OwnPoolFirst(pool, p, q))
  {
  }

  /** SortableList.Sort. What the callers rely on is that the result is an ordered permutation. */
  method Sort<T(!new)>(items: seq<T>, less: (T, T) -> bool) returns (sorted: seq<T>)
    requires StrictWeakOrder(less)
    ensures multiset(sorted) == multiset(items) && Ordered(less, sorted)
  {
    sorted := [];
    for i := 0 to |items|
      invariant multiset(sorted) == multiset(items[..i])
      invariant Ordered(less, sorted)
    {
      var x, k := items[i], |sorted|;
      while k > 0 && less(x, sorted[k - 1])
        invariant 0 <= k <= |sorted|
        invariant forall j :: k <= j < |sorted| ==> less(x, sorted[j])
      {
        k := k - 1;
      }
      InsertKeepsOrder(sorted, x, k, less);
      sorted := Inserted(sorted, x, k);
      assert items[..i + 1] == items[..i] + [x];
    }
    assert items[..|items|] == items;
  }

  function Inserted<T>(s: seq<T>, x: T, k: nat): seq<T>
    requires k <= |s|
  {
    s[..k] + [x] + s[k..]
  }

  lemma InsertKeepsOrder<T(!new)>(s: seq<T>, x: T, k: nat, less: (T, T) -> bool)
    requires StrictWeakOrder(less) && Ordered(less, s) && k <= |s|
    requires k > 0 ==> !less(x, s[k - 1])
    requires forall j :: k <= j < |s| ==> less(x, s[j])
    ensures Ordered(less, Inserted(s, x, k)) && multiset(Inserted(s, x, k)) == multiset(s) + multiset{x}
  {
    hide Inserted;
    InsertedAt(s, x, k);
    InsertedContents(s, x, k);
    var r := Inserted(s, x, k);
    forall i, j | 0 <= i < j < |r| ensures !less(r[j], r[i]) {
      if j == k {
        assert r[j] == x && r[i] == s[i];
        assert i < k - 1 ==> !less(x, s[k - 1]) && !less(s[k - 1], s[i]);
      } else if i == k {
        assert r[i] == x && less(x, s[j - 1]);
      } else {
        assert !less(s[if j < k then j else j - 1], s[if i < k then i else i - 1]);
      }
    }
  }

  lemma InsertedAt<T>(s: seq<T>, x: T, k: nat)
    requires k <= |s|
    ensures |Inserted(s, x, k)| == |s| + 1
    ensures Inserted(s, x, k)[k] == x && forall i :: 0 <= i < k ==> Inserted(s, x, k)[i] == s[i]
    ensures forall i :: k < i <= |s| ==> Inserted(s, x, k)[i] == s[i - 1]
  {
  }

  lemma InsertedContents<T>(s: seq<T>, x: T, k: nat)
    requires k <= |s|
    ensures multiset(Inserted(s, x, k)) == multiset(s) + multiset{x}
  {
    assert s == s[..k] + s[k..];
  }

  // ----- filtering a list -----

  /** The items among the first `k` that satisfy `c`, in order. */
  function Chosen<T>(s: seq<T>, c: T -> bool, k: nat): seq<T>
    requires k <= |s|
  {
    if k == 0 then []
    else if c(s[k - 1]) then Chosen(s, c, k - 1) + [s[k - 1]]
    else Chosen(s, c, k - 1)
  }

  lemma {:induction false} ChosenSatisfies<T(!new)>(s: seq<T>, c: T -> bool, k: nat)
    requires k <= |s|
    ensures |Chosen(s, c, k)| <= k
    ensures forall j :: 0 <= j < |Chosen(s, c, k)| ==> c(Chosen(s, c, k)[j]) && Chosen(s, c, k)[j] in s[..k]
  {
    if k > 0 {
      ChosenSatisfies(s, c, k - 1);
    }
  }

  /** A filter keeps the order. */
  lemma {:induction false} ChosenOrdered<T(!new)>(s: seq<T>, c: T -> bool, k: nat, less: (T, T) -> bool)
    requires k <= |s| && Ordered(less, s)
    ensures Ordered(less, Chosen(s, c, k))
  {
    if k > 0 {
      ChosenOrdered(s, c, k - 1, less);
      ChosenSatisfies(s, c, k - 1);
    }
  }

  /** What satisfies `c` and what does not are together the whole list. */
  lemma {:induction false} ChosenSplits<T(!new)>(s: seq<T>, c: T -> bool, d: T -> bool, k: nat)
    requires k <= |s| && forall x :: c(x) != d(x)
    ensures multiset(Chosen(s, c, k)) + multiset(Chosen(s, d, k)) == multiset(s[..k])
  {
    if k > 0 {
      ChosenSplits(s, c, d, k - 1);
      assert s[..k] == s[..k - 1] + [s[k - 1]];
    }
  }
}
