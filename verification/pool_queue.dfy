/** The order of a pool's scheduling queue (pkg/scheduler/internal/queue/pool_queue.go). */
module PoolQueues {
  import opened Api
  import opened PodOrders
  import opened KeyedHeaps
  import opened Sequences

  datatype PodInfo = PodInfo(pod: Pod, timestamp: int)

  /** podInfo's key: namespace and name, or the name alone. */
  function KeyOf(info: PodInfo): (key: Option<string>)
    ensures key.Some?
  {
    Some(if info.pod.namespace == "" then info.pod.name else info.pod.namespace + "/" + info.pod.name)
  }

  /** poolQueuePodPriorityComp, for a fixed set of queues. */
  predicate ComesBefore(queues: set<string>, pool: string, a: PodInfo, b: PodInfo) {
    var (pa, pb) := (QueueNameOf(queues, a.pod), QueueNameOf(queues, b.pod));
    if pa == pool && pb == pool then Urgent(a, b)
    else if pa == pool && pb != pool then true
    else if pa != pool && pb == pool then false
    else Urgent(a, b)
  }

  predicate Urgent(a: PodInfo, b: PodInfo) {
    PriorityOf(a.pod) > PriorityOf(b.pod) || (PriorityOf(a.pod) == PriorityOf(b.pod) && a.timestamp < b.timestamp)
  }

  lemma ComesBeforeIsStrictWeakOrder(queues: set<string>, pool: string)
    ensures StrictWeakOrder((a, b) => ComesBefore(queues, pool, a, b))
  {
  }

  /** So far `out` came out under `keys`, in order, and `left` is still to come. */
  ghost predicate Drained<T(!new)>(less: (T, T) -> bool, all: map<string, T>, left: map<string, T>, out: seq<T>,
                            keys: seq<string>) {
    && |keys| == |out| && Ordered(less, out)
    && (forall i :: 0 <= i < |keys| ==> keys[i] in all && all[keys[i]] == out[i] && keys[i] !in left)
    && (forall i, j :: 0 <= i < j < |keys| ==> keys[i] != keys[j])
    && (forall k :: k in all ==> k in left || k in keys)
    && (forall k :: k in left ==> k in all && left[k] == all[k])
    && (forall k, i :: k in left && 0 <= i < |out| ==> !less(left[k], out[i]))
  }

  lemma DrainStep<T(!new)>(less: (T, T) -> bool, all: map<string, T>, left: map<string, T>, out: seq<T>,
                    keys: seq<string>, key: string)
    requires Drained(less, all, left, out, keys) && key in left && forall k :: k in left ==> !less(left[k], left[key])
    ensures Drained(less, all, left - {key}, out + [left[key]], keys + [key])
  {
  }

  /** Pops until nothing is left. Every object comes out once, under its key, in order. */
  method Drain<T(!new)>(h: Heap<T>) returns (out: seq<T>, ghost keys: seq<string>)
    requires h.Valid()
    modifies h
    ensures h.Contents() == map[] && Drained(h.less, old(h.Contents()), map[], out, keys)
  {
    hide Heap.Valid, Drained, Heap.Contents;
    out, keys := [], [];
    ghost var all := h.Contents();
    assert Drained(h.less, all, all, out, keys) by { DrainStart(h.less, all); }
    while |h.queue| > 0
      invariant h.Valid() && Drained(h.less, all, h.Contents(), out, keys)
      decreases |h.Contents()|
    {
      ContentsNonEmpty(h);
      ghost var left := h.Contents();
      var obj, key := h.Pop();
      DrainStep(h.less, all, left, out, keys, key);
      out, keys := out + [obj], keys + [key];
    }
    ContentsEmpty(h);
  }

  lemma DrainStart<T(!new)>(less: (T, T) -> bool, all: map<string, T>)
    ensures Drained(less, all, all, [], [])
  {
  }

  lemma ContentsNonEmpty<T(!new)>(h: Heap<T>)
    requires h.Valid() && |h.queue| > 0
    ensures h.Contents() != map[]
  {
    assert h.queue[0] in h.Contents();
  }

  lemma ContentsEmpty<T(!new)>(h: Heap<T>)
    requires h.Valid() && |h.queue| == 0
    ensures h.Contents() == map[]
  {
  }

  /** Own-pool pods come first; within own-pool pods and within borrowers, higher priority first, and
      longer waiting first among equals. */
  ghost predicate OwnPoolThenUrgency(queues: set<string>, pool: string, out: seq<PodInfo>) {
    forall i, j :: 0 <= i < j < |out| ==>
      && (InOwnPool(pool, queues, out[j].pod) ==> InOwnPool(pool, queues, out[i].pod))
      && ((InOwnPool(pool, queues, out[i].pod) <==> InOwnPool(pool, queues, out[j].pod)) ==>
        && PriorityOf(out[i].pod) >= PriorityOf(out[j].pod)
        && (PriorityOf(out[i].pod) == PriorityOf(out[j].pod) ==> out[i].timestamp <= out[j].timestamp))
  }

  /** The pods that came out are among those put in, one for each key put in. */
  ghost predicate EachOnce(pods: seq<PodInfo>, out: seq<PodInfo>) {
    && (forall i, j :: 0 <= i < j < |out| ==> KeyOf(out[i]) != KeyOf(out[j]))
    && (forall i :: 0 <= i < |out| ==> out[i] in pods)
    && (forall i :: 0 <= i < |pods| ==> HasKey(out, KeyOf(pods[i])))
  }

  ghost predicate HasKey(pods: seq<PodInfo>, key: Option<string>) {
    exists i :: 0 <= i < |pods| && KeyOf(pods[i]) == key
  }

  // ----- keys -----

  /** The name has no separator in it, as API names have none. */
  predicate Plain(name: string) { '/' !in name }

  /** Pods have the same key exactly when they have the same namespace and name. */
  lemma KeysTellApart(p: PodInfo, q: PodInfo)
    requires Plain(p.pod.namespace) && Plain(p.pod.name) && Plain(q.pod.namespace) && Plain(q.pod.name)
    ensures KeyOf(p) == KeyOf(q) <==> p.pod.namespace == q.pod.namespace && p.pod.name == q.pod.name
  {
    if p.pod.namespace != "" && q.pod.namespace != "" {
      if KeyOf(p) == KeyOf(q) {
        SplitAtMark('/', p.pod.namespace, p.pod.name, q.pod.namespace, q.pod.name);
      }
    } else {
      var s, t := p.pod.namespace + "/" + p.pod.name, q.pod.namespace + "/" + q.pod.name;
      assert s[|p.pod.namespace|] == '/' && t[|q.pod.namespace|] == '/';
    }
  }

  /** No two of the pods have the same namespace and name. */
  ghost predicate AllApart(pods: seq<PodInfo>) {
    && (forall i :: 0 <= i < |pods| ==> Plain(pods[i].pod.namespace) && Plain(pods[i].pod.name))
    && forall i, j :: 0 <= i < j < |pods| ==>
      pods[i].pod.namespace != pods[j].pod.namespace || pods[i].pod.name != pods[j].pod.name
  }

  /** Then all of them come out. */
  lemma AllComeOut(pods: seq<PodInfo>, out: seq<PodInfo>)
    requires EachOnce(pods, out) && AllApart(pods)
    ensures forall p :: p in pods <==> p in out
  {
    hide KeyOf;
    forall i | 0 <= i < |pods| ensures pods[i] in out {
      assert HasKey(out, KeyOf(pods[i]));
      var j :| 0 <= j < |out| && KeyOf(out[j]) == KeyOf(pods[i]);
      var l :| 0 <= l < |pods| && pods[l] == out[j];
      KeysTellApart(pods[l], pods[i]);
    }
  }

  /** A pool's queue filled with these pods and drained: each distinct key once, in pool order; so every
      pod, when no two have the same namespace and name. */
  method DrainPoolQueue(queues: set<string>, pool: string, pods: seq<PodInfo>) returns (out: seq<PodInfo>)
    ensures OwnPoolThenUrgency(queues, pool, out) && EachOnce(pods, out)
    ensures AllApart(pods) ==> forall p :: p in pods <==> p in out
  {
    hide Heap.Valid, Heap.Keyed, Heap.ValidBut, Heap.Contents, ComesBefore, Urgent, Drained, StrictWeakOrder, EachOnce,
      OwnPoolThenUrgency, AllApart;
    ComesBeforeIsStrictWeakOrder(queues, pool);
    var h := new Heap(KeyOf, (a, b) => ComesBefore(queues, pool, a, b));
    for k := 0 to |pods|
      invariant h.Valid() && fresh(h) && h.keyOf == KeyOf && Filled(pods, k, h.Contents())
    {
      h.ValidIsValidBut(KeyOf(pods[k]).value);
      var ok := h.Add(pods[k]);
    }
    ghost var all := h.Contents();
    ghost var keys;
    out, keys := Drain(h);
    DrainedPods(queues, pool, pods, all, out, keys);
    if AllApart(pods) {
      AllComeOut(pods, out);
    }
  }

  ghost predicate Filled(pods: seq<PodInfo>, n: nat, all: map<string, PodInfo>) {
    && n <= |pods|
    && (forall key :: key in all ==> all[key] in pods && KeyOf(all[key]) == Some(key))
    && (forall i :: 0 <= i < n ==> KeyOf(pods[i]).value in all)
  }

  lemma DrainedPods(queues: set<string>, pool: string, pods: seq<PodInfo>, all: map<string, PodInfo>, out: seq<PodInfo>,
                    keys: seq<string>)
    requires Filled(pods, |pods|, all) && Drained((a, b) => ComesBefore(queues, pool, a, b), all, map[], out, keys)
    ensures OwnPoolThenUrgency(queues, pool, out) && EachOnce(pods, out)
  {
    hide KeyOf, OwnPoolThenUrgency, Ordered, ComesBefore, Filled;
    OrderedIsPoolOrder(queues, pool, out);
    DrainedEachOnce(pods, all, out, keys);
  }

  lemma DrainedEachOnce(pods: seq<PodInfo>, all: map<string, PodInfo>, out: seq<PodInfo>, keys: seq<string>)
    requires Filled(pods, |pods|, all) && |keys| == |out|
    requires forall i :: 0 <= i < |keys| ==> keys[i] in all && all[keys[i]] == out[i]
    requires forall i, j :: 0 <= i < j < |keys| ==> keys[i] != keys[j]
    requires forall k :: k in all ==> k in keys
    ensures EachOnce(pods, out)
  {
    hide KeyOf;
    forall i | 0 <= i < |out| ensures KeyOf(out[i]) == Some(keys[i]) && out[i] in pods {
      assert keys[i] in all && all[keys[i]] == out[i];
    }
    forall i, j | 0 <= i < j < |out| ensures KeyOf(out[i]) != KeyOf(out[j]) {
      assert KeyOf(out[i]) == Some(keys[i]) && KeyOf(out[j]) == Some(keys[j]) && keys[i] != keys[j];
    }
    forall i | 0 <= i < |pods| ensures HasKey(out, KeyOf(pods[i])) {
      KeyIsSome(pods[i]);
      var j :| 0 <= j < |keys| && keys[j] == KeyOf(pods[i]).value;
      assert KeyOf(out[j]) == Some(keys[j]);
    }
  }

  lemma KeyIsSome(p: PodInfo)
    ensures KeyOf(p).Some?
  {
  }

  lemma OrderedIsPoolOrder(queues: set<string>, pool: string, out: seq<PodInfo>)
    requires Ordered((a, b) => ComesBefore(queues, pool, a, b), out)
    ensures OwnPoolThenUrgency(queues, pool, out)
  {
    forall i, j | 0 <= i < j < |out| ensures !ComesBefore(queues, pool, out[j], out[i]) {
    }
  }
}
