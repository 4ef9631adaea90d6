/** The inter-pod affinity index (pkg/scheduler/algorithm/predicates/metadata.go): which existing
    pods matter in which topology, by pair and by pod. */
module TopologyPairs {
  import opened Api
  import opened Sequences

  /** A label key and one of its values, as nodes carry them. */
  datatype Pair = Pair(key: string, value: string)

  /** A required affinity term; a malformed selector makes it invalid. */
  datatype Term = Term(key: string, namespaces: set<string>, selector: Selector, valid: bool)

  datatype AffinityPod = AffinityPod(pod: Pod, affinity: seq<Term>, antiAffinity: seq<Term>)

  /** GetPodFullName. */
  function FullName(p: AffinityPod): string { p.pod.name + "_" + p.pod.namespace }

  /** API names have no underscore, so the full name tells pods of different names or namespaces apart. */
  lemma FullNamesTellApart(p: AffinityPod, q: AffinityPod)
    requires '_' !in p.pod.name && '_' !in q.pod.name
    ensures FullName(p) == FullName(q) <==> p.pod.name == q.pod.name && p.pod.namespace == q.pod.namespace
  {
    if FullName(p) == FullName(q) {
      SplitAtMark('_', p.pod.name, p.pod.namespace, q.pod.name, q.pod.namespace);
    }
  }

  type PairToPods = map<Pair, set<AffinityPod>>
  type PodToPairs = map<string, set<Pair>>

  ghost predicate Holds(toPods: PairToPods, pair: Pair, p: AffinityPod) { pair in toPods && p in toPods[pair] }

  predicate Lists(toPairs: PodToPairs, name: string, pair: Pair) { name in toPairs && pair in toPairs[name] }

  ghost predicate NoEmptySet(toPods: PairToPods) {
    forall pair :: pair in toPods ==> toPods[pair] != {}
  }

  /** The two maps say the same, and neither keeps an empty set. */
  ghost predicate Inverse(toPods: PairToPods, toPairs: PodToPairs) {
    && NoEmptySet(toPods)
    && (forall name :: name in toPairs ==> toPairs[name] != {})
    && (forall pair, p :: Holds(toPods, pair, p) ==> Lists(toPairs, FullName(p), pair))
    && (forall name, pair :: Lists(toPairs, name, pair) ==> exists p :: Holds(toPods, pair, p) && FullName(p) == name)
  }

  /** Pods with the full name of `q` are `q`. */
  ghost predicate Only(toPods: PairToPods, q: AffinityPod) {
    forall pair, p :: Holds(toPods, pair, p) && FullName(p) == FullName(q) ==> p == q
  }

  // ----- single changes -----

  function WithPod(toPods: PairToPods, pair: Pair, q: AffinityPod): PairToPods {
    toPods[pair := (if pair in toPods then toPods[pair] else {}) + {q}]
  }

  function WithPair(toPairs: PodToPairs, name: string, pair: Pair): PodToPairs {
    toPairs[name := (if name in toPairs then toPairs[name] else {}) + {pair}]
  }

  lemma AddKeepsInverse(toPods: PairToPods, toPairs: PodToPairs, pair: Pair, q: AffinityPod)
    requires Inverse(toPods, toPairs)
    ensures Inverse(WithPod(toPods, pair, q), WithPair(toPairs, FullName(q), pair))
    ensures forall pr, p :: Holds(WithPod(toPods, pair, q), pr, p) <==> Holds(toPods, pr, p) || (pr == pair && p == q)
  {
    hide FullName;
    var pods, pairs := WithPod(toPods, pair, q), WithPair(toPairs, FullName(q), pair);
    assert forall pr, p :: Holds(pods, pr, p) <==> Holds(toPods, pr, p) || (pr == pair && p == q);
    forall name, pr | Lists(pairs, name, pr)
      ensures exists p :: Holds(pods, pr, p) && FullName(p) == name
    {
      if name == FullName(q) && pr == pair {
        assert Holds(pods, pr, q);
      } else {
        assert Lists(toPairs, name, pr);
        var p :| Holds(toPods, pr, p) && FullName(p) == name;
        assert Holds(pods, pr, p);
      }
    }
  }

  /** Without `q` under this pair; an empty set goes. */
  function WithoutPod(toPods: PairToPods, pair: Pair, q: AffinityPod): PairToPods {
    if pair !in toPods then toPods
    else if toPods[pair] - {q} == {} then toPods - {pair}
    else toPods[pair := toPods[pair] - {q}]
  }

  lemma WithoutPodHolds(toPods: PairToPods, pair: Pair, q: AffinityPod)
    ensures forall pr, p ::
      Holds(WithoutPod(toPods, pair, q), pr, p) <==>
      Holds(toPods, pr, p) && !(pr == pair && p == q)
    ensures NoEmptySet(toPods) ==> NoEmptySet(WithoutPod(toPods, pair, q))
  {
    forall pr, p ensures
      Holds(WithoutPod(toPods, pair, q), pr, p) <==>
      Holds(toPods, pr, p) && !(pr == pair && p == q) {
      if pair in toPods && pr == pair && p != q {
        assert p in toPods[pair] <==> p in toPods[pair] - {q};
      }
    }
  }

  /** Taking a pod out of every set that its list names, and dropping the list, takes out the pod. */
  lemma RemoveKeepsInverse(toPods: PairToPods, toPairs: PodToPairs, after: PairToPods, q: AffinityPod)
    requires Inverse(toPods, toPairs) && Only(toPods, q) && NoEmptySet(after)
    requires forall pr, p ::
      Holds(after, pr, p) <==>
      Holds(toPods, pr, p) && !(p == q && Lists(toPairs, FullName(q), pr))
    ensures Inverse(after, toPairs - {FullName(q)})
    ensures forall pr, p :: Holds(after, pr, p) <==> Holds(toPods, pr, p) && p != q
  {
    hide FullName;
    var pairs := toPairs - {FullName(q)};
    forall name, pr | Lists(pairs, name, pr)
      ensures exists p :: Holds(after, pr, p) && FullName(p) == name
    {
      assert Lists(toPairs, name, pr);
      var p :| Holds(toPods, pr, p) && FullName(p) == name;
      assert Holds(after, pr, p);
    }
  }

  /** Two indexes that hold the same pods under the same pairs are the same index. */
  lemma HoldsDetermine(a: PairToPods, x: PodToPairs, b: PairToPods, y: PodToPairs)
    requires Inverse(a, x) && Inverse(b, y) && forall pair, p :: Holds(a, pair, p) <==> Holds(b, pair, p)
    ensures a == b && x == y
  {
    hide FullName;
    SamePods(a, b);
    ListsAgree(a, x, y);
    ListsAgree(b, y, x);
    assert forall name, pair :: Lists(x, name, pair) <==> Lists(y, name, pair);
    SamePairs(x, y);
  }

  lemma SamePods(a: PairToPods, b: PairToPods)
    requires NoEmptySet(a) && NoEmptySet(b)
    requires forall pair, p :: Holds(a, pair, p) <==> Holds(b, pair, p)
    ensures a == b
  {
    forall pair | pair in a ensures pair in b && a[pair] == b[pair] {
      var p :| p in a[pair];
      assert Holds(a, pair, p);
      assert forall r :: r in a[pair] <==> Holds(a, pair, r);
      assert forall r :: r in b[pair] <==> Holds(b, pair, r);
    }
    forall pair | pair in b ensures pair in a {
      var p :| p in b[pair];
      assert Holds(b, pair, p);
    }
  }

  lemma SamePairs(a: PodToPairs, b: PodToPairs)
    requires (forall name :: name in a ==> a[name] != {}) && (forall name :: name in b ==> b[name] != {})
    requires forall name, pair :: Lists(a, name, pair) <==> Lists(b, name, pair)
    ensures a == b
  {
    forall name | name in a ensures name in b && a[name] == b[name] {
      var pair :| pair in a[name];
      assert Lists(a, name, pair);
      assert forall r :: r in a[name] <==> Lists(a, name, r);
      assert forall r :: r in b[name] <==> Lists(b, name, r);
    }
    forall name | name in b ensures name in a {
      var pair :| pair in b[name];
      assert Lists(b, name, pair);
    }
  }

  lemma ListsAgree(a: PairToPods, x: PodToPairs, y: PodToPairs)
    requires Inverse(a, x) && forall pair, p :: Holds(a, pair, p) ==> Lists(y, FullName(p), pair)
    ensures forall name, pair :: Lists(x, name, pair) ==> Lists(y, name, pair)
  {
    hide FullName;
  }

  lemma InverseHasNoEmptySet(toPods: PairToPods, toPairs: PodToPairs)
    requires Inverse(toPods, toPairs)
    ensures NoEmptySet(toPods)
  {
  }

  /** topologyPairsMaps. */
  class TopologyPairsMaps {
    var toPods: PairToPods
    var toPairs: PodToPairs

    ghost predicate Valid()
      reads this
    {
      Inverse(toPods, toPairs)
    }

    constructor ()
      ensures Valid() && toPods == map[]
    {
      toPods, toPairs := map[], map[];
    }

    method AddTopologyPair(pair: Pair, q: AffinityPod)
      requires Valid()
      modifies this
      ensures Valid() && forall pr, p :: Holds(toPods, pr, p) <==> Holds(old(toPods), pr, p) || (pr == pair && p == q)
    {
      hide Inverse, Holds;
      AddKeepsInverse(toPods, toPairs, pair, q);
      toPods := WithPod(toPods, pair, q);
      toPairs := WithPair(toPairs, FullName(q), pair);
    }

    /** The maps hold no other pod of that full name: the pod taken out is the one put in. */
    method RemovePod(q: AffinityPod)
      requires Valid() && Only(toPods, q)
      modifies this
      ensures Valid() && forall pr, p :: Holds(toPods, pr, p) <==> Holds(old(toPods), pr, p) && p != q
    {
      hide FullName, Inverse, WithoutPod, Holds, Only, NoEmptySet;
      var name := FullName(q);
      var todo := if name in toPairs then toPairs[name] else {};
      ghost var listed, before := todo, toPods;
      InverseHasNoEmptySet(toPods, toPairs);
      while todo != {}
        invariant todo <= listed && toPairs == old(toPairs) && NoEmptySet(toPods)
        invariant forall pr, p ::
          Holds(toPods, pr, p) <==>
          Holds(before, pr, p) && !(p == q && pr in listed && pr !in todo)
        decreases todo
      {
        var pair :| pair in todo;
        todo := todo - {pair};
        WithoutPodHolds(toPods, pair, q);
        toPods := WithoutPod(toPods, pair, q);
      }
      RemoveKeepsInverse(before, toPairs, toPods, q);
      toPairs := toPairs - {name};
    }

    method AppendMaps(other: TopologyPairsMaps)
      requires Valid() && other != this && other.Valid()
      modifies this
      ensures Valid()
      ensures forall pr, p :: Holds(toPods, pr, p) <==> Holds(old(toPods), pr, p) || Holds(other.toPods, pr, p)
    {
      hide Inverse;
      var pairs := other.toPods.Keys;
      while pairs != {}
        invariant Valid()
        invariant forall pr, p ::
          Holds(toPods, pr, p) <==>
          Holds(old(toPods), pr, p) || (Holds(other.toPods, pr, p) && pr !in pairs)
        decreases pairs
      {
        var pair :| pair in pairs;
        var pods := other.toPods[pair];
        while pods != {}
          invariant pods <= other.toPods[pair] && Valid()
          invariant forall pr, p ::
            Holds(toPods, pr, p) <==>
            (Holds(old(toPods), pr, p)
            || (Holds(other.toPods, pr, p) && (pr !in pairs || (pr == pair && p !in pods))))
          decreases pods
        {
          var p :| p in pods;
          AddTopologyPair(pair, p);
          pods := pods - {p};
        }
        pairs := pairs - {pair};
      }
    }
  }
}
