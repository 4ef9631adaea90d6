/** Inter-pod affinity metadata, kept up to date pod by pod and built from scratch
    (pkg/scheduler/algorithm/predicates/metadata.go). */
module AffinityMetadata {
  import opened Api
  import opened TopologyPairs

  type Labels = map<string, string>

  /** The pods in the cluster, each with the labels of its node. */
  type World = map<AffinityPod, Labels>

  type Matcher = (Selector, Pod) -> bool

  /** Whether the target is in one of the term's namespaces and matches its selector. */
  predicate TermMatches(mt: Matcher, t: Term, owner: AffinityPod, target: AffinityPod) {
    && (if t.namespaces == {}
      then target.pod.namespace == owner.pod.namespace else target.pod.namespace in t.namespaces)
    && mt(t.selector, target.pod)
  }

  predicate AllValid(terms: seq<Term>) { forall i :: 0 <= i < |terms| ==> terms[i].valid }

  predicate MatchesAll(mt: Matcher, terms: seq<Term>, owner: AffinityPod, target: AffinityPod) {
    |terms| > 0 && forall i :: 0 <= i < |terms| ==> TermMatches(mt, terms[i], owner, target)
  }

  predicate MatchesAny(mt: Matcher, terms: seq<Term>, owner: AffinityPod, target: AffinityPod) {
    exists i :: 0 <= i < |terms| && TermMatches(mt, terms[i], owner, target)
  }

  /** The node has this label. */
  predicate Located(labels: Labels, pair: Pair) { pair.key in labels && labels[pair.key] == pair.value }

  /** Some chosen term has this topology key. */
  predicate ByTerm(terms: seq<Term>, n: nat, chosen: Term -> bool, key: string)
    requires n <= |terms|
  {
    exists i :: 0 <= i < n && terms[i].key == key && chosen(terms[i])
  }

  // ----- which topology keys of a pod's node are recorded -----

  /** The pod has an anti-affinity term against the incoming pod. */
  predicate Repels(mt: Matcher, incoming: AffinityPod, q: AffinityPod, key: string) {
    ByTerm(q.antiAffinity, |q.antiAffinity|, t => TermMatches(mt, t, q, incoming), key)
  }

  /** The pod matches all affinity terms of the incoming pod. */
  predicate Attracts(mt: Matcher, incoming: AffinityPod, q: AffinityPod, key: string) {
    MatchesAll(mt, incoming.affinity, incoming, q) && ByTerm(incoming.affinity, |incoming.affinity|, _ => true, key)
  }

  /** The pod matches an anti-affinity term of the incoming pod, one with this key. */
  predicate Repelled(mt: Matcher, incoming: AffinityPod, q: AffinityPod, key: string) {
    ByTerm(incoming.antiAffinity, |incoming.antiAffinity|, t => TermMatches(mt, t, incoming, q), key)
  }

  /** What AddPod records instead: the pod matches some anti-affinity term, and some term, not
      necessarily the same, has this key. */
  predicate RepelledSomehow(mt: Matcher, incoming: AffinityPod, q: AffinityPod, key: string) {
    && MatchesAny(mt, incoming.antiAffinity, incoming, q)
    && ByTerm(incoming.antiAffinity, |incoming.antiAffinity|, _ => true, key)
  }

  type Wants = (AffinityPod, string) -> bool

  ghost function Repelling(mt: Matcher, incoming: AffinityPod): Wants { (q, key) => Repels(mt, incoming, q, key) }

  ghost function Attracting(mt: Matcher, incoming: AffinityPod): Wants { (q, key) => Attracts(mt, incoming, q, key) }

  ghost function BeingRepelled(mt: Matcher, incoming: AffinityPod): Wants { (q, key) => Repelled(mt, incoming, q, key) }

  ghost function BeingRepelledSomehow(mt: Matcher, incoming: AffinityPod): Wants {
    (q, key) => RepelledSomehow(mt, incoming, q, key)
  }

  lemma RepelledIsSomehow(mt: Matcher, incoming: AffinityPod, q: AffinityPod, key: string)
    ensures Repelled(mt, incoming, q, key) ==> RepelledSomehow(mt, incoming, q, key)
  {
  }

  lemma SomehowIsMost(mt: Matcher, incoming: AffinityPod, q: AffinityPod)
    ensures forall key :: BeingRepelled(mt, incoming)(q, key) ==> BeingRepelledSomehow(mt, incoming)(q, key)
  {
    forall key ensures BeingRepelled(mt, incoming)(q, key) ==> BeingRepelledSomehow(mt, incoming)(q, key) {
      RepelledIsSomehow(mt, incoming, q, key);
    }
  }

  /** The pod matches no anti-affinity term of the incoming pod, or for each term whose topology key the
      node has, one with that key. */
  predicate MatchesNoneOrEach(mt: Matcher, incoming: AffinityPod, q: AffinityPod, labels: Labels) {
    || !MatchesAny(mt, incoming.antiAffinity, incoming, q)
    || forall i :: 0 <= i < |incoming.antiAffinity| && incoming.antiAffinity[i].key in labels ==>
         Repelled(mt, incoming, q, incoming.antiAffinity[i].key)
  }

  lemma SomehowExactIff(mt: Matcher, incoming: AffinityPod, q: AffinityPod, labels: Labels)
    ensures (forall pair :: Located(labels, pair) ==>
               (Repelled(mt, incoming, q, pair.key) <==> RepelledSomehow(mt, incoming, q, pair.key))) <==>
      MatchesNoneOrEach(mt, incoming, q, labels)
  {
    var terms := incoming.antiAffinity;
    if MatchesAny(mt, terms, incoming, q) {
      forall i | 0 <= i < |terms| && terms[i].key in labels
        ensures RepelledSomehow(mt, incoming, q, terms[i].key)
          && Located(labels, Pair(terms[i].key, labels[terms[i].key]))
      {
        assert ByTerm(terms, |terms|, _ => true, terms[i].key);
      }
    }
  }

  lemma AddedAntiAffinityExactForOneTerm(mt: Matcher, incoming: AffinityPod, q: AffinityPod, key: string)
    requires |incoming.antiAffinity| <= 1
    ensures Repelled(mt, incoming, q, key) <==> RepelledSomehow(mt, incoming, q, key)
  {
  }

  // ----- the index of a world -----

  /** The maps hold exactly the wanted pairs of the pods seen so far. */
  ghost predicate ShowsSeen(toPods: PairToPods, world: World, seen: set<AffinityPod>, wants: Wants) {
    forall pair, q ::
      Holds(toPods, pair, q) <==>
      q in seen && q in world && Located(world[q], pair) && wants(q, pair.key)
  }

  ghost predicate Shows(toPods: PairToPods, world: World, wants: Wants) {
    ShowsSeen(toPods, world, world.Keys, wants)
  }

  /** `after` holds in addition the wanted pairs of `q`. */
  ghost predicate Adds(before: PairToPods, after: PairToPods, q: AffinityPod, labels: Labels, wants: Wants) {
    forall pair, p ::
      Holds(after, pair, p) <==>
      Holds(before, pair, p) || (p == q && Located(labels, pair) && wants(q, pair.key))
  }

  ghost predicate Covers(toPods: PairToPods, world: World, least: Wants, most: Wants) {
    && (forall pair, q :: Holds(toPods, pair, q) ==> q in world && Located(world[q], pair) && most(q, pair.key))
    && (forall pair, q :: q in world && Located(world[q], pair) && least(q, pair.key) ==> Holds(toPods, pair, q))
  }

  ghost predicate OthersSame(before: PairToPods, after: PairToPods, q: AffinityPod) {
    forall pair, p :: p != q ==> (Holds(after, pair, p) <==> Holds(before, pair, p))
  }

  ghost predicate Removes(before: PairToPods, after: PairToPods, q: AffinityPod) {
    forall pair, p :: Holds(after, pair, p) <==> Holds(before, pair, p) && p != q
  }

  lemma ShowsAdded(before: PairToPods, after: PairToPods, world: World, q: AffinityPod, labels: Labels, wants: Wants)
    requires Shows(before, world, wants) && Adds(before, after, q, labels, wants) && q !in world
    ensures Shows(after, world[q := labels], wants)
  {
    hide Holds;
  }

  lemma CoversAdded(before: PairToPods, after: PairToPods, world: World, q: AffinityPod, labels: Labels, least: Wants,
                    most: Wants)
    requires Covers(before, world, least, most) && Adds(before, after, q, labels, most) && q !in world
    requires forall key :: least(q, key) ==> most(q, key)
    ensures Covers(after, world[q := labels], least, most)
  {
    hide Holds;
  }

  /** From an exact index, what AddPod does to the incoming anti-affinity index is what a rebuild does,
      exactly when the pod matches no term or one for each topology key of the node. */
  lemma AddedAntiAffinityExactIff(mt: Matcher, incoming: AffinityPod, before: PairToPods, after: PairToPods,
                                  world: World, q: AffinityPod, labels: Labels)
    requires Shows(before, world, BeingRepelled(mt, incoming)) && q !in world
    requires Adds(before, after, q, labels, BeingRepelledSomehow(mt, incoming))
    ensures Shows(after, world[q := labels], BeingRepelled(mt, incoming)) <==>
      MatchesNoneOrEach(mt, incoming, q, labels)
  {
    hide Holds, Repelled, RepelledSomehow, MatchesNoneOrEach, Located;
    SomehowExactIff(mt, incoming, q, labels);
    forall key ensures Repelled(mt, incoming, q, key) ==> RepelledSomehow(mt, incoming, q, key) {
      RepelledIsSomehow(mt, incoming, q, key);
    }
    assert forall pair :: !Holds(before, pair, q);
    assert forall pair ::
      Holds(after, pair, q) <==>
      Located(labels, pair) && RepelledSomehow(mt, incoming, q, pair.key);
    assert Shows(after, world[q := labels], BeingRepelled(mt, incoming)) <==>
      forall pair :: Holds(after, pair, q) <==> Located(labels, pair) && Repelled(mt, incoming, q, pair.key);
  }

  // ----- recording pairs -----

  /** Records the pod under the node's pair of every chosen term. */
  method AddPairs(maps: TopologyPairsMaps, q: AffinityPod, labels: Labels, terms: seq<Term>, chosen: Term -> bool)
    requires maps.Valid()
    modifies maps
    ensures maps.Valid()
    ensures forall pair, p ::
        Holds(maps.toPods, pair, p) <==>
        (Holds(old(maps.toPods), pair, p)
        || (p == q && Located(labels, pair) && ByTerm(terms, |terms|, chosen, pair.key)))
  {
    hide Holds, Inverse;
    ghost var before := maps.toPods;
    for i := 0 to |terms|
      invariant maps.Valid()
      invariant forall pair, p ::
          Holds(maps.toPods, pair, p) <==>
          Holds(before, pair, p) || (p == q && Located(labels, pair) && ByTerm(terms, i, chosen, pair.key))
    {
      var term := terms[i];
      ByTermStep(terms, i, chosen);
      if chosen(term) && term.key in labels {
        maps.AddTopologyPair(Pair(term.key, labels[term.key]), q);
      }
    }
  }

  lemma ByTermStep(terms: seq<Term>, i: nat, chosen: Term -> bool)
    requires i < |terms|
    ensures forall key ::
      ByTerm(terms, i + 1, chosen, key) <==>
      ByTerm(terms, i, chosen, key) || (terms[i].key == key && chosen(terms[i]))
  {
    forall key ensures
      ByTerm(terms, i + 1, chosen, key) <==>
      ByTerm(terms, i, chosen, key) || (terms[i].key == key && chosen(terms[i])) {
      if ByTerm(terms, i, chosen, key) {
        var j :| 0 <= j < i && terms[j].key == key && chosen(terms[j]);
        assert 0 <= j < i + 1;
      }
    }
  }

  /** getMatchingAntiAffinityTopologyPairsOfPod: the pairs where the existing pod repels the incoming
      one; an invalid term is an error. */
  method GetMatchingAntiAffinityTopologyPairsOfPod(mt: Matcher, incoming: AffinityPod, q: AffinityPod, labels: Labels)
    returns (r: Option<TopologyPairsMaps>)
    ensures r.None? <==> !AllValid(q.antiAffinity)
    ensures r.Some? ==>
      && fresh(r.value) && r.value.Valid()
      && Adds(map[], r.value.toPods, q, labels, Repelling(mt, incoming))
  {
    hide Inverse, Holds;
    var maps := new TopologyPairsMaps();
    NothingHeld();
    ghost var chosen := (t: Term) => TermMatches(mt, t, q, incoming);
    for i := 0 to |q.antiAffinity|
      invariant maps.Valid() && forall j :: 0 <= j < i ==> q.antiAffinity[j].valid
      invariant forall pair, p ::
          Holds(maps.toPods, pair, p) <==>
          p == q && Located(labels, pair) && ByTerm(q.antiAffinity, i, chosen, pair.key)
    {
      var term := q.antiAffinity[i];
      if !term.valid {
        return None;
      }
      ByTermStep(q.antiAffinity, i, chosen);
      if TermMatches(mt, term, q, incoming) && term.key in labels {
        maps.AddTopologyPair(Pair(term.key, labels[term.key]), q);
      }
    }
    r := Some(maps);
  }

  lemma NothingHeld()
    ensures forall pair, p :: !Holds(map[], pair, p)
  {
  }

  /** predicateMetadata, its three indexes. */
  class PredicateMetadata {
    const mt: Matcher
    const pod: AffinityPod
    const existing: TopologyPairsMaps
    const affinity: TopologyPairsMaps
    const anti: TopologyPairsMaps

    ghost predicate Valid()
      reads this, existing, affinity, anti
    {
      && existing != affinity && existing != anti && affinity != anti
      && existing.Valid() && affinity.Valid() && anti.Valid()
    }

    /** The first two indexes are those of the world; the third holds at least the pods that the
        incoming pod's anti-affinity repels, and only pods that match some such term. */
    ghost predicate Agrees(world: World)
      reads this, existing, affinity, anti
    {
      && Shows(existing.toPods, world, Repelling(mt, pod))
      && Shows(affinity.toPods, world, Attracting(mt, pod))
      && Covers(anti.toPods, world, BeingRepelled(mt, pod), BeingRepelledSomehow(mt, pod))
    }

    constructor (mt: Matcher, pod: AffinityPod, existing: TopologyPairsMaps, affinity: TopologyPairsMaps,
                 anti: TopologyPairsMaps)
      ensures this.mt == mt && this.pod == pod && this.existing == existing && this.affinity == affinity
      ensures this.anti == anti
    {
      this.mt, this.pod, this.existing, this.affinity, this.anti := mt, pod, existing, affinity, anti;
    }

    /** RemovePod: every index forgets the pod. */
    method RemovePod(q: AffinityPod, ghost world: World) returns (ok: bool)
      requires Valid() && Agrees(world) && forall p :: p in world && FullName(p) == FullName(q) ==> p == q
      modifies existing, affinity, anti
      ensures Valid() && ok == (FullName(q) != FullName(pod))
      ensures !ok ==> unchanged(existing) && unchanged(affinity) && unchanged(anti)
      ensures ok ==> Agrees(world - {q})
      ensures ok ==>
        Removes(old(existing.toPods), existing.toPods, q) && Removes(old(affinity.toPods), affinity.toPods, q)
      ensures ok ==> Removes(old(anti.toPods), anti.toPods, q)
    {
      hide Inverse, Holds, FullName, Repelling, Attracting, BeingRepelled, BeingRepelledSomehow;
      if FullName(q) == FullName(pod) {
        return false;
      }
      existing.RemovePod(q);
      affinity.RemovePod(q);
      anti.RemovePod(q);
      ok := true;
    }

    /** The third index, too, is that of the world. */
    ghost predicate Exact(world: World)
      reads this, anti
    {
      Shows(anti.toPods, world, BeingRepelled(mt, pod))
    }

    /** AddPod: for a pod on a node, valid selectors, and a pod not there yet, the first two indexes
        become those of the world with the pod, and the third keeps covering it. If the third was
        exact, it stays so exactly when the pod matches no anti-affinity term of the incoming pod, or
        one for each topology key of its node. */
    method AddPod(q: AffinityPod, node: Option<Labels>, ghost world: World) returns (ok: bool)
      requires Valid() && Agrees(world) && q !in world
      modifies existing, affinity, anti
      ensures Valid()
      ensures ok == (FullName(q) != FullName(pod) && node.Some? && AllValid(q.antiAffinity))
      ensures !ok ==> unchanged(existing) && unchanged(affinity) && unchanged(anti)
      ensures ok && q.pod.nodeName != "" && AllValid(pod.affinity) && AllValid(pod.antiAffinity) ==>
        Agrees(world[q := node.value])
      ensures ok ==> Adds(old(existing.toPods), existing.toPods, q, node.value, Repelling(mt, pod))
      ensures ok && q.pod.nodeName != "" && AllValid(pod.affinity) ==>
        Adds(old(affinity.toPods), affinity.toPods, q, node.value, Attracting(mt, pod))
      ensures ok && q.pod.nodeName != "" && AllValid(pod.antiAffinity) ==>
        Adds(old(anti.toPods), anti.toPods, q, node.value, BeingRepelledSomehow(mt, pod))
      ensures ok && q.pod.nodeName != "" && AllValid(pod.antiAffinity) && old(Exact(world)) ==>
        (Exact(world[q := node.value]) <==> MatchesNoneOrEach(mt, pod, q, node.value))
      ensures ok ==>
        OthersSame(old(affinity.toPods), affinity.toPods, q) && OthersSame(old(anti.toPods), anti.toPods, q)
      ensures ok && q.pod.nodeName == "" ==> unchanged(affinity) && unchanged(anti)
    {
      hide Inverse, Holds, FullName, Repelling, Attracting, BeingRepelled, BeingRepelledSomehow, Shows, Covers,
        MatchesNoneOrEach;
      if FullName(q) == FullName(pod) || node.None? {
        return false;
      }
      var labels := node.value;
      var matching := GetMatchingAntiAffinityTopologyPairsOfPod(mt, pod, q, labels);
      if matching.None? {
        return false;
      }
      ghost var before1, before2, before3 := existing.toPods, affinity.toPods, anti.toPods;
      existing.AppendMaps(matching.value);
      NothingHeld();
      ShowsAdded(before1, existing.toPods, world, q, labels, Repelling(mt, pod));
      if q.pod.nodeName != "" {
        AddToAffinity(q, labels);
        AddToAnti(q, labels);
        if AllValid(pod.antiAffinity) && old(Exact(world)) {
          AddedAntiAffinityExactIff(mt, pod, before3, anti.toPods, world, q, labels);
        }
        if AllValid(pod.affinity) && AllValid(pod.antiAffinity) {
          ShowsAdded(before2, affinity.toPods, world, q, labels, Attracting(mt, pod));
          SomehowIsMost(mt, pod, q);
          CoversAdded(before3, anti.toPods, world, q, labels, BeingRepelled(mt, pod), BeingRepelledSomehow(mt, pod));
        }
      }
      ok := true;
    }

    method AddToAffinity(q: AffinityPod, labels: Labels)
      requires affinity.Valid()
      modifies affinity
      ensures affinity.Valid()
      ensures AllValid(pod.affinity) ==> Adds(old(affinity.toPods), affinity.toPods, q, labels, Attracting(mt, pod))
      ensures OthersSame(old(affinity.toPods), affinity.toPods, q)
    {
      hide Inverse, Holds;
      if AllValid(pod.affinity) && MatchesAll(mt, pod.affinity, pod, q) {
        AddPairs(affinity, q, labels, pod.affinity, _ => true);
      }
    }

    method AddToAnti(q: AffinityPod, labels: Labels)
      requires anti.Valid()
      modifies anti
      ensures anti.Valid()
      ensures AllValid(pod.antiAffinity) ==>
        Adds(old(anti.toPods), anti.toPods, q, labels, BeingRepelledSomehow(mt, pod))
      ensures OthersSame(old(anti.toPods), anti.toPods, q)
    {
      hide Inverse, Holds;
      if AllValid(pod.antiAffinity) && MatchesAny(mt, pod.antiAffinity, pod, q) {
        AddPairs(anti, q, labels, pod.antiAffinity, _ => true);
      }
    }

    /** ShallowCopy: an equal index of its own. */
    method ShallowCopy() returns (copy: PredicateMetadata)
      requires Valid()
      ensures fresh(copy) && fresh(copy.existing) && fresh(copy.affinity) && fresh(copy.anti) && copy.Valid()
      ensures copy.mt == mt && copy.pod == pod
      ensures Same(copy.existing, existing) && Same(copy.affinity, affinity) && Same(copy.anti, anti)
    {
      hide Inverse, Holds;
      var e := CopyOf(existing);
      var a := CopyOf(affinity);
      var n := CopyOf(anti);
      copy := new PredicateMetadata(mt, pod, e, a, n);
    }
  }

  ghost predicate Same(a: TopologyPairsMaps, b: TopologyPairsMaps)
    reads a, b
  {
    a.toPods == b.toPods && a.toPairs == b.toPairs
  }

  method CopyOf(maps: TopologyPairsMaps) returns (copy: TopologyPairsMaps)
    requires maps.Valid()
    ensures fresh(copy) && copy.Valid() && Same(copy, maps)
  {
    hide Inverse, Holds;
    copy := new TopologyPairsMaps();
    NothingHeld();
    copy.AppendMaps(maps);
    HoldsDetermine(copy.toPods, copy.toPairs, maps.toPods, maps.toPairs);
  }

  /** What a failed reprieve does to the metadata: a pod added and removed again leaves no trace. */
  method AddThenRemove(meta: PredicateMetadata, q: AffinityPod, labels: Labels, ghost world: World)
    requires meta.Valid() && meta.Agrees(world) && forall p :: p in world ==> FullName(p) != FullName(q)
    requires FullName(q) != FullName(meta.pod) && q.pod.nodeName != ""
    requires AllValid(q.antiAffinity) && AllValid(meta.pod.affinity) && AllValid(meta.pod.antiAffinity)
    modifies meta.existing, meta.affinity, meta.anti
    ensures meta.Valid() && meta.Agrees(world)
    ensures meta.existing.toPods == old(meta.existing.toPods) && meta.existing.toPairs == old(meta.existing.toPairs)
    ensures meta.affinity.toPods == old(meta.affinity.toPods) && meta.affinity.toPairs == old(meta.affinity.toPairs)
    ensures meta.anti.toPods == old(meta.anti.toPods) && meta.anti.toPairs == old(meta.anti.toPairs)
  {
    hide Inverse, Holds, FullName, Repelling, Attracting, BeingRepelled, BeingRepelledSomehow, Shows, Covers;
    ghost var e, a, n := meta.existing.toPods, meta.affinity.toPods, meta.anti.toPods;
    ghost var ex, ax, nx := meta.existing.toPairs, meta.affinity.toPairs, meta.anti.toPairs;
    ShowsNoOther(e, world, Repelling(meta.mt, meta.pod), q);
    ShowsNoOther(a, world, Attracting(meta.mt, meta.pod), q);
    CoversNoOther(n, world, BeingRepelled(meta.mt, meta.pod), BeingRepelledSomehow(meta.mt, meta.pod), q);
    var ok := meta.AddPod(q, Some(labels), world);
    ok := meta.RemovePod(q, world[q := labels]);
    assert world[q := labels] - {q} == world;
    HoldsDetermine(meta.existing.toPods, meta.existing.toPairs, e, ex);
    HoldsDetermine(meta.affinity.toPods, meta.affinity.toPairs, a, ax);
    HoldsDetermine(meta.anti.toPods, meta.anti.toPairs, n, nx);
  }

  lemma ShowsNoOther(toPods: PairToPods, world: World, wants: Wants, q: AffinityPod)
    requires Shows(toPods, world, wants) && q !in world
    ensures forall pair :: !Holds(toPods, pair, q)
  {
  }

  lemma CoversNoOther(toPods: PairToPods, world: World, least: Wants, most: Wants, q: AffinityPod)
    requires Covers(toPods, world, least, most) && q !in world
    ensures forall pair :: !Holds(toPods, pair, q)
  {
  }

  // ----- from scratch -----

  datatype NodeEntry = NodeEntry(labels: Option<Labels>, pods: seq<AffinityPod>)

  type Nodes = map<string, NodeEntry>

  /** The world is what the nodes hold; an entry may lack its Node. */
  ghost predicate Placed(nodes: Nodes, world: World) {
    && (forall n, i :: n in nodes && 0 <= i < |nodes[n].pods| && nodes[n].labels.Some? ==>
          nodes[n].pods[i] in world && world[nodes[n].pods[i]] == nodes[n].labels.value)
    && (forall q :: q in world ==> exists n :: n in nodes && q in nodes[n].pods)
  }

  ghost function PodsOf(pods: seq<AffinityPod>, k: nat): set<AffinityPod>
    requires k <= |pods|
  {
    set i | 0 <= i < k :: pods[i]
  }

  ghost predicate OnNode(world: World, entry: NodeEntry) {
    entry.labels.Some? && forall i :: 0 <= i < |entry.pods| ==>
      entry.pods[i] in world && world[entry.pods[i]] == entry.labels.value
  }

  lemma SeenOneMore(before: PairToPods, after: PairToPods, world: World, seen: set<AffinityPod>, q: AffinityPod,
                    wants: Wants)
    requires ShowsSeen(before, world, seen, wants) && q in world && Adds(before, after, q, world[q], wants)
    ensures ShowsSeen(after, world, seen + {q}, wants)
  {
    hide Holds;
  }

  lemma SeenBoth(a: PairToPods, b: PairToPods, c: PairToPods, world: World, seen: set<AffinityPod>,
                 more: set<AffinityPod>, wants: Wants)
    requires ShowsSeen(a, world, seen, wants) && ShowsSeen(b, world, more, wants)
    requires forall pair, p :: Holds(c, pair, p) <==> Holds(a, pair, p) || Holds(b, pair, p)
    ensures ShowsSeen(c, world, seen + more, wants)
  {
    hide Holds;
  }

  lemma SeenNone(world: World, wants: Wants)
    ensures ShowsSeen(map[], world, {}, wants)
  {
  }

  lemma SeenAll(toPods: PairToPods, nodes: Nodes, world: World, seen: set<AffinityPod>, wants: Wants)
    requires Placed(nodes, world) && ShowsSeen(toPods, world, seen, wants)
    requires forall n :: n in nodes ==> PodsOf(nodes[n].pods, |nodes[n].pods|) <= seen
    ensures Shows(toPods, world, wants)
  {
    hide Holds;
    forall q | q in world ensures q in seen {
      var n :| n in nodes && q in nodes[n].pods;
      assert q in PodsOf(nodes[n].pods, |nodes[n].pods|);
    }
  }

  /** An existing pod of the entry has an invalid anti-affinity term. */
  predicate InvalidPod(entry: NodeEntry) {
    exists i :: 0 <= i < |entry.pods| && !AllValid(entry.pods[i].antiAffinity)
  }

  method AddExistingOfNode(mt: Matcher, incoming: AffinityPod, maps: TopologyPairsMaps, entry: NodeEntry,
                           ghost world: World, ghost seen: set<AffinityPod>)
    returns (ok: bool)
    requires maps.Valid() && OnNode(world, entry) && ShowsSeen(maps.toPods, world, seen, Repelling(mt, incoming))
    modifies maps
    ensures ok <==> !InvalidPod(entry)
    ensures ok ==>
      maps.Valid() && ShowsSeen(maps.toPods, world, seen + PodsOf(entry.pods, |entry.pods|), Repelling(mt, incoming))
  {
    hide Inverse, Holds, ShowsSeen, Repels;
    assert seen + PodsOf(entry.pods, 0) == seen;
    for i := 0 to |entry.pods|
      invariant maps.Valid() && ShowsSeen(maps.toPods, world, seen + PodsOf(entry.pods, i), Repelling(mt, incoming))
      invariant forall j :: 0 <= j < i ==> AllValid(entry.pods[j].antiAffinity)
    {
      var q := entry.pods[i];
      assert seen + PodsOf(entry.pods, i + 1) == (seen + PodsOf(entry.pods, i)) + {q};
      ghost var before := maps.toPods;
      if q.affinity != [] || q.antiAffinity != [] {
        var matching := GetMatchingAntiAffinityTopologyPairsOfPod(mt, incoming, q, entry.labels.value);
        if matching.None? {
          return false;
        }
        maps.AppendMaps(matching.value);
        NothingHeld();
      } else {
        NoTermsNoPairs(mt, incoming, q);
      }
      SeenOneMore(before, maps.toPods, world, seen + PodsOf(entry.pods, i), q, Repelling(mt, incoming));
    }
    ok := true;
  }

  lemma NoTermsNoPairs(mt: Matcher, incoming: AffinityPod, q: AffinityPod)
    requires q.antiAffinity == []
    ensures forall key :: !Repelling(mt, incoming)(q, key)
  {
  }

  /** getTPMapMatchingExistingAntiAffinity, for any order of the nodes. */
  method BuildExisting(mt: Matcher, incoming: AffinityPod, nodes: Nodes, ghost world: World)
    returns (r: Option<TopologyPairsMaps>)
    requires Placed(nodes, world)
    ensures r.None? <==> exists n :: n in nodes && (nodes[n].labels.None? || InvalidPod(nodes[n]))
    ensures r.Some? ==> fresh(r.value) && r.value.Valid() && Shows(r.value.toPods, world, Repelling(mt, incoming))
  {
    hide Inverse, Holds, ShowsSeen, Shows, Repelling, InvalidPod;
    var maps := new TopologyPairsMaps();
    ghost var seen := {};
    SeenNone(world, Repelling(mt, incoming));
    var todo := nodes.Keys;
    while todo != {}
      invariant todo <= nodes.Keys && maps.Valid() && ShowsSeen(maps.toPods, world, seen, Repelling(mt, incoming))
      invariant forall n :: n in nodes && n !in todo ==>
        nodes[n].labels.Some? && !InvalidPod(nodes[n]) && PodsOf(nodes[n].pods, |nodes[n].pods|) <= seen
      decreases todo
    {
      var n :| n in todo;
      if nodes[n].labels.None? {
        return None;
      }
      var ok := AddExistingOfNode(mt, incoming, maps, nodes[n], world, seen);
      if !ok {
        return None;
      }
      seen := seen + PodsOf(nodes[n].pods, |nodes[n].pods|);
      todo := todo - {n};
    }
    SeenAll(maps.toPods, nodes, world, seen, Repelling(mt, incoming));
    r := Some(maps);
  }

  /** The affinity and anti-affinity pairs of one node's pods. */
  method IncomingOfNode(mt: Matcher, incoming: AffinityPod, entry: NodeEntry, ghost world: World)
    returns (ok: bool, affinity: TopologyPairsMaps, anti: TopologyPairsMaps)
    requires OnNode(world, entry)
    ensures ok <==> entry.pods == [] || AllValid(incoming.antiAffinity)
    ensures fresh(affinity) && fresh(anti)
    ensures ok ==>
      && affinity != anti && affinity.Valid() && anti.Valid()
      && ShowsSeen(affinity.toPods, world, PodsOf(entry.pods, |entry.pods|), Attracting(mt, incoming))
      && ShowsSeen(anti.toPods, world, PodsOf(entry.pods, |entry.pods|), BeingRepelled(mt, incoming))
  {
    hide Inverse, Holds, ShowsSeen, MatchesAll, TermMatches, AllValid;
    affinity := new TopologyPairsMaps();
    anti := new TopologyPairsMaps();
    SeenNone(world, Attracting(mt, incoming));
    SeenNone(world, BeingRepelled(mt, incoming));
    assert PodsOf(entry.pods, 0) == {};
    for i := 0 to |entry.pods|
      invariant affinity.Valid() && anti.Valid() && (i > 0 ==> AllValid(incoming.antiAffinity))
      invariant ShowsSeen(affinity.toPods, world, PodsOf(entry.pods, i), Attracting(mt, incoming))
      invariant ShowsSeen(anti.toPods, world, PodsOf(entry.pods, i), BeingRepelled(mt, incoming))
    {
      var q := entry.pods[i];
      assert PodsOf(entry.pods, i + 1) == PodsOf(entry.pods, i) + {q};
      ghost var before1, before2 := affinity.toPods, anti.toPods;
      if MatchesAll(mt, incoming.affinity, incoming, q) {
        AddPairs(affinity, q, entry.labels.value, incoming.affinity, _ => true);
      }
      SeenOneMore(before1, affinity.toPods, world, PodsOf(entry.pods, i), q, Attracting(mt, incoming));
      if !AllValid(incoming.antiAffinity) {
        return false, affinity, anti;
      }
      AddPairs(anti, q, entry.labels.value, incoming.antiAffinity, t => TermMatches(mt, t, incoming, q));
      SeenOneMore(before2, anti.toPods, world, PodsOf(entry.pods, i), q, BeingRepelled(mt, incoming));
    }
    ok := true;
  }

  /** getTPMapMatchingIncomingAffinityAntiAffinity, for any order of the nodes. Nothing is looked at
      unless the pod `asks` for affinity or anti-affinity, if only with empty lists of terms. */
  method BuildIncoming(mt: Matcher, incoming: AffinityPod, asks: bool, nodes: Nodes, ghost world: World)
    returns (r: Option<(TopologyPairsMaps, TopologyPairsMaps)>)
    requires Placed(nodes, world) && (incoming.affinity != [] || incoming.antiAffinity != [] ==> asks)
    ensures r.None? <==>
      && asks
      && (|| !AllValid(incoming.affinity) || (exists n :: n in nodes && nodes[n].labels.None?)
          || (!AllValid(incoming.antiAffinity) && exists n :: n in nodes && nodes[n].pods != []))
    ensures r.Some? ==>
      && fresh(r.value.0) && fresh(r.value.1) && r.value.0 != r.value.1 && r.value.0.Valid() && r.value.1.Valid()
      && Shows(r.value.0.toPods, world, Attracting(mt, incoming))
      && Shows(r.value.1.toPods, world, BeingRepelled(mt, incoming))
  {
    hide Inverse, Holds, ShowsSeen, Shows, Attracting, BeingRepelled, AllValid;
    var affinity := new TopologyPairsMaps();
    var anti := new TopologyPairsMaps();
    if !asks {
      NoTermsNothingShown(mt, incoming, world);
      return Some((affinity, anti));
    }
    if !AllValid(incoming.affinity) {
      return None;
    }
    ghost var seen := {};
    SeenNone(world, Attracting(mt, incoming));
    SeenNone(world, BeingRepelled(mt, incoming));
    var todo := nodes.Keys;
    while todo != {}
      invariant todo <= nodes.Keys && affinity.Valid() && anti.Valid()
      invariant ShowsSeen(affinity.toPods, world, seen, Attracting(mt, incoming))
      invariant ShowsSeen(anti.toPods, world, seen, BeingRepelled(mt, incoming))
      invariant forall n :: n in nodes && n !in todo ==>
          && nodes[n].labels.Some? && (nodes[n].pods == [] || AllValid(incoming.antiAffinity))
          && PodsOf(nodes[n].pods, |nodes[n].pods|) <= seen
      decreases todo
    {
      var n :| n in todo;
      if nodes[n].labels.None? {
        return None;
      }
      var ok, nodeAffinity, nodeAnti := IncomingOfNode(mt, incoming, nodes[n], world);
      if !ok {
        return None;
      }
      ghost var before1, before2, more := affinity.toPods, anti.toPods, PodsOf(nodes[n].pods, |nodes[n].pods|);
      affinity.AppendMaps(nodeAffinity);
      SeenBoth(before1, nodeAffinity.toPods, affinity.toPods, world, seen, more, Attracting(mt, incoming));
      anti.AppendMaps(nodeAnti);
      SeenBoth(before2, nodeAnti.toPods, anti.toPods, world, seen, more, BeingRepelled(mt, incoming));
      seen := seen + more;
      todo := todo - {n};
    }
    SeenAll(affinity.toPods, nodes, world, seen, Attracting(mt, incoming));
    SeenAll(anti.toPods, nodes, world, seen, BeingRepelled(mt, incoming));
    r := Some((affinity, anti));
  }

  lemma NoTermsNothingShown(mt: Matcher, incoming: AffinityPod, world: World)
    requires incoming.affinity == [] && incoming.antiAffinity == []
    ensures Shows(map[], world, Attracting(mt, incoming)) && Shows(map[], world, BeingRepelled(mt, incoming))
    ensures AllValid(incoming.affinity) && AllValid(incoming.antiAffinity)
  {
  }

  // ----- what the indexes record, in the pods' own fields -----

  /** The term, in its namespaces or its owner's if it names none, selects the target. */
  predicate Selects(mt: Matcher, t: Term, owner: Pod, target: Pod) {
    target.namespace in (if t.namespaces == {} then {owner.namespace} else t.namespaces) && mt(t.selector, target)
  }

  /** The pod is on a node with this pair. */
  predicate Under(world: World, pair: Pair, q: AffinityPod) {
    q in world && pair.key in world[q] && world[q][pair.key] == pair.value
  }

  /** Under a pair are the pods with an anti-affinity term of its key that selects the incoming pod. */
  ghost predicate RecordsRepelling(mt: Matcher, incoming: AffinityPod, world: World, toPods: PairToPods) {
    forall pair, q :: Holds(toPods, pair, q) <==>
      Under(world, pair, q) && HasTerm(q.antiAffinity, pair.key, t => Selects(mt, t, q.pod, incoming.pod))
  }

  predicate HasTerm(terms: seq<Term>, key: string, c: Term -> bool) {
    exists i :: 0 <= i < |terms| && terms[i].key == key && c(terms[i])
  }

  /** Under a pair are the pods that every affinity term of the incoming pod selects, if one has its key. */
  ghost predicate RecordsAttracted(mt: Matcher, incoming: AffinityPod, world: World, toPods: PairToPods) {
    forall pair, q :: Holds(toPods, pair, q) <==>
      && Under(world, pair, q) && HasTerm(incoming.affinity, pair.key, _ => true)
      && forall i :: 0 <= i < |incoming.affinity| ==> Selects(mt, incoming.affinity[i], incoming.pod, q.pod)
  }

  /** Under a pair are the pods that an anti-affinity term of the incoming pod with its key selects. */
  ghost predicate RecordsRepelled(mt: Matcher, incoming: AffinityPod, world: World, toPods: PairToPods) {
    forall pair, q :: Holds(toPods, pair, q) <==>
      Under(world, pair, q) && HasTerm(incoming.antiAffinity, pair.key, t => Selects(mt, t, incoming.pod, q.pod))
  }

  /** Building fails exactly over an entry without a Node, an invalid anti-affinity term of a pod there, an
      invalid affinity term of the incoming pod, or an invalid anti-affinity term of it when there are pods. */
  ghost predicate Unbuildable(incoming: AffinityPod, nodes: Nodes) {
    || (exists n :: n in nodes && nodes[n].labels.None?)
    || (exists n, q, t: Term :: n in nodes && q in nodes[n].pods && t in q.antiAffinity && !t.valid)
    || (exists t: Term :: t in incoming.affinity && !t.valid)
    || ((exists t: Term :: t in incoming.antiAffinity && !t.valid) && exists n, q :: n in nodes && q in nodes[n].pods)
  }

  lemma AllValidIff(terms: seq<Term>)
    ensures AllValid(terms) <==> !exists t: Term :: t in terms && !t.valid
  {
  }

  lemma InvalidPodIff(entry: NodeEntry)
    ensures InvalidPod(entry) <==> exists q, t: Term :: q in entry.pods && t in q.antiAffinity && !t.valid
  {
    hide AllValid;
    if q, t: Term :| q in entry.pods && t in q.antiAffinity && !t.valid {
      AllValidIff(q.antiAffinity);
      var i :| 0 <= i < |entry.pods| && entry.pods[i] == q;
      assert !AllValid(entry.pods[i].antiAffinity);
    }
    if InvalidPod(entry) {
      var i :| 0 <= i < |entry.pods| && !AllValid(entry.pods[i].antiAffinity);
      AllValidIff(entry.pods[i].antiAffinity);
      assert entry.pods[i] in entry.pods;
    }
  }

  lemma UnbuildableIff(incoming: AffinityPod, nodes: Nodes)
    ensures Unbuildable(incoming, nodes) <==>
      || (exists n :: n in nodes && (nodes[n].labels.None? || InvalidPod(nodes[n])))
      || !AllValid(incoming.affinity)
      || (!AllValid(incoming.antiAffinity) && exists n :: n in nodes && nodes[n].pods != [])
  {
    hide AllValid, InvalidPod;
    AllValidIff(incoming.affinity);
    AllValidIff(incoming.antiAffinity);
    forall n | n in nodes
      ensures InvalidPod(nodes[n]) <==> exists q, t: Term :: q in nodes[n].pods && t in q.antiAffinity && !t.valid
      ensures nodes[n].pods != [] <==> exists q :: q in nodes[n].pods
    {
      InvalidPodIff(nodes[n]);
      assert nodes[n].pods != [] ==> nodes[n].pods[0] in nodes[n].pods;
    }
  }

  lemma SelectsIff(mt: Matcher)
    ensures forall t, owner, target :: TermMatches(mt, t, owner, target) <==> Selects(mt, t, owner.pod, target.pod)
  {
  }

  lemma RepellingRecorded(mt: Matcher, incoming: AffinityPod, world: World, toPods: PairToPods)
    requires Shows(toPods, world, Repelling(mt, incoming))
    ensures RecordsRepelling(mt, incoming, world, toPods)
  {
    hide Holds, TermMatches, Selects;
    SelectsIff(mt);
    forall pair, q ensures Holds(toPods, pair, q) <==>
      Under(world, pair, q) && HasTerm(q.antiAffinity, pair.key, t => Selects(mt, t, q.pod, incoming.pod)) {
      assert Repelling(mt, incoming)(q, pair.key) == Repels(mt, incoming, q, pair.key);
    }
  }

  lemma AttractedRecorded(mt: Matcher, incoming: AffinityPod, world: World, toPods: PairToPods)
    requires Shows(toPods, world, Attracting(mt, incoming))
    ensures RecordsAttracted(mt, incoming, world, toPods)
  {
    hide Holds, TermMatches, Selects;
    SelectsIff(mt);
    forall pair, q ensures Holds(toPods, pair, q) <==>
      && Under(world, pair, q) && HasTerm(incoming.affinity, pair.key, _ => true)
      && forall i :: 0 <= i < |incoming.affinity| ==> Selects(mt, incoming.affinity[i], incoming.pod, q.pod) {
      assert Attracting(mt, incoming)(q, pair.key) == Attracts(mt, incoming, q, pair.key);
    }
  }

  lemma RepelledRecorded(mt: Matcher, incoming: AffinityPod, world: World, toPods: PairToPods)
    requires Shows(toPods, world, BeingRepelled(mt, incoming))
    ensures RecordsRepelled(mt, incoming, world, toPods)
  {
    hide Holds, TermMatches, Selects;
    SelectsIff(mt);
    forall pair, q ensures Holds(toPods, pair, q) <==>
      Under(world, pair, q) && HasTerm(incoming.antiAffinity, pair.key, t => Selects(mt, t, incoming.pod, q.pod)) {
      assert BeingRepelled(mt, incoming)(q, pair.key) == Repelled(mt, incoming, q, pair.key);
    }
  }

  /** GetMetadata: built from scratch, all three indexes are exactly those of the world; it fails
      exactly when an entry lacks its Node or a selector that is looked at is invalid. */
  method GetMetadata(mt: Matcher, pod: AffinityPod, asks: bool, nodes: Nodes, ghost world: World)
    returns (meta: Option<PredicateMetadata>)
    requires Placed(nodes, world) && (pod.affinity != [] || pod.antiAffinity != [] ==> asks)
    ensures meta.None? <==>
      || (exists n :: n in nodes && (nodes[n].labels.None? || InvalidPod(nodes[n])))
      || !AllValid(pod.affinity)
      || (!AllValid(pod.antiAffinity) && exists n :: n in nodes && nodes[n].pods != [])
    ensures meta.None? <==> Unbuildable(pod, nodes)
    ensures meta.Some? ==>
      && fresh(meta.value) && fresh(meta.value.existing) && fresh(meta.value.affinity) && fresh(meta.value.anti)
      && meta.value.mt == mt && meta.value.pod == pod && meta.value.Valid() && meta.value.Agrees(world)
      && Shows(meta.value.anti.toPods, world, BeingRepelled(mt, pod))
      && RecordsRepelling(mt, pod, world, meta.value.existing.toPods)
      && RecordsAttracted(mt, pod, world, meta.value.affinity.toPods)
      && RecordsRepelled(mt, pod, world, meta.value.anti.toPods)
  {
    hide Inverse, Holds, Shows, Attracting, BeingRepelled, BeingRepelledSomehow, Repelling, AllValid, InvalidPod,
      Covers, Placed, RecordsRepelling, RecordsAttracted, RecordsRepelled, Unbuildable;
    UnbuildableIff(pod, nodes);
    var existing := BuildExisting(mt, pod, nodes, world);
    if existing.None? {
      return None;
    }
    if !asks {
      NoTermsNothingShown(mt, pod, world);
    }
    var incoming := BuildIncoming(mt, pod, asks, nodes, world);
    if incoming.None? {
      return None;
    }
    var m := new PredicateMetadata(mt, pod, existing.value, incoming.value.0, incoming.value.1);
    ExactCovers(m.anti.toPods, world, mt, pod);
    RepellingRecorded(mt, pod, world, m.existing.toPods);
    AttractedRecorded(mt, pod, world, m.affinity.toPods);
    RepelledRecorded(mt, pod, world, m.anti.toPods);
    meta := Some(m);
  }

  lemma ExactCovers(toPods: PairToPods, world: World, mt: Matcher, incoming: AffinityPod)
    requires Shows(toPods, world, BeingRepelled(mt, incoming))
    ensures Covers(toPods, world, BeingRepelled(mt, incoming), BeingRepelledSomehow(mt, incoming))
  {
    hide Holds, BeingRepelled, BeingRepelledSomehow;
    forall q, key ensures BeingRepelled(mt, incoming)(q, key) ==> BeingRepelledSomehow(mt, incoming)(q, key) {
      SomehowIsMost(mt, incoming, q);
    }
  }

  /** With at most one anti-affinity term, covering is agreeing: the third index, too, is exactly the
      rebuilt one. */
  lemma OneTermIsExact(toPods: PairToPods, world: World, mt: Matcher, incoming: AffinityPod)
    requires |incoming.antiAffinity| <= 1
    requires Covers(toPods, world, BeingRepelled(mt, incoming), BeingRepelledSomehow(mt, incoming))
    ensures Shows(toPods, world, BeingRepelled(mt, incoming))
  {
    hide Holds, Repelled, RepelledSomehow;
    forall pair: Pair, q | Holds(toPods, pair, q) ensures Repelled(mt, incoming, q, pair.key) {
      AddedAntiAffinityExactForOneTerm(mt, incoming, q, pair.key);
    }
  }

  /** With two terms the index may exceed a rebuild. An incoming pod has anti-affinity by host against
      one kind of pods and by zone against another; a pod of the first kind is recorded by zone, too. */
  method ExceedingAdd(base: Pod) returns (meta: PredicateMetadata, ghost world: World)
    ensures meta.Valid() && meta.Agrees(world) && !meta.Exact(world)
  {
    var byHost, byZone := Term("host", {}, "first", true), Term("zone", {}, "second", true);
    var incoming := AffinityPod(base.(name := "incoming", nodeName := ""), [], [byHost, byZone]);
    var q := AffinityPod(base.(name := "existing", nodeName := "n"), [], []);
    var labels := map["host" := "n", "zone" := "z"];
    var mt: Matcher := (selector, pod) => selector == "first";
    hide Inverse, Holds, Shows, Covers, Repelling, Attracting, BeingRepelled, BeingRepelledSomehow;
    assert FullName(q) != FullName(incoming) by {
      assert FullName(q)[0] == 'e' && FullName(incoming)[0] == 'i';
    }
    assert !MatchesNoneOrEach(mt, incoming, q, labels) by { FirstKindOnly(mt, incoming, q, labels); }
    world := map[];
    var built := GetMetadata(mt, incoming, true, map[], map[]);
    meta := built.value;
    var ok := meta.AddPod(q, Some(labels), map[]);
    world := map[q := labels];
    assert (map[])[q := labels] == world;
  }

  lemma FirstKindOnly(mt: Matcher, incoming: AffinityPod, q: AffinityPod, labels: Labels)
    requires incoming.antiAffinity == [Term("host", {}, "first", true), Term("zone", {}, "second", true)]
    requires incoming.pod.namespace == q.pod.namespace && mt("first", q.pod) && !mt("second", q.pod) && "zone" in labels
    ensures !MatchesNoneOrEach(mt, incoming, q, labels)
  {
    var terms := incoming.antiAffinity;
    assert TermMatches(mt, terms[0], incoming, q);
    assert terms[1].key == "zone" && terms[0].key[0] == 'h';
    assert !Repelled(mt, incoming, q, terms[1].key);
  }
}
