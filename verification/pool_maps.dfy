/** The cache's map of pools: where an entry is, which pool a node belongs to, and what moving an
    entry does (pkg/scheduler/internal/cache/cache.go). */
module PoolMaps {
  import opened Api
  import opened Resources
  import opened NodeInfos
  import opened PoolStates
  import opened MapSums

  type Pools = map<string, PoolState>

  /** Whether a selector selects a node with these labels; the source asks the label library. */
  type Matcher = (Selector, map<string, string>) -> bool

  // ----- where an entry is -----

  /** Some pool that has an entry of this name; the default pool if none has. */
  ghost function PoolOf(pools: Pools, x: string): string {
    if n :| n in pools && x in pools[n].nodes then n else DefaultPoolName
  }

  ghost function AllNames(pools: Pools): set<string> {
    set n, x | n in pools && x in pools[n].nodes :: x
  }

  /** All entries of all pools by name. */
  ghost function Flat(pools: Pools): map<string, NodeInfo> {
    map x | x in AllNames(pools) :: pools[PoolOf(pools, x)].nodes[x]
  }

  /** No name is held by two pools. */
  ghost predicate NamesUnique(pools: Pools) {
    forall n, m, x {:trigger x in pools[n].nodes, x in pools[m].nodes} ::
      n in pools && m in pools && x in pools[n].nodes && x in pools[m].nodes ==> n == m
  }

  lemma FlatAt(pools: Pools, n: string, x: string)
    requires NamesUnique(pools) && n in pools && x in pools[n].nodes
    ensures PoolOf(pools, x) == n && x in Flat(pools) && Flat(pools)[x] == pools[n].nodes[x]
  {
    assert x in AllNames(pools);
  }

  lemma FlatFrom(pools: Pools, x: string)
    requires x in Flat(pools)
    ensures PoolOf(pools, x) in pools && x in pools[PoolOf(pools, x)].nodes
    ensures Flat(pools)[x] == pools[PoolOf(pools, x)].nodes[x]
  {
    assert x in AllNames(pools);
  }

  lemma NotFlat(pools: Pools, x: string)
    requires x !in Flat(pools)
    ensures PoolOf(pools, x) == DefaultPoolName && forall n :: n in pools ==> x !in pools[n].nodes
  {
    assert forall n :: n in pools && x in pools[n].nodes ==> x in AllNames(pools);
  }

  lemma UniquePut(pools: Pools, n: string, p: PoolState, x: string, ni: NodeInfo)
    requires NamesUnique(pools) && n in pools && p.nodes == pools[n].nodes[x := ni]
    requires x in Flat(pools) ==> x in pools[n].nodes
    ensures NamesUnique(pools[n := p])
  {
    var q := pools[n := p];
    forall a | a in q && x in q[a].nodes
      ensures a == n
    {
      if a != n {
        FlatAt(pools, a, x);
        FlatAt(pools, n, x);
      }
    }
    forall a, b, y | a in q && b in q && y in q[a].nodes && y in q[b].nodes
      ensures a == b
    {
      if y != x {
        assert y in pools[a].nodes && y in pools[b].nodes;
      }
    }
  }

  lemma UniqueDrop(pools: Pools, n: string, p: PoolState, x: string)
    requires NamesUnique(pools) && n in pools && p.nodes == pools[n].nodes - {x} && x in pools[n].nodes
    ensures NamesUnique(pools[n := p])
  {
    var q := pools[n := p];
    forall a, b, y | a in q && b in q && y in q[a].nodes && y in q[b].nodes
      ensures a == b
    {
      assert y in pools[a].nodes && y in pools[b].nodes;
    }
  }

  /** A pool whose entries change at one name, free in the other pools, changes all entries there. */
  lemma FlatPut(pools: Pools, n: string, p: PoolState, x: string, ni: NodeInfo)
    requires NamesUnique(pools) && n in pools && p.nodes == pools[n].nodes[x := ni]
    requires x in Flat(pools) ==> x in pools[n].nodes
    ensures NamesUnique(pools[n := p]) && Flat(pools[n := p]) == Flat(pools)[x := ni]
    ensures forall y :: y in Flat(pools) && y != x ==> PoolOf(pools[n := p], y) == PoolOf(pools, y)
    ensures PoolOf(pools[n := p], x) == n
  {
    hide NamesUnique, PoolOf, AllNames, Flat;
    var q := pools[n := p];
    UniquePut(pools, n, p, x, ni);
    FlatAt(q, n, x);
    forall y | y in Flat(pools) && y != x
      ensures y in Flat(q) && Flat(q)[y] == Flat(pools)[y] && PoolOf(q, y) == PoolOf(pools, y)
    {
      FlatFrom(pools, y);
      FlatAt(q, PoolOf(pools, y), y);
    }
    forall y | y in Flat(q) && y != x
      ensures y in Flat(pools)
    {
      FlatFrom(q, y);
      FlatAt(pools, PoolOf(q, y), y);
    }
  }

  lemma FlatDrop(pools: Pools, n: string, p: PoolState, x: string)
    requires NamesUnique(pools) && n in pools && p.nodes == pools[n].nodes - {x} && x in pools[n].nodes
    ensures NamesUnique(pools[n := p]) && Flat(pools[n := p]) == Flat(pools) - {x}
    ensures forall y :: y in Flat(pools) && y != x ==> PoolOf(pools[n := p], y) == PoolOf(pools, y)
  {
    hide NamesUnique, PoolOf, AllNames, Flat;
    var q := pools[n := p];
    UniqueDrop(pools, n, p, x);
    forall y | y in Flat(pools) && y != x
      ensures y in Flat(q) && Flat(q)[y] == Flat(pools)[y] && PoolOf(q, y) == PoolOf(pools, y)
    {
      FlatFrom(pools, y);
      FlatAt(q, PoolOf(pools, y), y);
    }
    forall y | y in Flat(q)
      ensures y in Flat(pools) && y != x
    {
      FlatFrom(q, y);
      FlatAt(pools, PoolOf(q, y), y);
      FlatAt(pools, n, x);
    }
  }

  // ----- which pool a node belongs to -----

  /** MatchNode: never true of the default pool or of a pool without a selector. */
  predicate MatchNode(mt: Matcher, p: PoolState, node: Node) {
    && p.pool.Some? && p.pool.value.name != DefaultPoolName
    && p.pool.value.spec.nodeSelector.Some? && mt(p.pool.value.spec.nodeSelector.value, node.labels)
  }

  predicate Matches(mt: Matcher, pools: Pools, node: Node, n: string) {
    n in pools && MatchNode(mt, pools[n], node)
  }

  /** `n` is the one pool that matches, `except` left aside. */
  ghost predicate OnlyMatch(mt: Matcher, pools: Pools, node: Node, except: set<string>, n: string) {
    && Matches(mt, pools, node, n) && n !in except
    && forall m :: Matches(mt, pools, node, m) && m !in except ==> m == n
  }

  /** The pool a node belongs to: the one that matches it, if exactly one does, and otherwise the
      default pool. */
  ghost function Home(mt: Matcher, pools: Pools, node: Node, except: set<string> := {}): string {
    if n :| OnlyMatch(mt, pools, node, except, n) then n else DefaultPoolName
  }

  lemma HomeCases(mt: Matcher, pools: Pools, node: Node, except: set<string>)
    ensures var h := Home(mt, pools, node, except);
      OnlyMatch(mt, pools, node, except, h) ||
      (h == DefaultPoolName && forall n :: !OnlyMatch(mt, pools, node, except, n))
  {
  }

  /** The same pools with the same selectors, whatever their entries. */
  ghost predicate SameSpecs(a: Pools, b: Pools) {
    a.Keys == b.Keys && forall n :: n in a ==> a[n].pool == b[n].pool
  }

  lemma SameSpecsSameHome(mt: Matcher, a: Pools, b: Pools, node: Node, except: set<string>)
    requires SameSpecs(a, b)
    ensures Home(mt, a, node, except) == Home(mt, b, node, except)
    ensures forall n :: Matches(mt, a, node, n) == Matches(mt, b, node, n)
  {
    assert forall n :: Matches(mt, a, node, n) == Matches(mt, b, node, n);
    HomeCases(mt, a, node, except);
    HomeCases(mt, b, node, except);
    var h := Home(mt, a, node, except);
    if OnlyMatch(mt, a, node, except, h) {
      assert OnlyMatch(mt, b, node, except, h);
    } else {
      var h' := Home(mt, b, node, except);
      if OnlyMatch(mt, b, node, except, h') {
        assert OnlyMatch(mt, a, node, except, h');
      }
    }
  }

  /** Every entry with a Node is in the pool the node belongs to. */
  ghost predicate Placed(mt: Matcher, pools: Pools) {
    forall x :: x in Flat(pools) && Flat(pools)[x].node.Some? ==>
      PoolOf(pools, x) == Home(mt, pools, Flat(pools)[x].node.value)
  }

  // ----- soundness of the map -----

  /** The default pool exists, and every other pool is stored under its own name. */
  predicate Keyed(pools: Pools) {
    && DefaultPoolName in pools && pools[DefaultPoolName].pool.None?
    && forall n :: n in pools && n != DefaultPoolName ==> pools[n].pool.Some? && pools[n].pool.value.name == n
  }

  /** The pools are keyed by name, no node name is in two of them, and Nodes carry their entry's
      name. Nothing is said of sums or trees. */
  ghost predicate Laid(pools: Pools) {
    Keyed(pools) && NamesUnique(pools) && forall n :: n in pools ==> Named(pools[n].nodes)
  }

  ghost predicate AllAccounted(pools: Pools) {
    forall n :: n in pools ==> Accounted(pools[n])
  }

  ghost predicate AllTreed(pools: Pools) {
    forall n :: n in pools ==> Treed(pools[n])
  }

  /** Entries' aggregates are right, and an entry without a Node lists pods. */
  ghost predicate EntriesOk(flat: map<string, NodeInfo>) {
    forall x :: x in flat ==> Consistent(flat[x]) && (flat[x].node.None? ==> flat[x].pods != [])
  }

  ghost predicate PoolsOk(pools: Pools) {
    Laid(pools) && AllAccounted(pools) && AllTreed(pools) && EntriesOk(Flat(pools))
  }

  // ----- moving an entry -----

  /** RemoveNodeInfo from one pool, then AddNodeInfo to another. */
  function MoveEntry(pools: Pools, a: string, b: string, x: string): Pools
    requires a in pools && b in pools && x in pools[a].nodes
  {
    var e := pools[a].nodes[x];
    var out := pools[a := HandOut(pools[a], e)];
    out[b := TakeOver(out[b], e)]
  }

  /** Whatever the tree holds, a move keeps all entries and moves only the one. */
  lemma MoveEntryLaid(pools: Pools, a: string, b: string, x: string)
    requires Laid(pools) && a in pools && b in pools && a != b && x in pools[a].nodes
    requires pools[a].nodes[x].node.Some?
    ensures var q := MoveEntry(pools, a, b, x);
      && Laid(q) && SameSpecs(pools, q) && Flat(q) == Flat(pools) && PoolOf(q, x) == b
      && (forall y :: y in Flat(pools) && y != x ==> PoolOf(q, y) == PoolOf(pools, y))
      && (forall n :: n in pools && n != a && n != b ==> q[n] == pools[n])
      && q[a].nodes == pools[a].nodes - {x} && q[b].nodes == pools[b].nodes[x := pools[a].nodes[x]]
  {
    hide HandOut, TakeOver, PoolOf, Flat, NamesUnique, Keyed, Named, Laid;
    var e := pools[a].nodes[x];
    LaidNamed(pools, a, x);
    HandOutParts(pools[a], e);
    var out := pools[a := HandOut(pools[a], e)];
    DropLaid(pools, a, out[a], x);
    TakeOverParts(out[b], e);
    var q := out[b := TakeOver(out[b], e)];
    PutLaid(out, b, q[b], x, e);
    assert Flat(q) == Flat(pools);
  }

  lemma LaidNamed(pools: Pools, n: string, x: string)
    requires Laid(pools) && n in pools && x in pools[n].nodes
    ensures pools[n].nodes[x].node.Some? ==> pools[n].nodes[x].node.value.name == x
    ensures x in Flat(pools) && Flat(pools)[x] == pools[n].nodes[x] && PoolOf(pools, x) == n
  {
    hide Flat, PoolOf;
    FlatAt(pools, n, x);
  }

  /** One entry of a pool changes, or comes in under a free name. */
  lemma PutLaid(pools: Pools, n: string, p: PoolState, x: string, e: NodeInfo)
    requires Laid(pools) && n in pools && p.pool == pools[n].pool && p.nodes == pools[n].nodes[x := e]
    requires (x in Flat(pools) ==> x in pools[n].nodes) && (e.node.Some? ==> e.node.value.name == x)
    ensures Laid(pools[n := p]) && SameSpecs(pools, pools[n := p]) && Flat(pools[n := p]) == Flat(pools)[x := e]
    ensures forall y :: y in Flat(pools) && y != x ==> PoolOf(pools[n := p], y) == PoolOf(pools, y)
    ensures PoolOf(pools[n := p], x) == n
  {
    hide PoolOf, Flat, NamesUnique, Keyed, Named;
    FlatPut(pools, n, p, x, e);
    NamedPut(pools[n].nodes, x, e);
    KeyedSame(pools, pools[n := p]);
  }

  /** One entry of a pool goes. */
  lemma DropLaid(pools: Pools, n: string, p: PoolState, x: string)
    requires Laid(pools) && n in pools && p.pool == pools[n].pool && x in pools[n].nodes
    requires p.nodes == pools[n].nodes - {x}
    ensures Laid(pools[n := p]) && SameSpecs(pools, pools[n := p]) && Flat(pools[n := p]) == Flat(pools) - {x}
    ensures forall y :: y in Flat(pools) && y != x ==> PoolOf(pools[n := p], y) == PoolOf(pools, y)
  {
    hide PoolOf, Flat, NamesUnique, Keyed, Named;
    FlatDrop(pools, n, p, x);
    NamedPut(pools[n].nodes, x, Empty);
    KeyedSame(pools, pools[n := p]);
  }

  lemma NamedAt(nodes: map<string, NodeInfo>, x: string)
    requires Named(nodes) && x in nodes && nodes[x].node.Some?
    ensures nodes[x].node.value.name == x
  {
  }

  lemma NamedPut(nodes: map<string, NodeInfo>, x: string, e: NodeInfo)
    requires Named(nodes) && (e.node.Some? ==> e.node.value.name == x)
    ensures Named(nodes[x := e]) && Named(nodes - {x})
  {
  }

  lemma KeyedSame(a: Pools, b: Pools)
    requires Keyed(a) && SameSpecs(a, b)
    ensures Keyed(b)
  {
  }

  /** A move leaves sound pools sound. */
  lemma MoveEntryOk(pools: Pools, a: string, b: string, x: string)
    requires PoolsOk(pools) && a in pools && b in pools && a != b && x in pools[a].nodes
    requires pools[a].nodes[x].node.Some?
    ensures PoolsOk(MoveEntry(pools, a, b, x)) && InTree(pools[a], pools[a].nodes[x])
  {
    hide Accounted, HandOut, TakeOver, EntriesOk, PoolOf, Flat, NamesUnique, Keyed, Named, Treed;
    MoveEntryLaid(pools, a, b, x);
    var e := pools[a].nodes[x];
    NamedAt(pools[a].nodes, x);
    assert x !in pools[b].nodes by { OneHolder(pools, a, b, x); }
    HandOutKeeps(pools[a], x);
    TakeOverKeeps(pools[b], x, e);
  }

  lemma HandOutKeeps(p: PoolState, x: string)
    requires Accounted(p) && Treed(p) && Named(p.nodes) && x in p.nodes && p.nodes[x].node.Some?
    ensures InTree(p, p.nodes[x]) && Accounted(HandOut(p, p.nodes[x])) && Treed(HandOut(p, p.nodes[x]))
  {
    hide Accounted, HandOut, SpotsOf, CountsForNothing;
    var e := p.nodes[x];
    SpotAt(p.nodes, SpotOf(e.node.value));
    HandOutAccounted(p, e);
    HandOutParts(p, e);
    SpotsPut(p.nodes, x, e);
  }

  lemma TakeOverKeeps(p: PoolState, x: string, e: NodeInfo)
    requires Accounted(p) && Treed(p) && Named(p.nodes) && x !in p.nodes && e.node.Some? && e.node.value.name == x
    ensures Accounted(TakeOver(p, e)) && Treed(TakeOver(p, e))
  {
    hide Accounted, TakeOver, SpotsOf, CountsForNothing;
    TakeOverAccounted(p, e);
    EmptyCountsForNothing(p);
    TakeOverParts(p, e);
    SpotsPut(p.nodes, x, e);
  }

  lemma OneHolder(pools: Pools, a: string, b: string, x: string)
    requires NamesUnique(pools) && a in pools && b in pools && a != b && x in pools[a].nodes
    ensures x !in pools[b].nodes
  {
  }

  // ----- totals over all pools -----

  function CapacityIn(n: ResourceName): PoolState -> int { (p: PoolState) => Amount(p.capacity, n) }

  function AllocatableIn(n: ResourceName): PoolState -> int { (p: PoolState) => Amount(p.allocatable, n) }

  function UsedIn(n: ResourceName): PoolState -> int { (p: PoolState) => Amount(p.used, n) }

  ghost predicate SameTotals(a: Pools, b: Pools) {
    forall n: ResourceName :: SameTotal(a, b, n)
  }

  ghost predicate SameTotal(a: Pools, b: Pools, n: ResourceName) {
    && Sum(a, CapacityIn(n)) == Sum(b, CapacityIn(n))
    && Sum(a, AllocatableIn(n)) == Sum(b, AllocatableIn(n))
    && Sum(a, UsedIn(n)) == Sum(b, UsedIn(n))
  }

  ghost predicate SameNodeTotals(a: Pools, b: Pools) {
    forall n: ResourceName ::
      Sum(a, CapacityIn(n)) == Sum(b, CapacityIn(n)) && Sum(a, AllocatableIn(n)) == Sum(b, AllocatableIn(n))
  }

  /** The entry adds nothing to the cluster's totals. */
  ghost predicate AddsNothing(e: NodeInfo) {
    forall n: ResourceName :: AddsNone(e, n)
  }

  ghost predicate AddsNone(e: NodeInfo, n: ResourceName) {
    CapacityOf(n)(e) == 0 && AllocatableOf(n)(e) == 0 && UsedOf(n)(e) == 0
  }

  /** What a move adds to the cluster's totals: the whole entry once more when the tree of the pool it
      leaves does not hold the Node. */
  lemma MoveEntryTotal(pools: Pools, a: string, b: string, x: string, n: ResourceName)
    requires a in pools && b in pools && a != b && x in pools[a].nodes
    requires pools[a].nodes[x].node.Some? && pools[a].nodes[x].node.value.name == x
    ensures var q, e, more := MoveEntry(pools, a, b, x), pools[a].nodes[x], !InTree(pools[a], pools[a].nodes[x]);
      && Sum(q, CapacityIn(n)) == Sum(pools, CapacityIn(n)) + (if more then CapacityOf(n)(e) else 0)
      && Sum(q, AllocatableIn(n)) == Sum(pools, AllocatableIn(n)) + (if more then AllocatableOf(n)(e) else 0)
      && Sum(q, UsedIn(n)) == Sum(pools, UsedIn(n)) + if more then UsedOf(n)(e) else 0
  {
    hide Amount, Sum, HandOut, TakeOver, Total, InTree;
    var e := pools[a].nodes[x];
    var out := pools[a := HandOut(pools[a], e)];
    HandOutAmounts(pools[a], e, n);
    TakeOverAmounts(out[b], e, n);
    SumPut(pools, CapacityIn(n), a, out[a]);
    SumPut(pools, AllocatableIn(n), a, out[a]);
    SumPut(pools, UsedIn(n), a, out[a]);
    SumPut(out, CapacityIn(n), b, TakeOver(out[b], e));
    SumPut(out, AllocatableIn(n), b, TakeOver(out[b], e));
    SumPut(out, UsedIn(n), b, TakeOver(out[b], e));
  }

  /** So a move conserves the cluster's capacity, allocatable and used resources exactly when the tree
      of the pool it leaves holds the Node, or when the entry adds nothing. */
  lemma MoveEntryTotals(pools: Pools, a: string, b: string, x: string)
    requires a in pools && b in pools && a != b && x in pools[a].nodes
    requires pools[a].nodes[x].node.Some? && pools[a].nodes[x].node.value.name == x
    ensures SameTotals(pools, MoveEntry(pools, a, b, x))
      <==> InTree(pools[a], pools[a].nodes[x]) || AddsNothing(pools[a].nodes[x])
  {
    hide Sum, MoveEntry, InTree, CapacityOf, AllocatableOf, UsedOf;
    var e := pools[a].nodes[x];
    forall n: ResourceName
      ensures SameTotal(pools, MoveEntry(pools, a, b, x), n) <==> InTree(pools[a], e) || AddsNone(e, n)
    {
      MoveEntryTotal(pools, a, b, x, n);
    }
  }

  lemma HandOutAmounts(p: PoolState, e: NodeInfo, n: ResourceName)
    requires e.node.Some? && e.node.value.name in p.nodes
    ensures InTree(p, e) ==>
      && Amount(HandOut(p, e).capacity, n) == Amount(p.capacity, n) - CapacityOf(n)(e)
      && Amount(HandOut(p, e).allocatable, n) == Amount(p.allocatable, n) - AllocatableOf(n)(e)
      && Amount(HandOut(p, e).used, n) == Amount(p.used, n) - UsedOf(n)(e)
    ensures !InTree(p, e) ==>
      HandOut(p, e).capacity == p.capacity && HandOut(p, e).allocatable == p.allocatable && HandOut(p, e).used == p.used
  {
    hide Amount, Sub, NewResource, PlusPods, MinusPods;
    PlusPodsAmounts(WithoutEntry(p, e), e.pods, |e.pods|, n);
  }

  lemma TakeOverAmounts(p: PoolState, e: NodeInfo, n: ResourceName)
    requires e.node.Some?
    ensures Amount(TakeOver(p, e).capacity, n) == Amount(p.capacity, n) + CapacityOf(n)(e)
    ensures Amount(TakeOver(p, e).allocatable, n) == Amount(p.allocatable, n) + AllocatableOf(n)(e)
    ensures Amount(TakeOver(p, e).used, n) == Amount(p.used, n) + UsedOf(n)(e)
  {
    hide Amount, AddList, PlusPods, MinusPods;
    PlusPodsAmounts(WithEntry(p, e), e.pods, |e.pods|, n);
  }

  // ----- the placement in terms of selectors and labels -----

  /** The named pools that have a selector which selects the labels. */
  function Selecting(mt: Matcher, pools: Pools, labels: map<string, string>): set<string> {
    set n | n in pools && n != DefaultPoolName && pools[n].pool.Some?
      && pools[n].pool.value.spec.nodeSelector.Some? && mt(pools[n].pool.value.spec.nodeSelector.value, labels)
  }

  /** `n` is the only one of the pools, or it is the default pool and they are none or several. */
  ghost predicate TheOneOrDefault(selecting: set<string>, n: string) {
    if |selecting| == 1 then selecting == {n} else n == DefaultPoolName
  }

  lemma HomeBySelectors(mt: Matcher, pools: Pools, node: Node, except: set<string>)
    requires Keyed(pools)
    ensures TheOneOrDefault(Selecting(mt, pools, node.labels) - except, Home(mt, pools, node, except))
  {
    hide Home;
    var s, h := Selecting(mt, pools, node.labels) - except, Home(mt, pools, node, except);
    assert forall n :: Matches(mt, pools, node, n) && n !in except <==> n in s;
    if |s| == 1 {
      var n :| n in s;
      SingleIs(s, n);
      assert OnlyMatch(mt, pools, node, except, n);
    }
    HomeCases(mt, pools, node, except);
    if OnlyMatch(mt, pools, node, except, h) {
      assert s == {h};
    }
  }

  lemma SingleIs(s: set<string>, n: string)
    requires |s| == 1 && n in s
    ensures s == {n}
  {
    assert |s - {n}| == 0;
  }

  /** The placement law: every Node is in the pool whose selector selects its labels when exactly one
      does, and in the default pool when none or several do. A pool without a selector has no Node. */
  lemma PlacedBySelectors(mt: Matcher, pools: Pools)
    requires Laid(pools)
    ensures Placed(mt, pools) <==> forall n, x :: RightlyAt(mt, pools, n, x)
  {
    hide Flat, PoolOf, Home, Selecting, TheOneOrDefault, Laid;
    LaidKeyed(pools);
    if Placed(mt, pools) {
      forall n, x ensures RightlyAt(mt, pools, n, x) {
        if n in pools && x in pools[n].nodes && pools[n].nodes[x].node.Some? {
          LaidNamed(pools, n, x);
          HomeIsTheOne(mt, pools, pools[n].nodes[x].node.value, n);
        }
      }
    }
    if forall n, x :: RightlyAt(mt, pools, n, x) {
      forall x | x in Flat(pools) && Flat(pools)[x].node.Some?
        ensures PoolOf(pools, x) == Home(mt, pools, Flat(pools)[x].node.value)
      {
        FlatFrom(pools, x);
        assert RightlyAt(mt, pools, PoolOf(pools, x), x);
        HomeIsTheOne(mt, pools, Flat(pools)[x].node.value, PoolOf(pools, x));
      }
    }
  }

  ghost predicate RightlyAt(mt: Matcher, pools: Pools, n: string, x: string) {
    n in pools && x in pools[n].nodes && pools[n].nodes[x].node.Some? ==>
      TheOneOrDefault(Selecting(mt, pools, pools[n].nodes[x].node.value.labels), n)
  }

  lemma HomeIsTheOne(mt: Matcher, pools: Pools, node: Node, n: string)
    requires Keyed(pools)
    ensures TheOneOrDefault(Selecting(mt, pools, node.labels), n) <==> n == Home(mt, pools, node)
  {
    hide Home, Selecting;
    HomeBySelectors(mt, pools, node, {});
    var s := Selecting(mt, pools, node.labels);
    assert s - {} == s;
    if s == {n} && s == {Home(mt, pools, node)} {
      assert n in {Home(mt, pools, node)};
    }
  }

  lemma LaidKeyed(pools: Pools)
    requires Laid(pools)
    ensures Keyed(pools)
  {
  }
}
