/** Pools that come, change and go (pkg/scheduler/internal/cache/cache.go): what the moves of entries
    between pools make of the cache's pools. */
module CachePools {
  import opened Api
  import opened Resources
  import opened NodeInfos
  import opened PoolStates
  import opened PoolMaps
  import opened MapSums
  import opened CachePods
  import opened CachePlacement

  // ----- moves -----

  /** RemoveNodeInfo of an entry from one pool, and AddNodeInfo of it to another. */
  datatype Move = Move(from: string, to: string, entry: string)

  ghost predicate Possible(pools: Pools, m: Move) {
    && m.from in pools && m.to in pools && m.from != m.to
    && m.entry in pools[m.from].nodes && pools[m.from].nodes[m.entry].node.Some?
  }

  /** The pools after the moves, one after the other; none when one of them is not possible. */
  ghost function AfterMoves(pools: Pools, moves: seq<Move>): Option<Pools> {
    if moves == [] then Some(pools)
    else
      var k := |moves| - 1;
      match AfterMoves(pools, moves[..k])
      case None => None
      case Some(q) =>
        if Possible(q, moves[k]) then Some(MoveEntry(q, moves[k].from, moves[k].to, moves[k].entry)) else None
  }

  /** Nothing but moves of entries with a Node lies between the two. */
  ghost predicate OnlyMoved(a: Pools, b: Pools) {
    exists moves :: AfterMoves(a, moves) == Some(b)
  }

  lemma OnlyMovedSelf(a: Pools)
    ensures OnlyMoved(a, a)
  {
    assert AfterMoves(a, []) == Some(a);
  }

  lemma OneMore(a: Pools, b: Pools, m: Move)
    requires OnlyMoved(a, b) && Possible(b, m)
    ensures OnlyMoved(a, MoveEntry(b, m.from, m.to, m.entry))
  {
    hide MoveEntry;
    var moves :| AfterMoves(a, moves) == Some(b);
    assert (moves + [m])[..|moves|] == moves;
    assert AfterMoves(a, moves + [m]) == Some(MoveEntry(b, m.from, m.to, m.entry));
  }

  lemma {:induction false} MovesJoined(a: Pools, b: Pools, first: seq<Move>, second: seq<Move>)
    requires AfterMoves(a, first) == Some(b)
    ensures AfterMoves(a, first + second) == AfterMoves(b, second)
  {
    hide MoveEntry, Possible;
    var k := |second| - 1;
    if second == [] {
      assert first + second == first;
    } else {
      MovesJoined(a, b, first, second[..k]);
      assert (first + second)[..|first + second| - 1] == first + second[..k];
    }
  }

  lemma MovedTwice(a: Pools, b: Pools, c: Pools)
    requires OnlyMoved(a, b) && OnlyMoved(b, c)
    ensures OnlyMoved(a, c)
  {
    hide AfterMoves;
    var first :| AfterMoves(a, first) == Some(b);
    var second :| AfterMoves(b, second) == Some(c);
    MovesJoined(a, b, first, second);
  }

  /** One move keeps entries and pools, and puts the entry where it should be; between sound pools
      nothing is lost or counted twice. */
  lemma OneMoveKeeps(pools: Pools, m: Move)
    requires Laid(pools) && Possible(pools, m)
    ensures var q := MoveEntry(pools, m.from, m.to, m.entry);
      && Laid(q) && SameSpecs(pools, q) && Flat(q) == Flat(pools) && PoolOf(q, m.entry) == m.to
      && (forall y :: y in Flat(pools) && y != m.entry ==> PoolOf(q, y) == PoolOf(pools, y))
      && (PoolsOk(pools) ==> PoolsOk(q) && SameTotals(pools, q))
  {
    hide Flat, PoolOf, MoveEntry, Laid, PoolsOk, SameTotals;
    MoveEntryLaid(pools, m.from, m.to, m.entry);
    if PoolsOk(pools) {
      MoveEntryOk(pools, m.from, m.to, m.entry);
      LaidNamed(pools, m.from, m.entry);
      MoveEntryTotals(pools, m.from, m.to, m.entry);
    }
  }

  /** So do any moves. */
  lemma {:induction false} MovesKeep(a: Pools, moves: seq<Move>, b: Pools)
    requires Laid(a) && AfterMoves(a, moves) == Some(b)
    ensures Laid(b) && SameSpecs(a, b) && Flat(b) == Flat(a)
    ensures PoolsOk(a) ==> PoolsOk(b) && SameTotals(a, b)
  {
    hide Flat, PoolOf, MoveEntry, Laid, PoolsOk, SameTotals, Possible;
    if moves == [] {
      TotalsSelf(a);
    } else {
      var k := |moves| - 1;
      var q := AfterMoves(a, moves[..k]).value;
      MovesKeep(a, moves[..k], q);
      OneMoveKeeps(q, moves[k]);
      if PoolsOk(a) {
        SameTotalsChain(a, q, b);
      }
    }
  }

  lemma TotalsSelf(a: Pools)
    ensures SameTotals(a, a) && SameNodeTotals(a, a)
  {
    hide MapSums.Sum;
  }

  lemma SameTotalsChain(a: Pools, b: Pools, c: Pools)
    requires SameTotals(a, b) && SameTotals(b, c)
    ensures SameTotals(a, c)
  {
    hide MapSums.Sum;
    forall n: ResourceName ensures SameTotal(a, c, n) {
      assert SameTotal(a, b, n) && SameTotal(b, c, n);
    }
  }

  lemma {:induction false} PrefixPossible(a: Pools, moves: seq<Move>, k: nat)
    requires AfterMoves(a, moves).Some? && k <= |moves|
    ensures AfterMoves(a, moves[..k]).Some?
  {
    hide MoveEntry, Possible;
    if k < |moves| {
      assert moves[..|moves| - 1][..k] == moves[..k];
      PrefixPossible(a, moves[..|moves| - 1], k);
    } else {
      assert moves[..k] == moves;
    }
  }

  /** No entry counts below zero. */
  ghost predicate NoDebts(pools: Pools, n: ResourceName) {
    forall x :: x in Flat(pools) ==> CapacityOf(n)(Flat(pools)[x]) >= 0
  }

  /** Moves never lower the cluster's capacity. */
  lemma {:induction false} MovesNeverLower(a: Pools, moves: seq<Move>, b: Pools, n: ResourceName)
    requires Laid(a) && NoDebts(a, n) && AfterMoves(a, moves) == Some(b)
    ensures Sum(b, CapacityIn(n)) >= Sum(a, CapacityIn(n))
  {
    hide Flat, MoveEntry, Laid, MapSums.Sum, CapacityOf, InTree, PoolOf;
    if moves != [] {
      var k := |moves| - 1;
      var q, m := AfterMoves(a, moves[..k]).value, moves[k];
      MovesNeverLower(a, moves[..k], q, n);
      MovesKeep(a, moves[..k], q);
      LaidNamed(q, m.from, m.entry);
      MoveEntryTotal(q, m.from, m.to, m.entry, n);
    }
  }

  /** A first move out of a pool whose tree does not hold the Node counts its capacity once more. */
  lemma FirstMoveCounts(a: Pools, moves: seq<Move>, b: Pools, n: ResourceName)
    requires Laid(a) && NoDebts(a, n) && AfterMoves(a, moves) == Some(b) && moves != []
    ensures Possible(a, moves[0])
    ensures var p := a[moves[0].from];
      var e := p.nodes[moves[0].entry];
      Sum(b, CapacityIn(n)) >= Sum(a, CapacityIn(n)) + if InTree(p, e) then 0 else CapacityOf(n)(e)
  {
    hide Flat, MoveEntry, Laid, MapSums.Sum, CapacityOf, InTree, PoolOf;
    var m := moves[0];
    PrefixPossible(a, moves, 1);
    assert moves[..1] == [m] && [m][..0] == [];
    assert AfterMoves(a, []) == Some(a);
    var q := MoveEntry(a, m.from, m.to, m.entry);
    assert AfterMoves(a, [m]) == Some(q);
    assert moves == [m] + moves[1..];
    MovesJoined(a, q, [m], moves[1..]);
    OneMoveKeeps(a, m);
    LaidNamed(a, m.from, m.entry);
    MoveEntryTotal(a, m.from, m.to, m.entry, n);
    MovesNeverLower(q, moves[1..], b, n);
  }

  lemma MovedFacts(a: Pools, b: Pools)
    requires Laid(a) && OnlyMoved(a, b)
    ensures Laid(b) && SameSpecs(a, b) && Flat(b) == Flat(a) && a.Keys == b.Keys && Keyed(b)
    ensures PoolsOk(a) ==> PoolsOk(b) && SameTotals(a, b)
  {
    hide AfterMoves, Flat, PoolsOk, SameTotals;
    var moves :| AfterMoves(a, moves) == Some(b);
    MovesKeep(a, moves, b);
  }

  // ----- setting a pool -----

  /** SetPool on the pool of that name, which is created if there is none. */
  function WithPool(pools: Pools, pool: Pool): Pools {
    var p := if pool.name in pools then pools[pool.name] else NewPool;
    pools[pool.name := p.(pool := Some(pool))]
  }

  lemma WithPoolLaid(pools: Pools, pool: Pool)
    requires Laid(pools) && pool.name != DefaultPoolName
    ensures var q := WithPool(pools, pool);
      && Laid(q) && Flat(q) == Flat(pools) && SameSpecsOff(pools, q, pool.name)
      && pool.name in q && q[pool.name].pool == Some(pool)
      && forall x :: x in Flat(q) ==> PoolOf(q, x) == PoolOf(pools, x)
  {
    hide Flat, PoolOf;
    var q := WithPool(pools, pool);
    SetPoolUnique(pools, q, pool.name);
    SameEntries(pools, q);
  }

  lemma WithPoolOk(pools: Pools, pool: Pool)
    requires PoolsOk(pools) && pool.name != DefaultPoolName
    ensures PoolsOk(WithPool(pools, pool)) && SameTotals(pools, WithPool(pools, pool))
  {
    hide Flat, SameTotals, EntriesOk, Accounted, Laid;
    WithPoolLaid(pools, pool);
    LaidKeyed(pools);
    var p := if pool.name in pools then pools[pool.name] else NewPool;
    var p' := p.(pool := Some(pool));
    NewPoolAccounted();
    RenamedAccounted(p, p');
    SetPoolTotals(pools, pool.name, p');
  }

  lemma SetPoolUnique(pools: Pools, q: Pools, n: string)
    requires NamesUnique(pools) && q.Keys == pools.Keys + {n}
    requires forall m :: m in pools ==> q[m].nodes == pools[m].nodes
    requires n !in pools ==> q[n].nodes == map[]
    ensures NamesUnique(q)
  {
    forall a, b, x | a in q && b in q && x in q[a].nodes && x in q[b].nodes
      ensures a == b
    {
      assert x in pools[a].nodes && x in pools[b].nodes;
    }
  }

  lemma RenamedAccounted(p: PoolState, p': PoolState)
    requires Accounted(p) && p' == p.(pool := p'.pool) && (NameOf(p') == NameOf(p) || p == NewPool)
    ensures Accounted(p')
  {
    hide Amount, MapSums.Sum, Accounted;
    forall n: ResourceName
      ensures NodesAccounted(p', n) && PodsAccounted(p', n)
    {
      AccountedAt(p, n);
      if p == NewPool {
        EmptySums(n, NameOf(p'));
      }
    }
    AccountedEverywhere(p');
  }

  lemma EmptySums(n: ResourceName, name: string)
    ensures Sum<string, NodeInfo>(map[], SharedOf(name, n)) == 0 && Amount(Zero, n) == 0
  {
  }

  /** Maps of pools with the same entries. */
  lemma SameEntries(a: Pools, b: Pools)
    requires NamesUnique(a) && NamesUnique(b) && a.Keys <= b.Keys
    requires forall n :: n in a ==> b[n].nodes == a[n].nodes
    requires forall n :: n in b && n !in a ==> b[n].nodes == map[]
    ensures Flat(b) == Flat(a) && forall x :: x in Flat(b) ==> PoolOf(b, x) == PoolOf(a, x)
  {
    hide Flat, PoolOf, NamesUnique;
    forall x | x in Flat(a)
      ensures x in Flat(b) && Flat(b)[x] == Flat(a)[x] && PoolOf(b, x) == PoolOf(a, x)
    {
      FlatFrom(a, x);
      FlatAt(b, PoolOf(a, x), x);
    }
    forall x | x in Flat(b)
      ensures x in Flat(a)
    {
      FlatFrom(b, x);
      FlatAt(a, PoolOf(b, x), x);
    }
  }

  lemma SetPoolTotals(pools: Pools, n: string, p: PoolState)
    requires p == (if n in pools then pools[n] else NewPool).(pool := p.pool)
    ensures SameTotals(pools, pools[n := p])
  {
    hide Amount, MapSums.Sum;
    var q := pools[n := p];
    forall m: ResourceName ensures SameTotal(pools, q, m) {
      SumPut(pools, CapacityIn(m), n, p);
      SumPut(pools, AllocatableIn(m), n, p);
      SumPut(pools, UsedIn(m), n, p);
      EmptySums(m, n);
    }
  }

  /** What moving away leaves in a pool: its entries without a Node. */
  lemma LeftBehind(mt: Matcher, before: Pools, mid: Pools, p: string)
    requires Laid(before) && Laid(mid) && Flat(mid) == Flat(before) && p in before && p in mid && p != DefaultPoolName
    requires forall x :: x in Flat(before) ==> PoolOf(mid, x) == AwayFrom(mt, before, p, x)
    ensures mid[p].nodes.Keys == set x | x in before[p].nodes && before[p].nodes[x].node.None?
    ensures mid[p].nodes.Keys <= Flat(mid).Keys
  {
    hide Flat, PoolOf, Home, Keyed, Named;
    forall x | x in mid[p].nodes
      ensures x in before[p].nodes && before[p].nodes[x].node.None?
      ensures x in Flat(mid)
    {
      FlatAt(mid, p, x);
      FlatFrom(before, x);
      if Flat(before)[x].node.Some? {
        HomeIsNotP(mt, before, Flat(before)[x].node.value, p);
      }
    }
    forall x | x in before[p].nodes && before[p].nodes[x].node.None?
      ensures x in mid[p].nodes
    {
      FlatAt(before, p, x);
      FlatFrom(mid, x);
    }
  }

  lemma HomeInRest(mt: Matcher, pools: Pools, node: Node, p: string)
    ensures Home(mt, pools - {p}, node) == Home(mt, pools, node, {p})
  {
    var rest := pools - {p};
    assert forall n :: Matches(mt, rest, node, n) <==> Matches(mt, pools, node, n) && n != p;
    HomeCases(mt, rest, node, {});
    HomeCases(mt, pools, node, {p});
    var h, h' := Home(mt, rest, node), Home(mt, pools, node, {p});
    assert OnlyMatch(mt, rest, node, {}, h) ==> OnlyMatch(mt, pools, node, {p}, h);
    assert OnlyMatch(mt, pools, node, {p}, h') ==> OnlyMatch(mt, rest, node, {}, h');
  }

  /** Dropping a pool drops its entries; the rest stays sound and placed. */
  lemma DroppedPool(mt: Matcher, mid: Pools, p: string)
    requires Laid(mid) && PlacedExcept(mt, mid, p) && p in mid && p != DefaultPoolName
    ensures Laid(mid - {p}) && Placed(mt, mid - {p}) && Flat(mid - {p}) == Flat(mid) - mid[p].nodes.Keys
    ensures PoolsOk(mid) ==> PoolsOk(mid - {p})
  {
    hide Flat, PoolOf, Home, Accounted, Consistent, Named;
    var q := mid - {p};
    assert NamesUnique(q) by {
      forall a, b, x | a in q && b in q && x in q[a].nodes && x in q[b].nodes
        ensures a == b
      {
        assert x in mid[a].nodes && x in mid[b].nodes;
      }
    }
    RestEntries(mid, p);
    forall x | x in Flat(q) && Flat(q)[x].node.Some?
      ensures PoolOf(q, x) == Home(mt, q, Flat(q)[x].node.value)
    {
      HomeInRest(mt, mid, Flat(q)[x].node.value, p);
    }
  }

  lemma RestEntries(mid: Pools, p: string)
    requires NamesUnique(mid) && NamesUnique(mid - {p}) && p in mid
    ensures Flat(mid - {p}) == Flat(mid) - mid[p].nodes.Keys
    ensures forall x :: x in Flat(mid - {p}) ==> PoolOf(mid - {p}, x) == PoolOf(mid, x)
  {
    hide Flat, PoolOf, NamesUnique;
    var q := mid - {p};
    forall x | x in Flat(q)
      ensures x in Flat(mid) && Flat(mid)[x] == Flat(q)[x] && PoolOf(mid, x) == PoolOf(q, x) && x !in mid[p].nodes
    {
      FlatFrom(q, x);
      FlatAt(mid, PoolOf(q, x), x);
      if x in mid[p].nodes {
        FlatAt(mid, p, x);
      }
    }
    forall x | x in Flat(mid) && x !in mid[p].nodes
      ensures x in Flat(q)
    {
      FlatFrom(mid, x);
      FlatAt(q, PoolOf(mid, x), x);
    }
  }

  /** A pool without Nodes can go without a change to the cluster's capacity and allocatable; one
      without entries, without a change to what is used either. */
  lemma DroppedTotals(mid: Pools, p: string)
    requires p in mid && Accounted(mid[p]) && forall x :: x in mid[p].nodes ==> mid[p].nodes[x].node.None?
    ensures SameNodeTotals(mid, mid - {p}) && (mid[p].nodes == map[] ==> SameTotals(mid, mid - {p}))
  {
    hide Amount, MapSums.Sum;
    forall n: ResourceName
      ensures Sum(mid, CapacityIn(n)) == Sum(mid - {p}, CapacityIn(n))
      ensures Sum(mid, AllocatableIn(n)) == Sum(mid - {p}, AllocatableIn(n))
      ensures mid[p].nodes == map[] ==> SameTotal(mid, mid - {p}, n)
    {
      AccountedAt(mid[p], n);
      SumOfZeros(mid[p].nodes, CapacityOf(n));
      SumOfZeros(mid[p].nodes, AllocatableOf(n));
      if mid[p].nodes == map[] {
        SumOfZeros(mid[p].nodes, UsedOf(n));
      }
      SumDrop(mid, CapacityIn(n), p);
      SumDrop(mid, AllocatableIn(n), p);
      SumDrop(mid, UsedIn(n), p);
    }
  }

  /** Known pods survive the loss of entries that list pods exactly when no entry is lost. */
  lemma DroppedPods(flat: map<string, NodeInfo>, lost: set<string>, podStates: map<string, PodState>)
    requires PodsKnown(flat, podStates) && lost <= flat.Keys
    requires forall x :: x in lost ==> flat[x].pods != []
    ensures PodsKnown(flat - lost, podStates) <==> lost == {}
  {
    if x :| x in lost {
      var pod := flat[x].pods[0];
      assert Listed(x, pod, podStates);
      assert !Found(flat - lost, pod.uid, podStates[pod.uid].pod);
    } else {
      assert flat - lost == flat;
    }
  }

  lemma LostNodes(before: Pools, mid: Pools, p: string)
    requires Laid(before) && Laid(mid) && Flat(mid) == Flat(before) && p in mid && p in before
    requires mid[p].nodes.Keys == set x | x in before[p].nodes && before[p].nodes[x].node.None?
    ensures forall x :: x in mid[p].nodes ==> mid[p].nodes[x].node.None?
  {
    hide Flat, PoolOf;
    forall x | x in mid[p].nodes ensures mid[p].nodes[x].node.None? {
      FlatAt(mid, p, x);
      FlatAt(before, p, x);
    }
  }

  lemma TotalsDropped(a: Pools, b: Pools, c: Pools, all: bool)
    requires SameTotals(a, b) && SameNodeTotals(b, c) && (all ==> SameTotals(b, c))
    ensures SameNodeTotals(a, c) && (all ==> SameTotals(a, c))
  {
    hide MapSums.Sum;
    forall n: ResourceName
      ensures Sum(a, CapacityIn(n)) == Sum(c, CapacityIn(n)) && Sum(a, AllocatableIn(n)) == Sum(c, AllocatableIn(n))
    {
      assert SameTotal(a, b, n);
    }
    if all {
      SameTotalsChain(a, b, c);
    }
  }

  lemma NewPoolPlacedExcept(mt: Matcher, before: Pools, after: Pools, p: string)
    requires Placed(mt, before) && p !in before && SameSpecsOff(before, after, p) && Flat(after) == Flat(before)
    requires forall x :: x in Flat(after) ==> PoolOf(after, x) == PoolOf(before, x)
    ensures PlacedExcept(mt, after, p)
  {
    hide Flat, PoolOf, Home, SameSpecsOff;
    forall x | x in Flat(after) && Flat(after)[x].node.Some?
      ensures PoolOf(after, x) == Home(mt, after, Flat(after)[x].node.value, {p})
    {
      HomeWithoutP(mt, before, Flat(after)[x].node.value, p);
      SameSpecsOffSameHome(mt, before, after, Flat(after)[x].node.value, p);
    }
  }

  // ----- what the pool operations do -----

  /** moveAllNodeInfosFromMatchedPoolsTo. */
  ghost predicate MovedTo(mt: Matcher, a: Pools, p: string, b: Pools) {
    OnlyMoved(a, b) && forall x :: x in Flat(a) ==> PoolOf(b, x) == TowardsP(mt, a, p, x)
  }

  /** moveNodeInfosToMatchedPoolFrom. */
  ghost predicate MovedAway(mt: Matcher, a: Pools, p: string, b: Pools) {
    OnlyMoved(a, b) && forall x :: x in Flat(a) ==> PoolOf(b, x) == AwayFrom(mt, a, p, x)
  }

  /** AddPool of a pool with a name. */
  ghost predicate PoolAdded(mt: Matcher, before: Pools, pool: Pool, after: Pools) {
    MovedTo(mt, WithPool(before, pool), pool.name, after)
  }

  /** UpdatePool: a new pool is filled, a changed selector moves entries out and in, and otherwise
      nothing moves. */
  ghost predicate PoolUpdated(mt: Matcher, before: Pools, oldPool: Pool, newPool: Pool, after: Pools) {
    var updated, p := WithPool(before, newPool), newPool.name;
    if p !in before then MovedTo(mt, updated, p, after)
    else if oldPool.spec.nodeSelector != newPool.spec.nodeSelector then
      exists mid :: MovedAway(mt, updated, p, mid) && MovedTo(mt, mid, p, after)
    else after == updated
  }

  /** RemovePool of a pool that is there. */
  ghost predicate PoolRemoved(mt: Matcher, before: Pools, p: string, after: Pools) {
    exists mid :: MovedAway(mt, before, p, mid) && after == mid - {p}
  }

  /** AddPool keeps the entries, sound pools and the cluster's totals. It keeps the placement for a new
      name always, and for a known one exactly when there is nothing else to move. */
  lemma AddPoolKeeps(mt: Matcher, before: Pools, pool: Pool, after: Pools)
    requires Laid(before) && pool.name != DefaultPoolName && PoolAdded(mt, before, pool, after)
    ensures Laid(after) && Flat(after) == Flat(before) && SameSpecs(WithPool(before, pool), after)
    ensures PoolsOk(before) ==> PoolsOk(after) && SameTotals(before, after)
    ensures Placed(mt, before) ==>
      (Placed(mt, after)
       <==> (pool.name in before ==> NothingElseToMove(mt, before, WithPool(before, pool), pool.name)))
  {
    hide Laid, Flat, PoolOf, PoolsOk, SameTotals, Placed, PlacedExcept, WithPool, OnlyMoved, NothingElseToMove;
    var updated, p := WithPool(before, pool), pool.name;
    WithPoolLaid(before, pool);
    MovedFacts(updated, after);
    LaidKeyed(updated);
    if PoolsOk(before) {
      WithPoolOk(before, pool);
      SameTotalsChain(before, updated, after);
    }
    if Placed(mt, before) {
      if p in before {
        TowardsPPlacesIff(mt, before, updated, after, p);
      } else {
        NewPoolPlacedExcept(mt, before, updated, p);
        TowardsPPlaces(mt, updated, after, p);
      }
    }
  }

  /** UpdatePool keeps the entries, sound pools and the cluster's totals. It keeps the placement when
      the selector is said to change or the pool is new, and otherwise exactly when the new selector
      has the reach of the one the pool had. */
  lemma UpdatePoolKeeps(mt: Matcher, before: Pools, oldPool: Pool, newPool: Pool, after: Pools)
    requires Laid(before) && newPool.name != DefaultPoolName && PoolUpdated(mt, before, oldPool, newPool, after)
    ensures Laid(after) && Flat(after) == Flat(before) && SameSpecs(WithPool(before, newPool), after)
    ensures PoolsOk(before) ==> PoolsOk(after) && SameTotals(before, after)
    ensures Placed(mt, before) ==>
      (Placed(mt, after)
       <==> (newPool.name in before && oldPool.spec.nodeSelector == newPool.spec.nodeSelector ==>
               SameReach(mt, before, WithPool(before, newPool), newPool.name)))
  {
    hide Laid, Flat, PoolOf, PoolsOk, SameTotals, Placed, PlacedExcept, WithPool, OnlyMoved, SameReach;
    var updated, p := WithPool(before, newPool), newPool.name;
    WithPoolLaid(before, newPool);
    LaidKeyed(before);
    LaidKeyed(updated);
    if PoolsOk(before) {
      WithPoolOk(before, newPool);
    }
    if p !in before {
      AddPoolKeeps(mt, before, newPool, after);
    } else if oldPool.spec.nodeSelector != newPool.spec.nodeSelector {
      var mid :| MovedAway(mt, updated, p, mid) && MovedTo(mt, mid, p, after);
      MovedFacts(updated, mid);
      MovedFacts(mid, after);
      if PoolsOk(before) {
        SameTotalsChain(before, updated, mid);
        SameTotalsChain(before, mid, after);
      }
      if Placed(mt, before) {
        AwayFromPlaces(mt, before, updated, mid, p);
        TowardsPPlaces(mt, mid, after, p);
      }
    } else if Placed(mt, before) {
      StaleSelectorPlaces(mt, before, after, p);
    }
  }

  /** RemovePool keeps the placement and sound pools, and the cluster's capacity and allocatable. Lost
      are the entries of the pool that had no Node; without such, all entries and totals are kept. */
  lemma RemovePoolKeeps(mt: Matcher, before: Pools, p: string, after: Pools)
    requires Laid(before) && Placed(mt, before) && p in before && p != DefaultPoolName
    requires PoolRemoved(mt, before, p, after)
    ensures Laid(after) && Placed(mt, after) && p !in after
    ensures Flat(after) == Flat(before) - Nodeless(before, p)
    ensures PoolsOk(before) ==> PoolsOk(after) && SameNodeTotals(before, after)
    ensures PoolsOk(before) && Nodeless(before, p) == {} ==> SameTotals(before, after)
  {
    hide Laid, Flat, PoolOf, SameTotals, SameNodeTotals, Placed, PlacedExcept, OnlyMoved, Accounted, EntriesOk;
    var mid :| MovedAway(mt, before, p, mid) && after == mid - {p};
    MovedFacts(before, mid);
    SameOff(before, p);
    AwayFromPlaces(mt, before, before, mid, p);
    LeftBehind(mt, before, mid, p);
    LostNodes(before, mid, p);
    DroppedPool(mt, mid, p);
    if PoolsOk(before) {
      DroppedTotals(mid, p);
      TotalsDropped(before, mid, after, Nodeless(before, p) == {});
    }
  }

  lemma SameOff(a: Pools, p: string)
    ensures SameSpecsOff(a, a, p) && SameSpecs(a, a)
  {
  }

  /** The entries of a pool that have no Node. */
  ghost function Nodeless(pools: Pools, p: string): set<string>
    requires p in pools
  {
    set x | x in pools[p].nodes && pools[p].nodes[x].node.None?
  }

  /** Entries without a Node list pods. */
  lemma NodelessListPods(pools: Pools, p: string)
    requires PoolsOk(pools) && p in pools
    ensures Nodeless(pools, p) <= Flat(pools).Keys && forall x :: x in Nodeless(pools, p) ==> Flat(pools)[x].pods != []
  {
    hide Flat, PoolOf, Consistent;
    forall x | x in Nodeless(pools, p) ensures x in Flat(pools) && Flat(pools)[x].pods != [] {
      FlatAt(pools, p, x);
    }
  }
}
