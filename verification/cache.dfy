/** The scheduler cache object (pkg/scheduler/internal/cache/cache.go): its pods, its pools, and the
    operations that move entries between pools. */
module SchedulerCaches {
  import opened Api
  import opened Resources
  import opened NodeInfos
  import opened PoolStates
  import opened PoolMaps
  import opened MapSums
  import opened CachePods
  import opened PodEffects
  import opened CacheNodes
  import opened CachePlacement
  import opened CachePools

  class SchedulerCache {
    var pools: Pools
    var podStates: map<string, PodState>
    var assumedPods: set<string>
    const ttl: int
    const mt: Matcher

    ghost function State(): Cache
      reads this
    {
      Cache(pools, podStates, assumedPods)
    }

    ghost predicate Valid()
      reads this
    {
      Inv(mt, State())
    }

    constructor (ttl: int, mt: Matcher)
      ensures Valid() && pools == map[DefaultPoolName := NewPool] && podStates == map[] && assumedPods == {}
      ensures this.ttl == ttl && this.mt == mt
    {
      this.ttl, this.mt := ttl, mt;
      pools, podStates, assumedPods := map[DefaultPoolName := NewPool], map[], {};
      new;
      NewPoolAccounted();
      assert Flat(pools) == map[];
    }

    // ----- which pool -----

    /** The pools that match a node, `except` left aside. */
    method MatchingPools(node: Node, except: set<string>) returns (matches: seq<string>)
      ensures forall i, j :: 0 <= i < j < |matches| ==> matches[i] != matches[j]
      ensures forall n :: n in matches <==> Matches(mt, pools, node, n) && n !in except
    {
      matches := [];
      var todo := pools.Keys;
      while todo != {}
        invariant todo <= pools.Keys
        invariant forall i, j :: 0 <= i < j < |matches| ==> matches[i] != matches[j]
        invariant forall n :: n in matches <==> Matches(mt, pools, node, n) && n !in except && n !in todo
        decreases todo
      {
        var n :| n in todo;
        todo := todo - {n};
        if n !in except && MatchNode(mt, pools[n], node) {
          matches := matches + [n];
        }
      }
    }

    /** matchPoolForNode, with `except` left aside. */
    method MatchPoolForNode(node: Node, except: set<string>) returns (n: string)
      ensures n == Home(mt, pools, node, except)
      ensures Keyed(pools) ==> TheOneOrDefault(Selecting(mt, pools, node.labels) - except, n)
    {
      if Keyed(pools) {
        HomeBySelectors(mt, pools, node, except);
      }
      var matches := MatchingPools(node, except);
      if |matches| == 1 {
        n := matches[0];
        assert n in matches;
        assert OnlyMatch(mt, pools, node, except, n);
      } else {
        n := DefaultPoolName;
        assert |matches| >= 2 ==> matches[0] in matches && matches[1] in matches && matches[0] != matches[1];
        assert forall m :: !OnlyMatch(mt, pools, node, except, m);
      }
    }

    /** matchPoolForPod. */
    method MatchPoolForPod(pod: Pod) returns (n: string)
      requires Laid(pools)
      ensures n in pools && n == TargetPool(pools, pod)
      ensures pod.nodeName != "" ==>
        if exists m :: m in pools && pod.nodeName in pools[m].nodes then pod.nodeName in pools[n].nodes
        else n == DefaultPoolName
      ensures pod.nodeName == "" ==>
        n == if pod.poolAnnotation in pools then pod.poolAnnotation else DefaultPoolName
    {
      hide NamesUnique, Named;
      TargetExists(pools, pod);
      if pod.nodeName != "" {
        var todo := pools.Keys;
        while todo != {}
          invariant todo <= pools.Keys
          invariant forall m :: m in pools && m !in todo ==> pod.nodeName !in pools[m].nodes
          decreases todo
        {
          n :| n in todo;
          todo := todo - {n};
          if pod.nodeName in pools[n].nodes {
            FlatAt(pools, n, pod.nodeName);
            return;
          }
        }
        n := DefaultPoolName;
      } else if pod.poolAnnotation in pools {
        n := pod.poolAnnotation;
      } else {
        n := DefaultPoolName;
      }
    }

    // ----- moving entries -----

    /** RemoveNodeInfo and AddNodeInfo, one after the other. */
    method Shift(from: string, to: string, x: string, ghost start: Pools)
      requires Laid(start) && OnlyMoved(start, pools) && Possible(pools, Move(from, to, x))
      modifies this`pools
      ensures OnlyMoved(start, pools) && PoolOf(pools, x) == to
      ensures forall y :: y in Flat(start) && y != x ==> PoolOf(pools, y) == PoolOf(old(pools), y)
    {
      hide OnlyMoved, Flat, PoolOf, HandOut, TakeOver, Laid;
      MovedFacts(start, pools);
      OneMoveKeeps(pools, Move(from, to, x));
      OneMore(start, pools, Move(from, to, x));
      var item := pools[from].nodes[x];
      pools := pools[from := HandOut(pools[from], item)];
      pools := pools[to := TakeOver(pools[to], item)];
    }

    /** Moves the entries of one pool that have a Node; where an entry goes is the caller's `goal`. */
    ghost predicate Moving(start: Pools, src: string, goal: map<string, string>, todo: set<string>)
      reads this`pools
    {
      && Laid(start) && OnlyMoved(start, pools) && src in pools && todo <= pools[src].nodes.Keys
      && goal.Keys == Flat(start).Keys
      && forall y :: y in Flat(start) ==> PoolOf(pools, y) == if y in todo then src else goal[y]
    }

    lemma MovingAt(start: Pools, src: string, goal: map<string, string>, todo: set<string>, x: string)
      requires Moving(start, src, goal, todo) && x in todo
      ensures x in Flat(start) && Flat(start)[x] == pools[src].nodes[x] && PoolOf(pools, x) == src
    {
      hide PoolsOk, SameTotals, SameSpecs, Named, OnlyMoved;
      MovedFacts(start, pools);
      FlatAt(pools, src, x);
    }

    /** An entry that stays. */
    lemma MovingStays(start: Pools, src: string, goal: map<string, string>, todo: set<string>, x: string)
      requires Moving(start, src, goal, todo) && x in todo && x in goal && goal[x] == src
      ensures Moving(start, src, goal, todo - {x})
    {
      hide OnlyMoved, Flat, PoolOf;
    }

    /** An entry that goes where it should. */
    method MoveOn(src: string, x: string, to: string, ghost start: Pools, ghost goal: map<string, string>,
                  ghost todo: set<string>)
      requires Moving(start, src, goal, todo) && x in todo && x in pools[src].nodes && pools[src].nodes[x].node.Some?
      requires to in pools && to != src && x in goal && goal[x] == to
      modifies this`pools
      ensures Moving(start, src, goal, todo - {x})
    {
      hide Flat, PoolOf, PoolsOk, SameTotals, Laid, OnlyMoved;
      forall y | y in todo
        ensures y in Flat(start)
      {
        MovingAt(start, src, goal, todo, y);
      }
      MovedFacts(start, pools);
      Shift(src, to, x, start);
      MovedFacts(start, pools);
      forall y | y in todo - {x}
        ensures y in pools[src].nodes
      {
        MovingAfter(start, src, y);
      }
    }

    lemma MovingAfter(start: Pools, src: string, y: string)
      requires Laid(start) && OnlyMoved(start, pools) && y in Flat(start) && PoolOf(pools, y) == src
      ensures src in pools && y in pools[src].nodes
    {
      hide Laid, OnlyMoved, Flat, PoolOf;
      MovedFacts(start, pools);
      FlatFrom(pools, y);
    }

    lemma MovingStart(src: string, goal: map<string, string>)
      requires Laid(pools) && src in pools && goal.Keys == Flat(pools).Keys
      requires forall y :: y in Flat(pools) && PoolOf(pools, y) != src ==> goal[y] == PoolOf(pools, y)
      ensures Moving(pools, src, goal, pools[src].nodes.Keys)
    {
      hide Named, OnlyMoved;
      OnlyMovedSelf(pools);
      forall y | y in pools[src].nodes
        ensures y in Flat(pools) && PoolOf(pools, y) == src
      {
        FlatAt(pools, src, y);
      }
      forall y | y in Flat(pools) && PoolOf(pools, y) == src
        ensures y in pools[src].nodes
      {
        FlatFrom(pools, y);
      }
    }

    lemma SpecsHome(start: Pools, node: Node, except: set<string>)
      requires Laid(start) && OnlyMoved(start, pools)
      ensures Home(mt, pools, node, except) == Home(mt, start, node, except)
      ensures forall n :: Matches(mt, pools, node, n) == Matches(mt, start, node, n)
      ensures Home(mt, pools, node, except) in pools
    {
      hide Laid, OnlyMoved;
      MovedFacts(start, pools);
      SameSpecsSameHome(mt, start, pools, node, except);
      HomeCases(mt, pools, node, except);
    }

    /** Where an entry of `src` goes when `p` is left aside. */
    ghost function Spread(start: Pools, src: string, p: string, x: string): string
      requires x in Flat(start)
    {
      if Flat(start)[x].node.Some? && PoolOf(start, x) == src then Home(mt, start, Flat(start)[x].node.value, {p})
      else PoolOf(start, x)
    }

    /** Both loops of moveNodeInfosToMatchedPoolFrom: the entries of `src` go to the one pool that
        matches when `p` is left aside, or to the default pool. Entries without a Node stay. */
    method SpreadFrom(src: string, p: string)
      requires Laid(pools) && src in pools && (src == DefaultPoolName || src == p)
      modifies this`pools
      ensures OnlyMoved(old(pools), pools)
      ensures forall x :: x in Flat(old(pools)) ==> PoolOf(pools, x) == Spread(old(pools), src, p, x)
    {
      hide Flat, PoolOf, Laid, OnlyMoved, Home;
      ghost var start := pools;
      ghost var goal := map x | x in Flat(start) :: Spread(start, src, p, x);
      MovingStart(src, goal);
      var todo := pools[src].nodes.Keys;
      while todo != {}
        invariant Moving(start, src, goal, todo)
        decreases todo
      {
        var x :| x in todo;
        MovingAt(start, src, goal, todo, x);
        var info := pools[src].nodes[x];
        if info.node.Some? {
          SpecsHome(start, info.node.value, {p});
          var to := MatchPoolForNode(info.node.value, {p});
          SrcOf(start, src, goal, todo, x);
          if to != src {
            MoveOn(src, x, to, start, goal, todo);
          } else {
            MovingStays(start, src, goal, todo, x);
          }
        } else {
          SrcOf(start, src, goal, todo, x);
          MovingStays(start, src, goal, todo, x);
        }
        todo := todo - {x};
      }
    }

    lemma SrcOf(start: Pools, src: string, goal: map<string, string>, todo: set<string>, x: string)
      requires Moving(start, src, goal, todo) && x in todo
      ensures x in goal
    {
      MovingAt(start, src, goal, todo, x);
    }

    /** moveNodeInfosToMatchedPoolFrom. */
    method MoveEntriesAwayFrom(p: string)
      requires Laid(pools) && p in pools && p != DefaultPoolName
      modifies this`pools
      ensures MovedAway(mt, old(pools), p, pools)
    {
      hide Flat, PoolOf, Home, Laid, SameSpecs, OnlyMoved;
      LaidKeyed(pools);
      ghost var start := pools;
      SpreadFrom(DefaultPoolName, p);
      ghost var mid := pools;
      MovedFacts(start, mid);
      SpreadFrom(p, p);
      forall x | x in Flat(start)
        ensures PoolOf(pools, x) == AwayFrom(mt, start, p, x)
      {
        if Flat(start)[x].node.Some? {
          SameSpecsSameHome(mt, start, mid, Flat(start)[x].node.value, {p});
          HomeIsNotP(mt, start, Flat(start)[x].node.value, p);
        }
      }
      MovedTwice(start, mid, pools);
    }

    /** Where an entry of `src` goes when `p` counts as well. */
    ghost function Gather(start: Pools, src: string, p: string, x: string): string
      requires x in Flat(start)
    {
      if Flat(start)[x].node.Some? && PoolOf(start, x) == src then Towards(start, src, p, Flat(start)[x].node.value)
      else PoolOf(start, x)
    }

    ghost function Towards(start: Pools, src: string, p: string, node: Node): string {
      if src == DefaultPoolName then (if Home(mt, start, node) == p then p else DefaultPoolName)
      else if Matches(mt, start, node, p) then DefaultPoolName else src
    }

    /** The loops of moveAllNodeInfosFromMatchedPoolsTo over the entries of one pool: the default
        pool gives up what only `p` matches, another pool gives up what `p` matches too. */
    method GatherFrom(src: string, p: string)
      requires Laid(pools) && src in pools && p in pools && p != DefaultPoolName && src != p
      modifies this`pools
      ensures OnlyMoved(old(pools), pools)
      ensures forall x :: x in Flat(old(pools)) ==> PoolOf(pools, x) == Gather(old(pools), src, p, x)
    {
      hide Flat, PoolOf, Laid, OnlyMoved, Home, Matches;
      ghost var start := pools;
      ghost var goal := map x | x in Flat(start) :: Gather(start, src, p, x);
      MovingStart(src, goal);
      StillKeyed(start, p);
      var todo := pools[src].nodes.Keys;
      while todo != {}
        invariant Moving(start, src, goal, todo) && p in pools && DefaultPoolName in pools
        decreases todo
      {
        var x :| x in todo;
        MovingAt(start, src, goal, todo, x);
        SrcOf(start, src, goal, todo, x);
        var info := pools[src].nodes[x];
        var to := src;
        if info.node.Some? {
          SpecsHome(start, info.node.value, {});
          if src == DefaultPoolName {
            var n := MatchPoolForNode(info.node.value, {});
            if n == p {
              to := p;
            }
          } else if Matches(mt, pools, info.node.value, p) {
            to := DefaultPoolName;
          }
        }
        if to != src {
          MoveOn(src, x, to, start, goal, todo);
          StillKeyed(start, p);
        } else {
          MovingStays(start, src, goal, todo, x);
        }
        todo := todo - {x};
      }
    }

    lemma StillKeyed(start: Pools, p: string)
      requires Laid(start) && OnlyMoved(start, pools) && p in start
      ensures p in pools && DefaultPoolName in pools
    {
      MovedFacts(start, pools);
    }

    /** moveAllNodeInfosFromMatchedPoolsTo. */
    method MoveEntriesTo(p: string)
      requires Laid(pools) && p in pools && p != DefaultPoolName
      modifies this`pools
      ensures MovedTo(mt, old(pools), p, pools)
    {
      hide Flat, PoolOf, Laid, Home, Matches, OnlyMoved;
      LaidKeyed(pools);
      ghost var start := pools;
      GatherFrom(DefaultPoolName, p);
      ghost var mid := pools;
      MovedFacts(start, mid);
      OnlyMovedSelf(mid);
      EvictedNone(mid, p);
      var others := pools.Keys - {DefaultPoolName, p};
      var todo := others;
      while todo != {}
        invariant todo <= others && OnlyMoved(mid, pools)
        invariant forall x :: x in Flat(mid) ==> PoolOf(pools, x) == Evicted(mid, p, todo, x)
        decreases todo
      {
        var n :| n in todo;
        ghost var before := pools;
        MovedFacts(mid, before);
        GatherFrom(n, p);
        EvictedStep(mid, before, pools, p, todo, n);
        todo := todo - {n};
      }
      TowardsFrom(start, mid, pools, p);
    }

    /** Where an entry is when the pools in `todo` are still to be looked at. */
    ghost function Evicted(mid: Pools, p: string, todo: set<string>, x: string): string
      requires x in Flat(mid)
    {
      var n := PoolOf(mid, x);
      if Flat(mid)[x].node.Some? && n != DefaultPoolName && n != p && n !in todo
        && Matches(mt, mid, Flat(mid)[x].node.value, p)
      then DefaultPoolName else n
    }

    lemma EvictedNone(mid: Pools, p: string)
      ensures forall x :: x in Flat(mid) ==> Evicted(mid, p, mid.Keys - {DefaultPoolName, p}, x) == PoolOf(mid, x)
    {
      hide PoolOf, Flat, Matches;
      forall x | x in Flat(mid)
        ensures Evicted(mid, p, mid.Keys - {DefaultPoolName, p}, x) == PoolOf(mid, x)
      {
        FlatFrom(mid, x);
      }
    }

    lemma EvictedStep(mid: Pools, before: Pools, after: Pools, p: string, todo: set<string>, n: string)
      requires Laid(mid) && OnlyMoved(mid, before) && OnlyMoved(before, after)
      requires n in todo && n != DefaultPoolName && n != p
      requires forall x :: x in Flat(mid) ==> PoolOf(before, x) == Evicted(mid, p, todo, x)
      requires forall x :: x in Flat(before) ==> PoolOf(after, x) == Gather(before, n, p, x)
      ensures OnlyMoved(mid, after)
      ensures forall x :: x in Flat(mid) ==> PoolOf(after, x) == Evicted(mid, p, todo - {n}, x)
    {
      hide Flat, PoolOf, OnlyMoved, Home, Matches;
      MovedFacts(mid, before);
      MovedTwice(mid, before, after);
      forall x | x in Flat(mid)
        ensures PoolOf(after, x) == Evicted(mid, p, todo - {n}, x)
      {
        if Flat(mid)[x].node.Some? {
          SameSpecsSameHome(mt, mid, before, Flat(mid)[x].node.value, {});
        }
      }
    }

    lemma TowardsFrom(start: Pools, mid: Pools, after: Pools, p: string)
      requires Laid(start) && OnlyMoved(start, mid) && OnlyMoved(mid, after) && p != DefaultPoolName && p in start
      requires forall x :: x in Flat(start) ==> PoolOf(mid, x) == Gather(start, DefaultPoolName, p, x)
      requires forall x :: x in Flat(mid) ==> PoolOf(after, x) == Evicted(mid, p, {}, x)
      ensures OnlyMoved(start, after)
      ensures forall x :: x in Flat(start) ==> PoolOf(after, x) == TowardsP(mt, start, p, x)
    {
      hide Flat, PoolOf, OnlyMoved, Home, Matches;
      MovedFacts(start, mid);
      MovedTwice(start, mid, after);
      forall x | x in Flat(start)
        ensures PoolOf(after, x) == TowardsP(mt, start, p, x)
      {
        if Flat(start)[x].node.Some? {
          SameSpecsSameHome(mt, start, mid, Flat(start)[x].node.value, {});
        }
      }
    }

    // ----- pools -----

    /** AddPool. A pool with a new name gets the nodes that belong to it; on a known name the placement
        survives exactly when there is nothing else to move. */
    method AddPool(pool: Pool) returns (r: Outcome)
      requires Laid(pools)
      modifies this`pools
      ensures pool.name == DefaultPoolName ==> r == Failed(ForbiddenPool) && pools == old(pools)
      ensures pool.name != DefaultPoolName ==> r.Done? && PoolAdded(mt, old(pools), pool, pools)
      ensures Laid(pools) && Flat(pools) == Flat(old(pools))
      ensures old(PoolsOk(pools)) ==> PoolsOk(pools) && SameTotals(old(pools), pools)
      ensures old(Placed(mt, pools)) && pool.name != DefaultPoolName ==>
        (Placed(mt, pools) <==>
          (pool.name in old(pools) ==>
            NothingElseToMove(mt, old(pools), WithPool(old(pools), pool), pool.name)))
      ensures old(Valid()) && Placed(mt, pools) ==> Valid()
    {
      hide Flat, PoolOf, PoolsOk, SameTotals, Placed, Laid, PodsKnown, MovedTo, NothingElseToMove, WithPool;
      TotalsSelf(pools);
      if pool.name == DefaultPoolName {
        return Failed(ForbiddenPool);
      }
      WithPoolLaid(pools, pool);
      SetPool(pool);
      MoveEntriesTo(pool.name);
      AddPoolKeeps(mt, old(pools), pool, pools);
      r := Done;
    }

    /** SetPool on the pool of that name, which is created if there is none. */
    method SetPool(pool: Pool)
      modifies this`pools
      ensures pools == WithPool(old(pools), pool)
    {
      var p := if pool.name in pools then pools[pool.name] else NewPool;
      pools := pools[pool.name := p.(pool := Some(pool))];
    }

    /** UpdatePool. Entries move when the pool is new or the two selectors differ; otherwise the
        placement survives exactly when the stored selector had the same reach. */
    method UpdatePool(oldPool: Pool, newPool: Pool)
      requires Laid(pools) && newPool.name != DefaultPoolName
      modifies this`pools
      ensures PoolUpdated(mt, old(pools), oldPool, newPool, pools)
      ensures Laid(pools) && Flat(pools) == Flat(old(pools))
      ensures old(PoolsOk(pools)) ==> PoolsOk(pools) && SameTotals(old(pools), pools)
      ensures old(Placed(mt, pools)) ==>
        (Placed(mt, pools) <==>
          (newPool.name in old(pools) && oldPool.spec.nodeSelector == newPool.spec.nodeSelector ==>
            SameReach(mt, old(pools), WithPool(old(pools), newPool), newPool.name)))
      ensures old(Valid()) && Placed(mt, pools) ==> Valid()
    {
      hide Flat, PoolOf, PoolsOk, SameTotals, Placed, Laid, PodsKnown, MovedTo, MovedAway, SameReach, WithPool;
      var known := newPool.name in pools;
      WithPoolLaid(pools, newPool);
      SetPool(newPool);
      ghost var updated := pools;
      if !known {
        MoveEntriesTo(newPool.name);
      } else if oldPool.spec.nodeSelector != newPool.spec.nodeSelector {
        MoveEntriesAwayFrom(newPool.name);
        ghost var mid := pools;
        AwayFacts(mt, updated, newPool.name, mid);
        MoveEntriesTo(newPool.name);
        assert MovedAway(mt, updated, newPool.name, mid) && MovedTo(mt, mid, newPool.name, pools);
      }
      UpdatePoolKeeps(mt, old(pools), oldPool, newPool, pools);
    }

    /** RemovePool. The nodes go where they belong without the pool. Entries of the pool that have no
        Node are dropped with it, and with them the pods they list: the invariant survives exactly
        when there are none, and then entries and totals are all kept. */
    method RemovePool(name: string) returns (r: Outcome)
      requires Laid(pools) && Placed(mt, pools)
      modifies this`pools
      ensures name == DefaultPoolName ==> r == Failed(ForbiddenPool) && pools == old(pools)
      ensures name != DefaultPoolName ==> r.Done? && name !in pools
      ensures name !in old(pools) ==> pools == old(pools)
      ensures name != DefaultPoolName && name in old(pools) ==>
        && PoolRemoved(mt, old(pools), name, pools)
        && Flat(pools) == Flat(old(pools)) - Nodeless(old(pools), name)
        && (old(Valid()) ==> (Valid() <==> Nodeless(old(pools), name) == {}))
      ensures Laid(pools) && Placed(mt, pools)
      ensures old(PoolsOk(pools)) ==> PoolsOk(pools) && SameNodeTotals(old(pools), pools)
      ensures old(Valid()) && Valid() ==> SameTotals(old(pools), pools)
    {
      hide SameNodeTotals, Flat, PoolOf, SameTotals, Placed, Laid, PoolsOk, PodsKnown, MovedAway;
      TotalsSelf(pools);
      if name == DefaultPoolName {
        return Failed(ForbiddenPool);
      }
      r := Done;
      if name in pools {
        MoveEntriesAwayFrom(name);
        ghost var mid := pools;
        pools := pools - {name};
        assert MovedAway(mt, old(pools), name, mid);
        RemovePoolKeeps(mt, old(pools), name, pools);
        if old(Valid()) {
          NodelessListPods(old(pools), name);
          DroppedPods(Flat(old(pools)), Nodeless(old(pools), name), podStates);
        }
      }
    }

    // ----- nodes -----

    /** AddNode. The placement is kept exactly when no other pool has an entry of this name; the whole
        invariant exactly when, besides, the entry had no Node that counted. */
    method AddNode(node: Node)
      requires Laid(pools) && Placed(mt, pools)
      modifies this`pools
      ensures Keyed(old(pools)) && pools == NodeAdded(mt, old(pools), node)
      ensures Laid(pools) && Placed(mt, pools) <==> HomeIsFree(mt, old(pools), node)
      ensures old(Valid()) ==>
        (Valid() <==>
          && HomeIsFree(mt, old(pools), node)
          && NothingCounted(EntryIn(Flat(old(pools)), node.name), node.zone))
    {
      hide Flat, PoolOf, Home, Inv, AddNodeTo, Laid, Placed, HomeIsFree, NothingCounted;
      LaidKeyed(pools);
      HomeExists(mt, pools, node);
      AddNodeKeepsNamesUnique(mt, pools, node);
      LaidUnique(NodeAdded(mt, pools, node));
      if HomeIsFree(mt, pools, node) {
        AddNodeKeepsPlacement(mt, pools, node);
      }
      if Valid() {
        AddNodeKeepsInv(mt, State(), node);
      }
      var p := MatchPoolForNode(node, {});
      pools := pools[p := AddNodeTo(pools[p], node)];
    }

    /** RemoveNode. The placement is kept whatever the argument, and the invariant exactly when the Node
        counts like the entry's, as the stored one does. */
    method RemoveNode(node: Node) returns (r: Outcome)
      requires Laid(pools) && Placed(mt, pools)
      modifies this`pools
      ensures Keyed(old(pools)) && (pools, r) == NodeRemoved(mt, old(pools), node)
      ensures Laid(pools) && Placed(mt, pools)
      ensures old(Valid()) ==> (Valid() <==> RemovalCounts(mt, old(pools), node))
      ensures IsStored(old(pools), node) ==> r.Done? && RemovalCounts(mt, old(pools), node)
    {
      hide Flat, PoolOf, Home, Inv, RemoveNodeFrom, Laid, Placed, IsStored, RemovalCounts;
      LaidKeyed(pools);
      HomeExists(mt, pools, node);
      RemoveNodeKeepsPlacement(mt, pools, node);
      if IsStored(pools, node) {
        StoredRemovalCounts(mt, pools, node);
      }
      if Valid() {
        RemoveNodeKeepsInv(mt, State(), node);
      }
      var p := MatchPoolForNode(node, {});
      if node.name !in pools[p].nodes {
        return Failed(NodeNotFound);
      }
      pools := pools[p := RemoveNodeFrom(pools[p], node)];
      r := Done;
    }

    /** UpdateNode. The placement is kept exactly when the update finds its place, as the stored Node
        always does, and the invariant exactly when it counts, too, as the stored Node does unless it
        changes its pool together with its figures or its zone. */
    method UpdateNode(oldNode: Node, newNode: Node) returns (r: Outcome)
      requires Laid(pools) && Placed(mt, pools)
      modifies this`pools
      ensures Keyed(old(pools)) && (pools, r) == NodeUpdated(mt, old(pools), oldNode, newNode)
      ensures Laid(pools) && Placed(mt, pools) <==> FindsPlace(mt, old(pools), oldNode, newNode)
      ensures FindsPlace(mt, old(pools), oldNode, newNode) ==>
        Flat(pools) == EntriesAfter(Flat(old(pools)), newNode, r)
      ensures old(Valid()) && oldNode.name == newNode.name && r != Failed(NilPointer) ==>
        (Valid() <==> UpdateCounts(mt, old(pools), oldNode, newNode))
      ensures oldNode.name == newNode.name && IsStored(old(pools), oldNode) ==>
        && FindsPlace(mt, old(pools), oldNode, newNode) && r != Failed(NilPointer)
        && (old(Valid()) ==>
              && r.Done?
              && (Valid() <==>
                   Home(mt, old(pools), oldNode) == Home(mt, old(pools), newNode) || SameFootprint(oldNode, newNode)))
    {
      hide Flat, PoolOf, Home, Inv, NodeUpdated, SameFootprint, Laid, Placed, IsStored, SetNode, FindsPlace,
        EntriesAfter, UpdateCounts;
      LaidKeyed(pools);
      UpdateNodeKeepsPlacement(mt, pools, oldNode, newNode);
      if oldNode.name == newNode.name && IsStored(pools, oldNode) {
        StoredFindsPlace(mt, pools, oldNode, newNode);
      }
      if Valid() && oldNode.name == newNode.name {
        UpdateNodeKeepsInv(mt, State(), oldNode, newNode);
      }
      r := Reassign(oldNode, newNode);
      assert State() == old(State()).(pools := NodeUpdated(mt, old(pools), oldNode, newNode).0);
    }

    /** The ways of an update: in place, or out of one pool and into another. */
    method Reassign(oldNode: Node, newNode: Node) returns (r: Outcome)
      requires Keyed(pools)
      modifies this`pools
      ensures (pools, r) == NodeUpdated(mt, old(pools), oldNode, newNode)
    {
      hide Home, UpdateNodeIn, HandOut, TakeOver, SetNode, InTree;
      HomeExists(mt, pools, oldNode);
      HomeExists(mt, pools, newNode);
      var oldPool := MatchPoolForNode(oldNode, {});
      var newPool := MatchPoolForNode(newNode, {});
      var name := newNode.name;
      if oldPool == newPool {
        pools := pools[newPool := UpdateNodeIn(pools[newPool], oldNode, newNode)];
        return Done;
      }
      var known, item := name in pools[oldPool].nodes, EntryOf(pools[oldPool], name);
      var lost := item.node.Some? && !InTree(pools[oldPool], item);
      if item.node.None? {
        NodelessStays(pools[oldPool], item);
        NodelessStays(pools[newPool], item);
        assert pools[oldPool := pools[oldPool]] == pools == pools[newPool := pools[newPool]];
      }
      if known {
        pools := pools[oldPool := HandOut(pools[oldPool], item)];
        if lost {
          return Failed(NodeNotFound);
        }
      }
      if name in pools[newPool].nodes {
        var there := pools[newPool].nodes[name];
        pools := pools[newPool := TakeOver(pools[newPool], there)];
        pools := Replaced(pools, newPool, SetNode(there, newNode), name);
        return Done;
      }
      pools := pools[newPool := TakeOver(pools[newPool], item)];
      if item.node.None? {
        // The item, if there is one, is still the old pool's.
        pools := if known then Replaced(pools, oldPool, SetNode(item, newNode), name) else pools;
        return Failed(NilPointer);
      }
      pools := Replaced(pools, newPool, SetNode(item, newNode), name);
      r := Done;
    }

    // ----- pods -----

    method AddPodToPool(pod: Pod)
      requires Laid(pools)
      modifies this`pools
      ensures Keyed(old(pools)) && pools == PodIn(old(pools), pod)
    {
      hide TargetPool, AddPodTo, NamesUnique, Named;
      var n := MatchPoolForPod(pod);
      pools := pools[n := AddPodTo(pools[n], pod)];
    }

    method RemovePodFromPool(pod: Pod) returns (ok: bool)
      requires Laid(pools)
      modifies this`pools
      ensures Keyed(old(pools)) && ok == CanTakeOut(old(pools), pod)
      ensures pools == if ok then PodOut(old(pools), pod) else old(pools)
      ensures Laid(pools)
    {
      hide TargetPool, RemovePodFrom, FindPod, Laid;
      LaidKeyed(pools);
      var n := MatchPoolForPod(pod);
      ok := pod.uid != "" && Holds(pools[n], pod);
      if ok {
        PodOutLaid(mt, pools, pod);
        pools := pools[n := RemovePodFrom(pools[n], pod)];
      }
    }

    method AssumePod(pod: Pod) returns (r: Outcome)
      requires Laid(pools)
      modifies this
      ensures Keyed(old(pools)) && (State(), r) == Assume(old(State()), pod)
      ensures old(Valid()) && pod.nodeName != "" ==>
        Valid() && Effect(old(State()), PodEvent.AssumePod(pod), ttl, State(), r)
    {
      hide Inv, PodIn, Laid, Effect;
      LaidKeyed(pools);
      if Valid() && pod.nodeName != "" {
        EventKeepsInv(mt, State(), PodEvent.AssumePod(pod), ttl);
        EventEffect(mt, State(), PodEvent.AssumePod(pod), ttl);
      }
      if pod.uid == "" {
        return Failed(EmptyUid);
      }
      if pod.uid in podStates {
        return Failed(PodAlreadyKnown);
      }
      AddPodToPool(pod);
      podStates := podStates[pod.uid := PodState(pod, None, false)];
      assumedPods := assumedPods + {pod.uid};
      r := Done;
    }

    method FinishBindingAt(pod: Pod, now: int) returns (r: Outcome)
      modifies this
      ensures (State(), r) == FinishBinding(old(State()), pod, now, ttl)
      ensures old(Valid()) ==> Valid() && Effect(old(State()), FinishBindingOf(pod, now), ttl, State(), r)
    {
      hide Inv, Effect;
      if Valid() {
        EventKeepsInv(mt, State(), FinishBindingOf(pod, now), ttl);
        EventEffect(mt, State(), FinishBindingOf(pod, now), ttl);
      }
      if pod.uid == "" {
        return Failed(EmptyUid);
      }
      if pod.uid in podStates && pod.uid in assumedPods {
        podStates := podStates[pod.uid := podStates[pod.uid].(deadline := Some(now + ttl), bindingFinished := true)];
      }
      r := Done;
    }

    method ForgetPod(pod: Pod) returns (r: Outcome)
      requires Laid(pools)
      modifies this
      ensures Keyed(old(pools)) && (State(), r) == Forget(old(State()), pod)
      ensures old(Valid()) && Delivered(old(State()), PodEvent.ForgetPod(pod)) ==>
        && Valid() && r != Failed(PodNotFound)
        && Effect(old(State()), PodEvent.ForgetPod(pod), ttl, State(), r)
        && (r.Done? ==> pod.uid !in podStates && forall n, x, q: Pod :: On(pools, n, x, q) ==> q.uid != pod.uid)
    {
      hide Inv, PodOut, CanTakeOut, Delivered, Laid, Effect, On;
      LaidKeyed(pools);
      if Valid() && Delivered(State(), PodEvent.ForgetPod(pod)) {
        EventKeepsInv(mt, State(), PodEvent.ForgetPod(pod), ttl);
        EventEffect(mt, State(), PodEvent.ForgetPod(pod), ttl);
        PodsInPlace(mt, Forget(State(), pod).0, pod.uid);
      }
      if pod.uid == "" {
        return Failed(EmptyUid);
      }
      if pod.uid in podStates && podStates[pod.uid].pod.nodeName != pod.nodeName {
        return Failed(AssumedElsewhere);
      }
      if !(pod.uid in podStates && pod.uid in assumedPods) {
        return Failed(PodNotAssumed);
      }
      var ok := RemovePodFromPool(pod);
      if !ok {
        return Failed(PodNotFound);
      }
      assumedPods := assumedPods - {pod.uid};
      podStates := podStates - {pod.uid};
      r := Done;
    }

    method AddPod(pod: Pod) returns (r: Outcome)
      requires Laid(pools)
      modifies this
      ensures Keyed(old(pools)) && (State(), r) == Add(old(State()), pod)
      ensures old(Valid()) && Delivered(old(State()), AddPodEvent(pod)) ==>
        && Valid() && Effect(old(State()), AddPodEvent(pod), ttl, State(), r)
        && (r.Done? ==>
              && pod.uid in podStates && podStates[pod.uid].pod == pod && podStates[pod.uid].deadline.None?
              && pod.uid !in assumedPods && OnItsNode(State(), pod.uid))
    {
      hide Inv, PodIn, PodOut, CanTakeOut, Delivered, Laid, Effect, OnItsNode;
      LaidKeyed(pools);
      if Valid() && Delivered(State(), AddPodEvent(pod)) {
        EventKeepsInv(mt, State(), AddPodEvent(pod), ttl);
        EventEffect(mt, State(), AddPodEvent(pod), ttl);
        InvFacts(mt, State());
        PodsInPlace(mt, Add(State(), pod).0, pod.uid);
      }
      if pod.uid == "" {
        return Failed(EmptyUid);
      }
      if pod.uid in podStates && pod.uid in assumedPods {
        var ps := podStates[pod.uid];
        if ps.pod.nodeName != pod.nodeName {
          var ok := RemovePodFromPool(ps.pod);
          AddPodToPool(pod);
        }
        assumedPods := assumedPods - {pod.uid};
        podStates := podStates[pod.uid := ps.(deadline := None, pod := pod)];
      } else if pod.uid !in podStates {
        AddPodToPool(pod);
        podStates := podStates[pod.uid := PodState(pod, None, false)];
      } else {
        return Failed(PodAlreadyKnown);
      }
      r := Done;
    }

    /** UpdatePod. The process ends, and nothing is changed, exactly when the update of an added pod
        names another node than the pod is on. */
    method UpdatePod(oldPod: Pod, newPod: Pod) returns (r: Outcome)
      requires Laid(pools)
      modifies this
      ensures Keyed(old(pools)) && (State(), r) == Update(old(State()), oldPod, newPod)
      ensures r == Failed(CacheCorrupted) <==> OnAnotherNode(old(State()), oldPod.uid, newPod.nodeName)
      ensures r.Failed? ==> State() == old(State())
      ensures old(Valid()) && Delivered(old(State()), UpdatePodEvent(oldPod, newPod)) ==>
        && Valid() && r != Failed(PodNotFound)
        && Effect(old(State()), UpdatePodEvent(oldPod, newPod), ttl, State(), r)
        && (r.Done? ==>
              newPod.uid in podStates && podStates[newPod.uid].pod == newPod && OnItsNode(State(), newPod.uid))
    {
      hide Inv, PodIn, PodOut, CanTakeOut, Laid, Effect, OnItsNode, SameFigures;
      LaidKeyed(pools);
      if Valid() && Delivered(State(), UpdatePodEvent(oldPod, newPod)) {
        EventKeepsInv(mt, State(), UpdatePodEvent(oldPod, newPod), ttl);
        EventEffect(mt, State(), UpdatePodEvent(oldPod, newPod), ttl);
        PodsInPlace(mt, Update(State(), oldPod, newPod).0, newPod.uid);
      }
      if oldPod.uid == "" {
        return Failed(EmptyUid);
      }
      if !(oldPod.uid in podStates && oldPod.uid !in assumedPods) {
        return Failed(PodNotAdded);
      }
      if podStates[oldPod.uid].pod.nodeName != newPod.nodeName {
        return Failed(CacheCorrupted);
      }
      var ok := RemovePodFromPool(oldPod);
      if !ok {
        return Failed(PodNotFound);
      }
      AddPodToPool(newPod);
      podStates := podStates[oldPod.uid := podStates[oldPod.uid].(pod := newPod)];
      r := Done;
    }

    /** RemovePod. The process ends, and nothing is changed, exactly when the removal of an added pod
        names another node than the pod is on. */
    method RemovePod(pod: Pod) returns (r: Outcome)
      requires Laid(pools)
      modifies this
      ensures Keyed(old(pools)) && (State(), r) == Remove(old(State()), pod)
      ensures r == Failed(CacheCorrupted) <==> OnAnotherNode(old(State()), pod.uid, pod.nodeName)
      ensures r.Failed? ==> State() == old(State())
      ensures old(Valid()) ==>
        && Valid() && r != Failed(PodNotFound) && Effect(old(State()), RemovePodEvent(pod), ttl, State(), r)
        && (r.Done? ==> pod.uid !in podStates && forall n, x, q: Pod :: On(pools, n, x, q) ==> q.uid != pod.uid)
    {
      hide Inv, PodIn, PodOut, CanTakeOut, Laid, Effect, On;
      LaidKeyed(pools);
      if Valid() {
        EventKeepsInv(mt, State(), RemovePodEvent(pod), ttl);
        EventEffect(mt, State(), RemovePodEvent(pod), ttl);
        PodsInPlace(mt, Remove(State(), pod).0, pod.uid);
      }
      if pod.uid == "" {
        return Failed(EmptyUid);
      }
      if !(pod.uid in podStates && pod.uid !in assumedPods) {
        return Failed(PodNotAdded);
      }
      if podStates[pod.uid].pod.nodeName != pod.nodeName {
        return Failed(CacheCorrupted);
      }
      var ok := RemovePodFromPool(podStates[pod.uid].pod);
      if !ok {
        return Failed(PodNotFound);
      }
      podStates := podStates - {pod.uid};
      r := Done;
    }

    /** expirePod: a pod that cannot be taken out stays assumed. */
    method ExpirePod(key: string)
      requires Laid(pools) && key in podStates
      modifies this
      ensures Keyed(old(pools)) && State() == Expire(old(State()), key).0 && Laid(pools)
    {
      hide PodOut, CanTakeOut, Laid;
      LaidKeyed(pools);
      var ok := RemovePodFromPool(podStates[key].pod);
      if ok {
        assumedPods := assumedPods - {key};
        podStates := podStates - {key};
      }
    }

    /** cleanupAssumedPods: neither the source's panic nor a missing deadline can be met, and the
        placement is kept. From a valid state, exactly the assumed pods whose binding is finished and
        whose deadline is over are forgotten. */
    method CleanupAssumedPods(now: int)
      requires WellPlaced(mt, State())
      modifies this
      ensures WellPlaced(mt, State())
      ensures old(Valid()) ==> Valid() && Swept(old(State()), State(), {}, now)
    {
      hide Inv, PodOut, CanTakeOut, Laid, Placed, Addressed, Expire;
      ghost var start := State();
      var todo := assumedPods;
      while todo != {}
        invariant WellPlaced(mt, State()) && todo <= assumedPods
        invariant old(Valid()) ==> Valid() && Swept(start, State(), todo, now)
        decreases todo
      {
        var key :| key in todo;
        ghost var before := State();
        var ps := podStates[key];
        if ps.bindingFinished {
          assert ps.deadline.Some?;
          if now > ps.deadline.value {
            EventKeepsPlacement(mt, State(), PodEvent.ExpirePod(key, now), ttl);
            if Valid() {
              EventKeepsInv(mt, State(), PodEvent.ExpirePod(key, now), ttl);
            }
            ExpirePod(key);
            ExpiredIsGone(before, key);
          }
        }
        todo := todo - {key};
      }
    }
  }

  /** Of the assumed pods that are not to be looked at any more, the expired ones are gone. */
  ghost predicate Swept(start: Cache, c: Cache, todo: set<string>, now: int) {
    && c.podStates == (map k | k in start.podStates && (k in todo || !Expired(start, k, now)) :: start.podStates[k])
    && c.assumed == (set k | k in start.assumed && (k in todo || !Expired(start, k, now)))
  }

  lemma ExpiredIsGone(c: Cache, key: string)
    requires Keyed(c.pools) && key in c.podStates
    ensures Expire(c, key).1.Done? ==>
      Expire(c, key).0.podStates == c.podStates - {key} && Expire(c, key).0.assumed == c.assumed - {key}
    ensures Expire(c, key).1.Failed? ==> Expire(c, key) == (c, Failed(PodNotFound))
  {
  }

  lemma AwayFacts(mt: Matcher, a: Pools, p: string, b: Pools)
    requires Laid(a) && MovedAway(mt, a, p, b)
    ensures Laid(b) && a.Keys == b.Keys
  {
    hide Laid, Flat, OnlyMoved;
    MovedFacts(a, b);
  }
}
