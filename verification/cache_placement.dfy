/** Where nodes belong when pools come, change and go (pkg/scheduler/internal/cache/cache.go). */
module CachePlacement {
  import opened Api
  import opened NodeInfos
  import opened PoolStates
  import opened PoolMaps

  /** Every entry with a Node is where it would belong if pool `p` were not there. */
  ghost predicate PlacedExcept(mt: Matcher, pools: Pools, p: string) {
    forall x :: x in Flat(pools) && Flat(pools)[x].node.Some? ==>
      PoolOf(pools, x) == Home(mt, pools, Flat(pools)[x].node.value, {p})
  }

  /** The same pools with the same selectors, except perhaps for pool `p`. */
  ghost predicate SameSpecsOff(a: Pools, b: Pools, p: string) {
    forall n :: n != p ==> (n in a <==> n in b) && (n in a ==> a[n].pool == b[n].pool)
  }

  lemma SameSpecsOffSameHome(mt: Matcher, a: Pools, b: Pools, node: Node, p: string)
    requires SameSpecsOff(a, b, p)
    ensures Home(mt, a, node, {p}) == Home(mt, b, node, {p})
  {
    assert forall n :: n != p ==> Matches(mt, a, node, n) == Matches(mt, b, node, n);
    HomeCases(mt, a, node, {p});
    HomeCases(mt, b, node, {p});
    var h, h' := Home(mt, a, node, {p}), Home(mt, b, node, {p});
    if OnlyMatch(mt, a, node, {p}, h) {
      assert OnlyMatch(mt, b, node, {p}, h);
    } else if OnlyMatch(mt, b, node, {p}, h') {
      assert OnlyMatch(mt, a, node, {p}, h');
    }
  }

  /** A node in a pool other than `p` and the default stays there when `p` is left aside. */
  lemma HomeOffP(mt: Matcher, pools: Pools, node: Node, p: string)
    requires Home(mt, pools, node) != DefaultPoolName && Home(mt, pools, node) != p
    ensures Home(mt, pools, node, {p}) == Home(mt, pools, node)
  {
    HomeCases(mt, pools, node, {});
    assert OnlyMatch(mt, pools, node, {p}, Home(mt, pools, node));
  }

  /** When no pool `p` is there, leaving it aside changes nothing. */
  lemma HomeWithoutP(mt: Matcher, pools: Pools, node: Node, p: string)
    requires p !in pools
    ensures Home(mt, pools, node, {p}) == Home(mt, pools, node)
  {
    HomeCases(mt, pools, node, {});
    HomeCases(mt, pools, node, {p});
    var h, h' := Home(mt, pools, node), Home(mt, pools, node, {p});
    assert OnlyMatch(mt, pools, node, {}, h) ==> OnlyMatch(mt, pools, node, {p}, h);
    assert OnlyMatch(mt, pools, node, {p}, h') ==> OnlyMatch(mt, pools, node, {}, h');
  }

  /** Where a node belongs once pool `p` counts: a node that only `p` matches goes to `p`, a node
      that `p` matches beside another pool goes to the default pool. */
  lemma HomeWithP(mt: Matcher, pools: Pools, node: Node, p: string)
    requires Keyed(pools) && p in pools && p != DefaultPoolName
    ensures var he, h := Home(mt, pools, node, {p}), Home(mt, pools, node);
      h == if he == DefaultPoolName then (if h == p then p else DefaultPoolName)
           else if Matches(mt, pools, node, p) then DefaultPoolName else he
  {
    HomeCases(mt, pools, node, {});
    HomeCases(mt, pools, node, {p});
    var he, h := Home(mt, pools, node, {p}), Home(mt, pools, node);
    if OnlyMatch(mt, pools, node, {p}, he) {
      if !Matches(mt, pools, node, p) {
        assert OnlyMatch(mt, pools, node, {}, he);
      }
    } else if OnlyMatch(mt, pools, node, {}, h) && h != p {
      assert OnlyMatch(mt, pools, node, {p}, h);
    }
  }

  /** Where moveNodeInfosToMatchedPoolFrom puts the entry `x`: out of the default pool and out of
      `p` into the pool that matches when `p` is left aside. */
  ghost function AwayFrom(mt: Matcher, pools: Pools, p: string, x: string): string
    requires x in Flat(pools)
  {
    var e := Flat(pools)[x];
    if e.node.Some? && (PoolOf(pools, x) == DefaultPoolName || PoolOf(pools, x) == p)
    then Home(mt, pools, e.node.value, {p}) else PoolOf(pools, x)
  }

  /** Where moveAllNodeInfosFromMatchedPoolsTo puts the entry `x`: from the default pool to `p` if
      only `p` matches, from another pool to the default pool if `p` matches too. */
  ghost function TowardsP(mt: Matcher, pools: Pools, p: string, x: string): string
    requires x in Flat(pools)
  {
    var e := Flat(pools)[x];
    if e.node.None? then PoolOf(pools, x)
    else if PoolOf(pools, x) == DefaultPoolName then
      (if Home(mt, pools, e.node.value) == p then p else DefaultPoolName)
    else if PoolOf(pools, x) != p && Matches(mt, pools, e.node.value, p) then DefaultPoolName
    else PoolOf(pools, x)
  }

  /** After the first move everything is placed as if `p` were not there, whatever selector `p` had
      or has. */
  lemma AwayFromPlaces(mt: Matcher, before: Pools, pools: Pools, after: Pools, p: string)
    requires Placed(mt, before) && SameSpecsOff(before, pools, p) && SameSpecs(pools, after)
    requires Flat(pools) == Flat(before) && Flat(after) == Flat(before)
    requires forall x :: x in Flat(pools) ==> PoolOf(pools, x) == PoolOf(before, x)
    requires forall x :: x in Flat(pools) ==> PoolOf(after, x) == AwayFrom(mt, pools, p, x)
    ensures PlacedExcept(mt, after, p)
  {
    hide Flat, PoolOf, Home, SameSpecs, SameSpecsOff;
    forall x | x in Flat(after) && Flat(after)[x].node.Some?
      ensures PoolOf(after, x) == Home(mt, after, Flat(after)[x].node.value, {p})
    {
      var node := Flat(after)[x].node.value;
      SameSpecsSameHome(mt, pools, after, node, {p});
      SameSpecsOffSameHome(mt, before, pools, node, p);
      if PoolOf(pools, x) != DefaultPoolName && PoolOf(pools, x) != p {
        HomeOffP(mt, before, node, p);
      }
    }
  }

  /** From there, the second move places everything. */
  lemma TowardsPPlaces(mt: Matcher, pools: Pools, after: Pools, p: string)
    requires Keyed(pools) && p in pools && p != DefaultPoolName
    requires PlacedExcept(mt, pools, p) && SameSpecs(pools, after) && Flat(after) == Flat(pools)
    requires forall x :: x in Flat(pools) ==> PoolOf(after, x) == TowardsP(mt, pools, p, x)
    ensures Placed(mt, after)
  {
    hide Flat, PoolOf, Home, SameSpecs;
    forall x | x in Flat(after) && Flat(after)[x].node.Some?
      ensures PoolOf(after, x) == Home(mt, after, Flat(after)[x].node.value)
    {
      var node := Flat(after)[x].node.value;
      SameSpecsSameHome(mt, pools, after, node, {});
      HomeWithP(mt, pools, node, p);
      HomeIsNotP(mt, pools, node, p);
    }
  }

  lemma HomeIsNotP(mt: Matcher, pools: Pools, node: Node, p: string)
    requires p != DefaultPoolName
    ensures Home(mt, pools, node, {p}) != p
  {
    HomeCases(mt, pools, node, {p});
  }

  // ----- a pool that was there before -----

  /** What AddPool on a known name relies on: each Node in `p` still belongs there, and each Node in
      the default pool belongs there or to `p`. */
  ghost predicate NothingElseToMove(mt: Matcher, before: Pools, pools: Pools, p: string) {
    forall x :: x in Flat(before) && Flat(before)[x].node.Some? ==>
      var h := Home(mt, pools, Flat(before)[x].node.value);
      && (PoolOf(before, x) == p ==> h == p)
      && (PoolOf(before, x) == DefaultPoolName ==> h == p || h == DefaultPoolName)
  }

  /** The second move alone places everything exactly then. */
  lemma TowardsPPlacesIff(mt: Matcher, before: Pools, pools: Pools, after: Pools, p: string)
    requires Keyed(pools) && p in pools && p != DefaultPoolName
    requires Placed(mt, before) && SameSpecsOff(before, pools, p) && Flat(pools) == Flat(before)
    requires forall x :: x in Flat(pools) ==> PoolOf(pools, x) == PoolOf(before, x)
    requires SameSpecs(pools, after) && Flat(after) == Flat(pools)
    requires forall x :: x in Flat(pools) ==> PoolOf(after, x) == TowardsP(mt, pools, p, x)
    ensures Placed(mt, after) <==> NothingElseToMove(mt, before, pools, p)
  {
    hide Flat, PoolOf, Home, SameSpecs, SameSpecsOff;
    forall x | x in Flat(after) && Flat(after)[x].node.Some?
      ensures PoolOf(after, x) == Home(mt, after, Flat(after)[x].node.value)
        <==> var h := Home(mt, pools, Flat(before)[x].node.value);
             && (PoolOf(before, x) == p ==> h == p)
             && (PoolOf(before, x) == DefaultPoolName ==> h == p || h == DefaultPoolName)
    {
      var node := Flat(after)[x].node.value;
      SameSpecsSameHome(mt, pools, after, node, {});
      if PoolOf(before, x) != DefaultPoolName && PoolOf(before, x) != p {
        HomeOffP(mt, before, node, p);
        SameSpecsOffSameHome(mt, before, pools, node, p);
        HomeWithP(mt, pools, node, p);
      }
    }
  }

  /** Two pools other than `p` match the node, so that it is in the default pool whether `p` matches
      or not. */
  ghost predicate TwoOthers(mt: Matcher, pools: Pools, node: Node, p: string) {
    exists m, n :: m != p && n != p && m != n && Matches(mt, pools, node, m) && Matches(mt, pools, node, n)
  }

  /** What an update that changes no place relies on: `p` matches the same Nodes as before, apart from
      those that two others match. */
  ghost predicate SameReach(mt: Matcher, before: Pools, pools: Pools, p: string) {
    forall x :: x in Flat(before) && Flat(before)[x].node.Some? ==>
      var node := Flat(before)[x].node.value;
      (Matches(mt, before, node, p) <==> Matches(mt, pools, node, p)) || TwoOthers(mt, before, node, p)
  }

  lemma HomeSameIff(mt: Matcher, a: Pools, b: Pools, node: Node, p: string)
    requires Keyed(a) && Keyed(b) && SameSpecsOff(a, b, p) && p in a && p in b && p != DefaultPoolName
    ensures Home(mt, a, node) == Home(mt, b, node)
      <==> (Matches(mt, a, node, p) <==> Matches(mt, b, node, p)) || TwoOthers(mt, a, node, p)
  {
    hide Home, Matches, Keyed, SameSpecsOff;
    SameSpecsOffSameHome(mt, a, b, node, p);
    HomeOfP(mt, a, node, p);
    HomeOfP(mt, b, node, p);
    OthersSame(mt, a, b, node, p);
  }

  lemma OthersSame(mt: Matcher, a: Pools, b: Pools, node: Node, p: string)
    requires SameSpecsOff(a, b, p)
    ensures TwoOthers(mt, a, node, p) <==> TwoOthers(mt, b, node, p)
  {
    assert forall n :: n != p ==> Matches(mt, a, node, n) == Matches(mt, b, node, n);
  }

  /** Where a node belongs, by whether `p` matches it and what the others do. */
  lemma HomeOfP(mt: Matcher, pools: Pools, node: Node, p: string)
    requires Keyed(pools) && p in pools && p != DefaultPoolName
    ensures var he, h := Home(mt, pools, node, {p}), Home(mt, pools, node);
      && he != p && (he != DefaultPoolName ==> !TwoOthers(mt, pools, node, p))
      && h == if he != DefaultPoolName then (if Matches(mt, pools, node, p) then DefaultPoolName else he)
              else if Matches(mt, pools, node, p) && !TwoOthers(mt, pools, node, p) then p else DefaultPoolName
  {
    HomeCases(mt, pools, node, {});
    HomeCases(mt, pools, node, {p});
    HomeWithP(mt, pools, node, p);
    HomeIsNotP(mt, pools, node, p);
    var he := Home(mt, pools, node, {p});
    if he == DefaultPoolName && Matches(mt, pools, node, p) && !TwoOthers(mt, pools, node, p) {
      assert forall m :: m != p && Matches(mt, pools, node, m) ==> OnlyMatch(mt, pools, node, {p}, m);
      assert OnlyMatch(mt, pools, node, {}, p);
    }
  }

  /** A selector that changes without a move leaves everything placed exactly when its reach is the
      same. */
  lemma StaleSelectorPlaces(mt: Matcher, before: Pools, after: Pools, p: string)
    requires Keyed(before) && Keyed(after) && p in before && p in after && p != DefaultPoolName
    requires Placed(mt, before) && SameSpecsOff(before, after, p) && Flat(after) == Flat(before)
    requires forall x :: x in Flat(after) ==> PoolOf(after, x) == PoolOf(before, x)
    ensures Placed(mt, after) <==> SameReach(mt, before, after, p)
  {
    hide Flat, PoolOf, Home, Matches, SameSpecsOff, Keyed, TwoOthers;
    forall x | x in Flat(after) && Flat(after)[x].node.Some?
      ensures var node := Flat(after)[x].node.value;
        PoolOf(after, x) == Home(mt, after, node)
        <==> (Matches(mt, before, node, p) <==> Matches(mt, after, node, p)) || TwoOthers(mt, before, node, p)
    {
      HomeSameIff(mt, before, after, Flat(after)[x].node.value, p);
    }
  }
}
