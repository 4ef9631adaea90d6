/** The zone-by-zone round-robin iterator over node names (pkg/scheduler/info/node_tree.go).

    `Round` is the value of the iterator, `NodeTree` the object whose methods change it.
    `Next` is specified by `NextOf`; the fairness theorems are about runs of `NextOf`. */
module NodeTrees {
  import opened Api
  import opened Sequences

  /** The nodes of one zone; `lastIndex` is where the next visit of the zone continues. */
  datatype NodeArray = NodeArray(nodes: seq<string>, lastIndex: nat) {
    predicate Exhausted() { lastIndex >= |nodes| }
  }

  /** The zones' arrays in the order of `zones`, and the zone whose turn it is. */
  datatype Round = Round(arrays: seq<NodeArray>, zoneIndex: nat)

  /** There is a zone, and no zone is empty. */
  predicate Nonempty(t: Round) {
    t.arrays != [] && forall i :: 0 <= i < |t.arrays| ==> t.arrays[i].nodes != []
  }

  /** How often `x` occurs in `s` at position `i` or later. */
  function CountFrom(s: seq<string>, i: nat, x: string): nat
    decreases |s| - i
  {
    if i >= |s| then 0 else (if s[i] == x then 1 else 0) + CountFrom(s, i + 1, x)
  }

  /** How often `x` occurs in the first `k` zones. */
  function Occurs(arrays: seq<NodeArray>, k: nat, x: string): nat
    requires k <= |arrays|
  {
    if k == 0 then 0 else Occurs(arrays, k - 1, x) + CountFrom(arrays[k - 1].nodes, 0, x)
  }

  /** How often `x` is still to be returned from the first `k` zones before the next reset. */
  function Left(arrays: seq<NodeArray>, k: nat, x: string): nat
    requires k <= |arrays|
  {
    if k == 0 then 0
    else Left(arrays, k - 1, x) + CountFrom(arrays[k - 1].nodes, arrays[k - 1].lastIndex, x)
  }

  /** How many nodes are still to be returned from the first `k` zones before the next reset. */
  function Pending(arrays: seq<NodeArray>, k: nat): nat
    requires k <= |arrays|
  {
    if k == 0 then 0
    else
      var z := arrays[k - 1];
      Pending(arrays, k - 1) + if z.Exhausted() then 0 else |z.nodes| - z.lastIndex
  }

  /** The number of nodes in the first `k` zones. */
  function Size(arrays: seq<NodeArray>, k: nat): nat
    requires k <= |arrays|
  {
    if k == 0 then 0 else Size(arrays, k - 1) + |arrays[k - 1].nodes|
  }

  /** NumNodes. */
  function NumNodes(t: Round): nat { Size(t.arrays, |t.arrays|) }

  function Unreturned(t: Round, x: string): nat { Left(t.arrays, |t.arrays|, x) }

  function PendingNodes(t: Round): nat { Pending(t.arrays, |t.arrays|) }

  function Multiplicity(t: Round, x: string): nat { Occurs(t.arrays, |t.arrays|, x) }

  function Rewound(arrays: seq<NodeArray>): (r: seq<NodeArray>)
    ensures |r| == |arrays| && forall i :: 0 <= i < |r| ==> r[i] == arrays[i].(lastIndex := 0)
  {
    seq(|arrays|, i requires 0 <= i < |arrays| => arrays[i].(lastIndex := 0))
  }

  function Reset(t: Round): Round { Round(Rewound(t.arrays), 0) }

  /** The iterator as it is after being built, or after a reset. */
  predicate Fresh(t: Round) { Reset(t) == t }

  function Wrapped(t: Round): nat {
    if t.zoneIndex >= |t.arrays| then 0 else t.zoneIndex
  }

  /** The first zone, going round from `i`, that is not exhausted; the number of zones if the
      next `left` zones are all exhausted. */
  function PickFrom(arrays: seq<NodeArray>, i: nat, left: nat): (p: nat)
    requires i < |arrays|
    ensures p <= |arrays|
    ensures p < |arrays| ==> !arrays[p].Exhausted()
    decreases left
  {
    if left == 0 then |arrays|
    else if !arrays[i].Exhausted() then i
    else PickFrom(arrays, if i + 1 >= |arrays| then 0 else i + 1, left - 1)
  }

  function Pick(t: Round): (p: nat)
    requires t.arrays != []
    ensures p <= |t.arrays|
    ensures p < |t.arrays| ==> !t.arrays[p].Exhausted()
  {
    PickFrom(t.arrays, Wrapped(t), |t.arrays|)
  }

  /** Take the next node of zone `i`. */
  function Serve(t: Round, i: nat): Round
    requires i < |t.arrays|
  {
    Round(t.arrays[i := t.arrays[i].(lastIndex := t.arrays[i].lastIndex + 1)], i + 1)
  }

  /** What one call of Next returns and leaves behind. */
  function NextOf(t: Round): (string, Round)
    requires Nonempty(t)
  {
    var i := Pick(t);
    if i < |t.arrays| then (t.arrays[i].nodes[t.arrays[i].lastIndex], Serve(t, i))
    else (t.arrays[0].nodes[0], Serve(Reset(t), 0))
  }

  // ----- one call -----

  /** The search goes round in order and misses a zone only when every zone is exhausted. */
  lemma PickFromSkipsExhausted(arrays: seq<NodeArray>, i: nat, left: nat)
    requires i < |arrays| && left <= |arrays|
    ensures var p := PickFrom(arrays, i, left);
      && (i <= p < |arrays| ==> p < i + left)
      && (i <= p ==> forall k :: i <= k < p && k < i + left ==> arrays[k].Exhausted())
      && (p < i ==> forall k :: i <= k < |arrays| ==> arrays[k].Exhausted())
      && (p < i ==> forall k :: 0 <= k < p ==> arrays[k].Exhausted())
      && (p == |arrays| ==> forall k :: 0 <= k < i + left - |arrays| && k < i ==> arrays[k].Exhausted())
    decreases left
  {
    if left != 0 && arrays[i].Exhausted() {
      var next := if i + 1 >= |arrays| then 0 else i + 1;
      PickFromSkipsExhausted(arrays, next, left - 1);
    }
  }

  lemma PendingZeroIffExhausted(arrays: seq<NodeArray>, k: nat)
    requires k <= |arrays|
    ensures Pending(arrays, k) == 0 <==> forall i :: 0 <= i < k ==> arrays[i].Exhausted()
  {
  }

  lemma RewoundCounts(arrays: seq<NodeArray>, k: nat, x: string)
    requires k <= |arrays|
    ensures Left(Rewound(arrays), k, x) == Occurs(arrays, k, x)
    ensures Pending(Rewound(arrays), k) == Size(arrays, k)
  {
  }

  /** Replacing one zone's array replaces its share of every count. */
  lemma {:induction false} ZoneChange(arrays: seq<NodeArray>, i: nat, z: NodeArray, k: nat, x: string)
    requires i < |arrays| && k <= |arrays|
    ensures Left(arrays[i := z], k, x) == Left(arrays, k, x) + if k <= i then 0 else
        CountFrom(z.nodes, z.lastIndex, x) - CountFrom(arrays[i].nodes, arrays[i].lastIndex, x)
    ensures Occurs(arrays[i := z], k, x) == Occurs(arrays, k, x) + if k <= i then 0 else
        CountFrom(z.nodes, 0, x) - CountFrom(arrays[i].nodes, 0, x)
  {
    if k > 0 {
      ZoneChange(arrays, i, z, k - 1, x);
    }
  }

  lemma {:induction false} ServeTakesOnePending(arrays: seq<NodeArray>, i: nat, k: nat)
    requires i < |arrays| && k <= |arrays| && !arrays[i].Exhausted()
    ensures Pending(arrays[i := arrays[i].(lastIndex := arrays[i].lastIndex + 1)], k)
         == Pending(arrays, k) - if k <= i then 0 else 1
  {
    if k > 0 {
      ServeTakesOnePending(arrays, i, k - 1);
    }
  }

  /** Serving zone `i` takes exactly the returned node out of what is still to be returned. */
  lemma ServeTakesOne(t: Round, i: nat, x: string)
    requires i < |t.arrays| && !t.arrays[i].Exhausted()
    ensures Unreturned(t, x) == Unreturned(Serve(t, i), x)
        + if t.arrays[i].nodes[t.arrays[i].lastIndex] == x then 1 else 0
    ensures PendingNodes(t) == PendingNodes(Serve(t, i)) + 1
  {
    var w := t.arrays[i].(lastIndex := t.arrays[i].lastIndex + 1);
    ZoneChange(t.arrays, i, w, |t.arrays|, x);
    ServeTakesOnePending(t.arrays, i, |t.arrays|);
  }

  lemma NextKeepsTree(t: Round)
    requires Nonempty(t)
    ensures Nonempty(NextOf(t).1) && Reset(NextOf(t).1) == Reset(t)
  {
    assert Reset(NextOf(t).1).arrays == Reset(t).arrays;
  }

  /** One call: it resets exactly when nothing is pending, and otherwise returns a pending node
      and leaves the others pending. */
  lemma NextTakesOnePending(t: Round, x: string)
    requires Nonempty(t)
    ensures var s := if PendingNodes(t) > 0 then t else Reset(t);
      && Nonempty(s) && NextOf(t) == NextOf(s)
      && PendingNodes(s) == PendingNodes(NextOf(t).1) + 1
      && Unreturned(s, x) == Unreturned(NextOf(t).1, x) + if NextOf(t).0 == x then 1 else 0
  {
    PickFromSkipsExhausted(t.arrays, Wrapped(t), |t.arrays|);
    PendingZeroIffExhausted(t.arrays, |t.arrays|);
    if Pick(t) < |t.arrays| {
      ServeTakesOne(t, Pick(t), x);
    } else {
      assert Pick(Reset(t)) == 0;
      ServeTakesOne(Reset(t), 0, x);
    }
  }

  // ----- runs -----

  /** The iterator after `k` consecutive calls. */
  function After(t: Round, k: nat): (u: Round)
    requires Nonempty(t)
    ensures Nonempty(u) && Reset(u) == Reset(t)
    decreases k
  {
    if k == 0 then t else NextKeepsTree(t); After(NextOf(t).1, k - 1)
  }

  /** How many of the next `k` calls return `x`. */
  function Returns(t: Round, k: nat, x: string): nat
    requires Nonempty(t)
    decreases k
  {
    if k == 0 then 0
    else NextKeepsTree(t); (if NextOf(t).0 == x then 1 else 0) + Returns(NextOf(t).1, k - 1, x)
  }

  lemma {:induction false} CallsSplit(t: Round, j: nat, k: nat, x: string)
    requires Nonempty(t)
    ensures Returns(t, j + k, x) == Returns(t, j, x) + Returns(After(t, j), k, x)
    ensures After(t, j + k) == After(After(t, j), k)
    decreases j
  {
    hide NextOf, Nonempty, Reset;
    if j > 0 {
      NextKeepsTree(t);
      CallsSplit(NextOf(t).1, j - 1, k, x);
    }
  }

  /** While nodes are pending, each call returns one of them and no call resets. */
  lemma {:induction false} CallsDrain(t: Round, k: nat, x: string)
    requires Nonempty(t) && k <= PendingNodes(t)
    ensures Returns(t, k, x) + Unreturned(After(t, k), x) == Unreturned(t, x)
    ensures PendingNodes(After(t, k)) == PendingNodes(t) - k
    decreases k
  {
    hide NextOf, Nonempty, Reset, Unreturned, PendingNodes;
    if k > 0 {
      NextKeepsTree(t);
      NextTakesOnePending(t, x);
      CallsDrain(NextOf(t).1, k - 1, x);
    }
  }

  lemma NothingPendingNothingLeft(arrays: seq<NodeArray>, k: nat, x: string)
    requires k <= |arrays| && Pending(arrays, k) == 0
    ensures Left(arrays, k, x) == 0
  {
  }

  lemma SizePositive(arrays: seq<NodeArray>, k: nat)
    requires 0 < k <= |arrays| && arrays[0].nodes != []
    ensures Size(arrays, k) > 0
  {
  }

  /** Calls with nothing pending are calls from the fresh iterator. */
  lemma ExhaustedActsFresh(e: Round, k: nat, x: string)
    requires Nonempty(e) && PendingNodes(e) == 0 && k > 0
    ensures Nonempty(Reset(e)) && Returns(e, k, x) == Returns(Reset(e), k, x) && After(e, k) == After(Reset(e), k)
  {
    NextTakesOnePending(e, x);
    NextKeepsTree(e);
  }

  /** Every iterator reached from a fresh one is reached within one round. */
  lemma {:induction false} PositionInRound(f: Round, k: nat) returns (j: nat)
    requires Nonempty(f) && Fresh(f)
    ensures j <= NumNodes(f) && After(f, k) == After(f, j)
  {
    hide NextOf, After, Returns, Unreturned;
    if k == 0 {
      j := 0;
    } else {
      var i := PositionInRound(f, k - 1);
      CallsSplit(f, k - 1, 1, "");
      CallsSplit(f, i, 1, "");
      if i < NumNodes(f) {
        j := i + 1;
      } else {
        RewoundCounts(f.arrays, |f.arrays|, "");
        CallsDrain(f, i, "");
        SizePositive(f.arrays, |f.arrays|);
        ExhaustedActsFresh(After(f, i), 1, "");
        j := 1;
      }
    }
  }

  /** Round-robin fairness: after any number of calls on a tree unchanged since it was fresh,
      NumNodes consecutive calls return every name exactly as often as the tree holds it. */
  lemma AnyWindowIsFair(f: Round, k: nat, x: string)
    requires Nonempty(f) && Fresh(f)
    ensures Returns(After(f, k), NumNodes(f), x) == Multiplicity(f, x)
  {
    hide NextOf, After, Nonempty;
    var n := NumNodes(f);
    var j := PositionInRound(f, k);
    var s := After(f, j);
    RewoundCounts(f.arrays, |f.arrays|, x);
    CallsDrain(f, j, x);
    CallsDrain(s, n - j, x);
    var e := After(s, n - j);
    NothingPendingNothingLeft(e.arrays, |e.arrays|, x);
    CallsSplit(s, n - j, j, x);
    if j > 0 {
      ExhaustedActsFresh(e, j, x);
    }
  }

  // ----- balance between zones -----

  function Min(a: nat, b: nat): nat { if a < b then a else b }

  /** In round `r` the zones before `zoneIndex` have had r+1 visits and the others r,
      except that a zone stops at its own size. */
  predicate InRound(t: Round, r: nat) {
    && t.zoneIndex <= |t.arrays|
    && forall i :: 0 <= i < |t.arrays| ==>
        t.arrays[i].lastIndex == Min(|t.arrays[i].nodes|, if i < t.zoneIndex then r + 1 else r)
  }

  lemma NextKeepsRound(t: Round, r: nat) returns (r': nat)
    requires Nonempty(t) && InRound(t, r)
    ensures InRound(NextOf(t).1, r') && (r' == r || r' == r + 1 || r' == 0)
  {
    hide InRound, Pick;
    if Pick(t) >= |t.arrays| {
      r' := 0;
      ServedFresh(t, r);
    } else if t.zoneIndex <= Pick(t) {
      r' := r;
      ServedAhead(t, r);
    } else {
      r' := r + 1;
      ServedAnew(t, r);
    }
  }

  lemma ServedFresh(t: Round, r: nat)
    requires Nonempty(t) && InRound(t, r)
    ensures InRound(Serve(Reset(t), 0), 0)
  {
  }

  lemma ServedAhead(t: Round, r: nat)
    requires Nonempty(t) && InRound(t, r) && t.zoneIndex <= Pick(t) < |t.arrays|
    ensures InRound(Serve(t, Pick(t)), r)
  {
    PickFromSkipsExhausted(t.arrays, Wrapped(t), |t.arrays|);
  }

  lemma ServedAnew(t: Round, r: nat)
    requires Nonempty(t) && InRound(t, r) && Pick(t) < t.zoneIndex && Pick(t) < |t.arrays|
    ensures InRound(Serve(t, Pick(t)), r + 1)
  {
    PickFromSkipsExhausted(t.arrays, Wrapped(t), |t.arrays|);
  }

  /** At any time since the tree was fresh, the zones before `zoneIndex` are one visit ahead of
      the others, except for zones that have run out of nodes. */
  lemma {:induction false} ZonesStayBalanced(f: Round, k: nat) returns (r: nat)
    requires Nonempty(f) && Fresh(f)
    ensures InRound(After(f, k), r)
  {
    hide NextOf;
    if k == 0 {
      r := 0;
    } else {
      var q := ZonesStayBalanced(f, k - 1);
      CallsSplit(f, k - 1, 1, "");
      r := NextKeepsRound(After(f, k - 1), q);
      NextKeepsTree(After(f, k - 1));
    }
  }

  // ----- changing the tree during a round -----

  lemma {:induction false} CountAppended(s: seq<string>, name: string, i: nat, x: string)
    ensures CountFrom(s + [name], i, x) == CountFrom(s, i, x) + if i <= |s| && name == x then 1 else 0
    decreases |s| - i
  {
    if i < |s| {
      CountAppended(s, name, i + 1, x);
    }
  }

  /** A node added to an existing zone is visited in the current round exactly when the zone's
      position has not run past the zone's end. A removal can leave it past the end, and then
      the new node waits for the next round. */
  lemma AddedNodeVisitedThisRound(t: Round, i: nat, name: string)
    requires i < |t.arrays|
    ensures var z := t.arrays[i].(nodes := t.arrays[i].nodes + [name]);
            var u := t.(arrays := t.arrays[i := z]);
      && Multiplicity(u, name) == Multiplicity(t, name) + 1
      && (Unreturned(u, name) == Unreturned(t, name) + 1 <==> t.arrays[i].lastIndex <= |t.arrays[i].nodes|)
      && (forall x :: x != name ==> Unreturned(u, x) == Unreturned(t, x))
  {
    var w := t.arrays[i];
    var z := w.(nodes := w.nodes + [name]);
    var u := t.(arrays := t.arrays[i := z]);
    forall x
      ensures Unreturned(u, x) == Unreturned(t, x) + if w.lastIndex <= |w.nodes| && name == x then 1 else 0
      ensures Multiplicity(u, x) == Multiplicity(t, x) + if name == x then 1 else 0
    {
      ZoneChange(t.arrays, i, z, |t.arrays|, x);
      CountAppended(w.nodes, name, w.lastIndex, x);
      CountAppended(w.nodes, name, 0, x);
    }
  }

  lemma {:induction false} CountCutOut(s: seq<string>, k: nat, i: nat, x: string)
    requires k < |s|
    ensures CountFrom(CutOut(s, k), i, x) == if i <= k
        then CountFrom(s, i, x) - (if s[k] == x then 1 else 0) else CountFrom(s, i + 1, x)
    decreases |s| - i
  {
    if i < |s| {
      CountCutOut(s, k, i + 1, x);
    }
  }

  /** Removing position `k` of a zone takes the removed node out of the round if it was still to
      come; if it had been visited, the round loses the zone's next unvisited node instead. */
  lemma RemovalMaySkipANode(t: Round, i: nat, k: nat, x: string)
    requires i < |t.arrays| && k < |t.arrays[i].nodes|
    ensures var w := t.arrays[i];
            var u := t.(arrays := t.arrays[i := w.(nodes := CutOut(w.nodes, k))]);
      && Multiplicity(t, x) == Multiplicity(u, x) + (if w.nodes[k] == x then 1 else 0)
      && Unreturned(t, x) == Unreturned(u, x) +
          if !w.Exhausted() && w.nodes[if k < w.lastIndex then w.lastIndex else k] == x then 1 else 0
  {
    var w := t.arrays[i];
    ZoneChange(t.arrays, i, w.(nodes := CutOut(w.nodes, k)), |t.arrays|, x);
    CountCutOut(w.nodes, k, w.lastIndex, x);
    CountCutOut(w.nodes, k, 0, x);
  }

  lemma {:induction false} LeftOfPrefix(arrays: seq<NodeArray>, more: seq<NodeArray>, k: nat, x: string)
    requires k <= |arrays|
    ensures Left(arrays + more, k, x) == Left(arrays, k, x) && Occurs(arrays + more, k, x) == Occurs(arrays, k, x)
  {
    if k > 0 {
      LeftOfPrefix(arrays, more, k - 1, x);
    }
  }

  /** A node that opens a zone of its own is always visited in the current round. */
  lemma NewZoneVisitedThisRound(t: Round, name: string, x: string)
    ensures var u := t.(arrays := t.arrays + [NodeArray([name], 0)]);
      && Multiplicity(u, x) == Multiplicity(t, x) + (if x == name then 1 else 0)
      && Unreturned(u, x) == Unreturned(t, x) + if x == name then 1 else 0
  {
    LeftOfPrefix(t.arrays, [NodeArray([name], 0)], |t.arrays|, x);
    CountOfOne(name, x);
  }

  lemma CountOfOne(name: string, x: string)
    ensures CountFrom([name], 0, x) == if x == name then 1 else 0
  {
    assert CountFrom([name], 1, x) == 0;
  }

  lemma {:induction false} LeftOfCutOut(arrays: seq<NodeArray>, i: nat, k: nat, x: string)
    requires i < |arrays| && k < |arrays|
    ensures Left(CutOut(arrays, i), k, x) == if k <= i then Left(arrays, k, x)
      else Left(arrays, k + 1, x) - CountFrom(arrays[i].nodes, arrays[i].lastIndex, x)
  {
    var cut := CutOut(arrays, i);
    if k > 0 {
      LeftOfCutOut(arrays, i, k - 1, x);
      assert cut[k - 1] == arrays[if k - 1 < i then k - 1 else k];
    }
  }

  /** Removing the last node of a zone takes out the zone. The round loses exactly that zone's unvisited
      nodes. But the zones behind it move up under an index that stays: the zone whose turn it was, if
      it lay behind, is passed over until the index has gone round. */
  lemma RemovedZoneShiftsTurns(t: Round, i: nat, x: string)
    requires i < |t.arrays|
    ensures var u := t.(arrays := CutOut(t.arrays, i));
      && Unreturned(t, x) == Unreturned(u, x) + CountFrom(t.arrays[i].nodes, t.arrays[i].lastIndex, x)
      && (forall j :: 0 <= j < |u.arrays| ==> u.arrays[j] == t.arrays[if j < i then j else j + 1])
      && (i < t.zoneIndex < |t.arrays| ==> u.arrays[u.zoneIndex - 1] == t.arrays[t.zoneIndex])
  {
    LeftOfCutOut(t.arrays, i, |t.arrays| - 1, x);
  }

  // ----- the object -----

  /** The zone map and the zone list agree and no zone is empty. */
  ghost predicate Shaped(tree: map<string, NodeArray>, zones: seq<string>) {
    && Distinct(zones)
    && (forall i :: 0 <= i < |zones| ==> zones[i] in tree && tree[zones[i]].nodes != [])
    && (forall z :: z in tree ==> z in zones)
  }

  function ArraysOf(tree: map<string, NodeArray>, zones: seq<string>): (arrays: seq<NodeArray>)
    requires Shaped(tree, zones)
    ensures |arrays| == |zones| && forall i :: 0 <= i < |zones| ==> arrays[i] == tree[zones[i]]
  {
    seq(|zones|, i requires 0 <= i < |zones| => tree[zones[i]])
  }

  lemma IndexOfZone(tree: map<string, NodeArray>, zones: seq<string>, zone: string) returns (k: nat)
    requires Shaped(tree, zones) && zone in tree
    ensures k < |zones| && zones[k] == zone
  {
    k :| k < |zones| && zones[k] == zone;
  }

  lemma ShapedFacts(tree: map<string, NodeArray>, zones: seq<string>)
    requires Shaped(tree, zones)
    ensures Distinct(zones)
    ensures forall i :: 0 <= i < |zones| ==> zones[i] in tree && tree[zones[i]].nodes != []
  {
  }

  lemma ShapedZoneChange(tree: map<string, NodeArray>, zones: seq<string>, k: nat, z: NodeArray)
    requires Shaped(tree, zones) && k < |zones| && z.nodes != []
    ensures Shaped(tree[zones[k] := z], zones)
    ensures ArraysOf(tree[zones[k] := z], zones) == ArraysOf(tree, zones)[k := z]
  {
  }

  lemma ArraysOfZoneChange(tree: map<string, NodeArray>, zones: seq<string>, k: nat, z: NodeArray)
    requires Shaped(tree, zones) && k < |zones| && z.nodes != []
    ensures zones[k] in tree && Shaped(tree[zones[k] := z], zones)
    ensures ArraysOf(tree[zones[k] := z], zones) == ArraysOf(tree, zones)[k := z]
    ensures Size(ArraysOf(tree[zones[k] := z], zones), |zones|)
         == Size(ArraysOf(tree, zones), |zones|) + |z.nodes| - |tree[zones[k]].nodes|
  {
    ShapedZoneChange(tree, zones, k, z);
    SizeOfZoneChange(ArraysOf(tree, zones), k, z, |zones|);
  }

  lemma ShapedNewZone(tree: map<string, NodeArray>, zones: seq<string>, zone: string, z: NodeArray)
    requires Shaped(tree, zones) && zone !in tree && z.nodes != []
    ensures Shaped(tree[zone := z], zones + [zone])
  {
    var t, w := tree[zone := z], zones + [zone];
    assert forall i :: 0 <= i < |zones| ==> zones[i] != zone;
    forall y | y in t
      ensures y in w
    {
      if y == zone {
        assert w[|zones|] == y;
      } else {
        var k := IndexOfZone(tree, zones, y);
        assert w[k] == y;
      }
    }
  }

  lemma ArraysOfNewZone(tree: map<string, NodeArray>, zones: seq<string>, zone: string, z: NodeArray)
    requires Shaped(tree, zones) && zone !in tree && z.nodes != []
    ensures Shaped(tree[zone := z], zones + [zone])
    ensures ArraysOf(tree[zone := z], zones + [zone]) == ArraysOf(tree, zones) + [z]
    ensures Size(ArraysOf(tree[zone := z], zones + [zone]), |zones| + 1)
         == Size(ArraysOf(tree, zones), |zones|) + |z.nodes|
  {
    ShapedNewZone(tree, zones, zone, z);
    forall i | 0 <= i < |zones| ensures zones[i] in tree { }
    hide Shaped;
    SizeOfPrefix(ArraysOf(tree, zones), [z], |zones|);
    assert ArraysOf(tree[zone := z], zones + [zone]) == ArraysOf(tree, zones) + [z];
  }

  lemma ShapedRemovedZone(tree: map<string, NodeArray>, zones: seq<string>, k: nat)
    requires Shaped(tree, zones) && k < |zones|
    ensures Shaped(tree - {zones[k]}, CutOut(zones, k))
  {
    var t, w := tree - {zones[k]}, CutOut(zones, k);
    assert forall i :: 0 <= i < |w| ==> w[i] == zones[if i < k then i else i + 1] != zones[k];
    forall z | z in t
      ensures z in w
    {
      var i := IndexOfZone(tree, zones, z);
      assert w[if i < k then i else i - 1] == z;
    }
  }

  lemma {:induction false} SizeOfSkipped(before: seq<NodeArray>, after: seq<NodeArray>, k: nat, j: nat)
    requires k < |before| == |after| + 1 && j <= |after|
    requires forall i :: 0 <= i < |after| ==> after[i] == before[if i < k then i else i + 1]
    ensures Size(after, j) == if j <= k then Size(before, j) else Size(before, j + 1) - |before[k].nodes|
  {
    if j > 0 {
      SizeOfSkipped(before, after, k, j - 1);
    }
  }

  lemma ArraysOfRemovedZone(tree: map<string, NodeArray>, zones: seq<string>, k: nat)
    requires Shaped(tree, zones) && k < |zones| && Shaped(tree - {zones[k]}, CutOut(zones, k))
    ensures zones[k] in tree
    ensures var before, after := ArraysOf(tree, zones), ArraysOf(tree - {zones[k]}, CutOut(zones, k));
      && |before| == |zones| == |after| + 1 && before[k] == tree[zones[k]]
      && forall i :: 0 <= i < |after| ==> after[i] == before[if i < k then i else i + 1]
  {
    var before, after := ArraysOf(tree, zones), ArraysOf(tree - {zones[k]}, CutOut(zones, k));
    forall i | 0 <= i < |after| ensures after[i] == before[if i < k then i else i + 1] {
      assert CutOut(zones, k)[i] == zones[if i < k then i else i + 1];
    }
  }

  lemma SizeOfRemovedZone(tree: map<string, NodeArray>, zones: seq<string>, k: nat)
    requires Shaped(tree, zones) && k < |zones|
    ensures zones[k] in tree && Shaped(tree - {zones[k]}, CutOut(zones, k))
    ensures Size(ArraysOf(tree - {zones[k]}, CutOut(zones, k)), |zones| - 1)
         == Size(ArraysOf(tree, zones), |zones|) - |tree[zones[k]].nodes|
  {
    hide Shaped, Distinct, ArraysOf, CutOut;
    ShapedRemovedZone(tree, zones, k);
    ArraysOfRemovedZone(tree, zones, k);
    SizeOfSkipped(ArraysOf(tree, zones), ArraysOf(tree - {zones[k]}, CutOut(zones, k)), k, |zones| - 1);
  }

  lemma {:induction false} SizeOfZoneChange(arrays: seq<NodeArray>, i: nat, z: NodeArray, k: nat)
    requires i < |arrays| && k <= |arrays|
    ensures Size(arrays[i := z], k) == Size(arrays, k) + if k <= i then 0 else |z.nodes| - |arrays[i].nodes|
  {
    if k > 0 {
      SizeOfZoneChange(arrays, i, z, k - 1);
    }
  }

  lemma SizeOfPrefix(arrays: seq<NodeArray>, more: seq<NodeArray>, k: nat)
    requires k <= |arrays|
    ensures Size(arrays + more, k) == Size(arrays, k)
  {
  }

  /** What the search yields when `left` zones are still to be looked at before a reset. */
  ghost function Search(t: Round, left: nat): (string, Round)
    requires Nonempty(t)
    decreases left
  {
    var i := Wrapped(t);
    if !t.arrays[i].Exhausted() then (t.arrays[i].nodes[t.arrays[i].lastIndex], Serve(t, i))
    else if left <= 1 then (t.arrays[0].nodes[0], Serve(Reset(t), 0))
    else Search(t.(zoneIndex := i + 1), left - 1)
  }

  lemma {:induction false} SearchFollowsPick(t: Round, left: nat)
    requires Nonempty(t) && left > 0
    ensures var p := PickFrom(t.arrays, Wrapped(t), left);
      Search(t, left) == if p < |t.arrays| then (t.arrays[p].nodes[t.arrays[p].lastIndex], Serve(t, p))
                         else (t.arrays[0].nodes[0], Serve(Reset(t), 0))
    decreases left
  {
    if t.arrays[Wrapped(t)].Exhausted() && left > 1 {
      SearchFollowsPick(t.(zoneIndex := Wrapped(t) + 1), left - 1);
    }
  }

  lemma SearchIsNext(t: Round)
    requires Nonempty(t)
    ensures Search(t, |t.arrays|) == NextOf(t)
  {
    SearchFollowsPick(t, |t.arrays|);
  }

  /** One look at the zone whose turn it is. */
  lemma SearchStep(t: Round, left: nat)
    requires Nonempty(t)
    ensures var i := Wrapped(t); var z := t.arrays[i];
      && (!z.Exhausted() ==>
          Search(t, left) == (z.nodes[z.lastIndex], Round(t.arrays[i := z.(lastIndex := z.lastIndex + 1)], i + 1)))
      && (z.Exhausted() && left > 1 ==> Search(t, left) == Search(t.(zoneIndex := i + 1), left - 1))
      && (z.Exhausted() && left <= 1 ==>
          && Nonempty(Reset(t)) && Search(t, left) == Search(Reset(t), 0)
          && Reset(t).zoneIndex == 0 && !Reset(t).arrays[0].Exhausted() && Reset(t.(zoneIndex := i + 1)) == Reset(t))
  {
  }

  // ----- which nodes it holds -----

  ghost function SpotsIn(tree: map<string, NodeArray>): set<Spot> {
    set z, i | z in tree && 0 <= i < |tree[z].nodes| :: Spot(z, tree[z].nodes[i])
  }

  lemma InSpots(tree: map<string, NodeArray>, s: Spot)
    ensures s in SpotsIn(tree) <==> s.zone in tree && s.name in tree[s.zone].nodes
  {
    if s.zone in tree && s.name in tree[s.zone].nodes {
      var i :| 0 <= i < |tree[s.zone].nodes| && tree[s.zone].nodes[i] == s.name;
      assert s == Spot(s.zone, tree[s.zone].nodes[i]);
    }
  }

  /** One zone of the tree gets other nodes. */
  lemma SpotsChange(before: map<string, NodeArray>, after: map<string, NodeArray>, zone: string)
    requires forall z :: z != zone ==> (z in before <==> z in after) && (z in before ==> before[z] == after[z])
    ensures forall s: Spot :: s.zone != zone ==> (s in SpotsIn(before) <==> s in SpotsIn(after))
  {
    forall s: Spot | s.zone != zone ensures s in SpotsIn(before) <==> s in SpotsIn(after) {
      InSpots(before, s);
      InSpots(after, s);
    }
  }

  lemma SpotsAdded(before: map<string, NodeArray>, after: map<string, NodeArray>, zone: string, name: string)
    requires zone in after && after == before[zone := after[zone]]
    requires after[zone].nodes == (if zone in before then before[zone].nodes else []) + [name]
    ensures SpotsIn(after) == SpotsIn(before) + {Spot(zone, name)}
  {
    hide SpotsIn;
    SpotsChange(before, after, zone);
    forall s ensures s in SpotsIn(after) <==> s in SpotsIn(before) + {Spot(zone, name)} {
      InSpots(before, s);
      InSpots(after, s);
    }
  }

  lemma SpotsCutOut(before: map<string, NodeArray>, after: map<string, NodeArray>, zone: string, i: nat)
    requires zone in before && i < |before[zone].nodes| && Distinct(before[zone].nodes)
    requires after == before[zone := before[zone].(nodes := CutOut(before[zone].nodes, i))]
      || (|before[zone].nodes| == 1 && after == before - {zone})
    ensures SpotsIn(after) == SpotsIn(before) - {Spot(zone, before[zone].nodes[i])}
  {
    hide SpotsIn;
    var nodes := before[zone].nodes;
    var cut := CutOut(nodes, i);
    assert forall j :: 0 <= j < |cut| ==> cut[j] == nodes[if j < i then j else j + 1];
    forall j | 0 <= j < |nodes| && j != i ensures nodes[j] in cut {
      assert cut[if j < i then j else j - 1] == nodes[j];
    }
    forall s ensures s in SpotsIn(after) <==> s in SpotsIn(before) - {Spot(zone, nodes[i])} {
      InSpots(before, s);
      InSpots(after, s);
    }
  }

  lemma {:induction false} OccursIff(arrays: seq<NodeArray>, k: nat, x: string)
    requires k <= |arrays|
    ensures Occurs(arrays, k, x) > 0 <==> exists i :: 0 <= i < k && x in arrays[i].nodes
  {
    if k > 0 {
      OccursIff(arrays, k - 1, x);
      CountIff(arrays[k - 1].nodes, 0, x);
    }
  }

  lemma {:induction false} CountIff(s: seq<string>, i: nat, x: string)
    requires i <= |s|
    ensures CountFrom(s, i, x) > 0 <==> x in s[i..]
    decreases |s| - i
  {
    if i < |s| {
      CountIff(s, i + 1, x);
      assert s[i..] == [s[i]] + s[i + 1..];
    }
  }

  ghost predicate WellKept(tree: map<string, NodeArray>, zones: seq<string>, numNodes: int) {
    && Shaped(tree, zones)
    && (forall z :: z in tree ==> Distinct(tree[z].nodes))
    && numNodes == Size(ArraysOf(tree, zones), |zones|)
  }

  lemma KeptWithZone(tree: map<string, NodeArray>, zones: seq<string>, numNodes: int, zone: string, z: NodeArray)
    requires WellKept(tree, zones, numNodes) && zone in tree && z.nodes != [] && Distinct(z.nodes)
    ensures WellKept(tree[zone := z], zones, numNodes + |z.nodes| - |tree[zone].nodes|)
  {
    hide Shaped, Size, Distinct;
    var k := IndexOfZone(tree, zones, zone);
    ArraysOfZoneChange(tree, zones, k, z);
  }

  lemma KeptWithNewZone(tree: map<string, NodeArray>, zones: seq<string>, numNodes: int, zone: string, name: string)
    requires WellKept(tree, zones, numNodes) && zone !in tree
    ensures WellKept(tree[zone := NodeArray([name], 0)], zones + [zone], numNodes + 1)
  {
    hide Shaped, Size;
    ArraysOfNewZone(tree, zones, zone, NodeArray([name], 0));
  }

  lemma KeptWithoutZone(tree: map<string, NodeArray>, zones: seq<string>, numNodes: int, k: nat)
    requires WellKept(tree, zones, numNodes) && k < |zones|
    ensures zones[k] in tree
    ensures WellKept(tree - {zones[k]}, CutOut(zones, k), numNodes - |tree[zones[k]].nodes|)
  {
    hide Shaped, Size, Distinct, CutOut;
    SizeOfRemovedZone(tree, zones, k);
    ShapedFacts(tree - {zones[k]}, CutOut(zones, k));
    CutLength(zones, k);
  }

  lemma ZonesDistinct(tree: map<string, NodeArray>, zones: seq<string>, numNodes: int)
    requires WellKept(tree, zones, numNodes)
    ensures Distinct(zones) && forall z :: z in tree ==> Distinct(tree[z].nodes)
  {
  }

  lemma ZoneIndex(tree: map<string, NodeArray>, zones: seq<string>, numNodes: int, zone: string) returns (k: nat)
    requires WellKept(tree, zones, numNodes) && zone in tree
    ensures k < |zones| && zones[k] == zone
  {
    k := IndexOfZone(tree, zones, zone);
  }

  lemma DistinctWith(names: seq<string>, name: string)
    requires Distinct(names) && name !in names
    ensures Distinct(names + [name])
  {
  }

  lemma DistinctCut(names: seq<string>, i: nat)
    requires Distinct(names) && i < |names|
    ensures Distinct(CutOut(names, i)) && |CutOut(names, i)| == |names| - 1
  {
    var cut := CutOut(names, i);
    assert forall j :: 0 <= j < |cut| ==> cut[j] == names[if j < i then j else j + 1];
  }

  lemma CutLength(zones: seq<string>, k: nat)
    requires k < |zones|
    ensures |CutOut(zones, k)| == |zones| - 1
  {
  }

  /** The tree with a node: a known one changes nothing, a new one goes to the end of its zone, and a
      new zone to the end of the zones. */
  function Grown(tree: map<string, NodeArray>, zones: seq<string>, n: Node): (map<string, NodeArray>, seq<string>) {
    if n.zone !in tree then (tree[n.zone := NodeArray([n.name], 0)], zones + [n.zone])
    else if n.name in tree[n.zone].nodes then (tree, zones)
    else (tree[n.zone := tree[n.zone].(nodes := tree[n.zone].nodes + [n.name])], zones)
  }

  /** The tree without a node: it is cut out of its zone, if it is there, and the zone out of the zones
      when it was the last. */
  ghost predicate Shrunk(tree: map<string, NodeArray>, zones: seq<string>, n: Node, rest: map<string, NodeArray>,
                         left: seq<string>) {
    if n.zone !in tree || n.name !in tree[n.zone].nodes then rest == tree && left == zones
    else if |tree[n.zone].nodes| == 1 then
      rest == tree - {n.zone} && forall k :: 0 <= k < |zones| && zones[k] == n.zone ==> left == CutOut(zones, k)
    else
      && left == zones
      && exists i ::
          && 0 <= i < |tree[n.zone].nodes| && tree[n.zone].nodes[i] == n.name
          && rest == tree[n.zone := tree[n.zone].(nodes := CutOut(tree[n.zone].nodes, i))]
  }

  class NodeTree {
    var tree: map<string, NodeArray>
    var zones: seq<string>
    var zoneIndex: nat
    var numNodes: int

    ghost function Value(): (t: Round)
      requires Valid()
      reads this
      ensures |t.arrays| == |zones| && t.zoneIndex == zoneIndex
      ensures zones != [] ==> Nonempty(t)
    {
      Round(ArraysOf(tree, zones), zoneIndex)
    }

    /** The zone list and the zone map agree, no zone is empty or lists a node twice, and the
        counter counts. */
    ghost predicate Valid()
      reads this
    {
      WellKept(tree, zones, numNodes)
    }

    /** The nodes the tree holds, each with its zone. */
    ghost function Spots(): set<Spot>
      reads this
    {
      SpotsIn(tree)
    }

    /** They are the nodes the iterator runs through. */
    lemma SpotsAreTheNodes(x: string)
      requires Valid()
      ensures (exists z :: Spot(z, x) in Spots()) <==> Multiplicity(Value(), x) > 0
    {
      hide SpotsIn;
      OccursIff(Value().arrays, |zones|, x);
      if z :| Spot(z, x) in Spots() {
        InSpots(tree, Spot(z, x));
        var k := IndexOfZone(tree, zones, z);
        assert x in Value().arrays[k].nodes;
      }
      if i :| 0 <= i < |zones| && x in Value().arrays[i].nodes {
        InSpots(tree, Spot(zones[i], x));
      }
    }

    constructor ()
      ensures Valid() && zones == [] && numNodes == 0 && Fresh(Value()) && Spots() == {}
    {
      tree, zones, zoneIndex, numNodes := map[], [], 0, 0;
      new;
      assert Rewound([]) == [];
    }

    method AddNode(n: Node)
      requires Valid()
      modifies this
      ensures Valid() && zoneIndex == old(zoneIndex)
      ensures (tree, zones) == Grown(old(tree), old(zones), n)
      ensures numNodes == old(numNodes)
          + if n.zone in old(tree) && n.name in old(tree[n.zone].nodes) then 0 else 1
      ensures Spots() == old(Spots()) + {SpotOf(n)}
    {
      hide WellKept, SpotsIn, Distinct;
      InSpots(tree, SpotOf(n));
      ZonesDistinct(tree, zones, numNodes);
      if n.zone in tree {
        var na := tree[n.zone];
        for i := 0 to |na.nodes|
          invariant n.name !in na.nodes[..i]
        {
          if na.nodes[i] == n.name {
            return;
          }
        }
        var grown := na.(nodes := na.nodes + [n.name]);
        assert n.name !in na.nodes[..|na.nodes|] && na.nodes[..|na.nodes|] == na.nodes;
        DistinctWith(na.nodes, n.name);
        KeptWithZone(tree, zones, numNodes, n.zone, grown);
        SpotsAdded(tree, tree[n.zone := grown], n.zone, n.name);
        tree := tree[n.zone := grown];
      } else {
        KeptWithNewZone(tree, zones, numNodes, n.zone, n.name);
        SpotsAdded(tree, tree[n.zone := NodeArray([n.name], 0)], n.zone, n.name);
        zones := zones + [n.zone];
        tree := tree[n.zone := NodeArray([n.name], 0)];
      }
      numNodes := numNodes + 1;
    }

    /** Cuts the zone out of the list. The loop ranges over the slice it shortens: removal shifts
        the backing array under the loop, which is `backing` here. */
    method RemoveZone(zone: string)
      requires Distinct(zones)
      modifies this
      ensures tree == old(tree) - {zone} && zoneIndex == old(zoneIndex) && numNodes == old(numNodes)
      ensures zone !in old(zones) ==> zones == old(zones)
      ensures forall k :: 0 <= k < |old(zones)| && old(zones)[k] == zone ==> zones == CutOut(old(zones), k)
    {
      tree := tree - {zone};
      var backing := zones;
      var n := |backing|;
      for i := 0 to n
        invariant |backing| == n
        invariant tree == old(tree) - {zone} && zoneIndex == old(zoneIndex) && numNodes == old(numNodes)
        invariant zone !in old(zones)[..i] ==> zones == old(zones) && backing == old(zones)
        invariant forall k :: 0 <= k < i && old(zones)[k] == zone ==>
            && zones == CutOut(old(zones), k)
            && (forall j :: i <= j < n ==> backing[j] == old(zones)[if j + 1 < n then j + 1 else j])
      {
        if backing[i] == zone {
          zones := zones[..i] + zones[i + 1..];
          backing := backing[..i] + backing[i + 1..] + [backing[n - 1]];
        }
      }
    }

    /** Cuts position `i` of the zone out, and the zone with its last node. */
    method RemoveAt(zone: string, i: nat)
      requires Valid() && zone in tree && i < |tree[zone].nodes|
      modifies this
      ensures Valid() && zoneIndex == old(zoneIndex) && numNodes == old(numNodes) - 1
      ensures |old(tree[zone].nodes)| > 1 ==>
          && zones == old(zones)
          && tree == old(tree)[zone := old(tree[zone]).(nodes := CutOut(old(tree[zone].nodes), i))]
      ensures |old(tree[zone].nodes)| == 1 ==>
          && tree == old(tree) - {zone}
          && forall k :: 0 <= k < |old(zones)| && old(zones)[k] == zone ==> zones == CutOut(old(zones), k)
      ensures Spots() == old(Spots()) - {Spot(zone, old(tree[zone].nodes[i]))}
    {
      hide WellKept, SpotsIn, Distinct;
      var na := tree[zone];
      ghost var k := ZoneIndex(tree, zones, numNodes, zone);
      var cut := na.(nodes := CutOut(na.nodes, i));
      ZonesDistinct(tree, zones, numNodes);
      DistinctCut(na.nodes, i);
      tree := tree[zone := cut];
      if |cut.nodes| == 0 {
        KeptWithoutZone(old(tree), zones, numNodes, k);
        RemoveZone(zone);
        assert tree == old(tree) - {zone};
      } else {
        KeptWithZone(old(tree), zones, numNodes, zone, cut);
      }
      SpotsCutOut(old(tree), tree, zone, i);
      numNodes := numNodes - 1;
    }

    method RemoveNode(n: Node) returns (ok: bool)
      requires Valid()
      modifies this
      ensures Valid() && zoneIndex == old(zoneIndex)
      ensures ok <==> n.zone in old(tree) && n.name in old(tree[n.zone].nodes)
      ensures numNodes == old(numNodes) - if ok then 1 else 0
      ensures Shrunk(old(tree), old(zones), n, tree, zones)
      ensures ok == (SpotOf(n) in old(Spots())) && Spots() == old(Spots()) - {SpotOf(n)}
    {
      hide Valid, SpotsIn;
      InSpots(tree, SpotOf(n));
      if n.zone in tree {
        var na := tree[n.zone];
        for i := 0 to |na.nodes|
          invariant n.name !in na.nodes[..i]
        {
          if na.nodes[i] == n.name {
            RemoveAt(n.zone, i);
            return true;
          }
        }
      }
      return false;
    }

    /** UpdateNode: a node that changed its zone is taken off, if it is there, and added anew. */
    method UpdateNode(oldNode: Node, newNode: Node)
      requires Valid()
      modifies this
      ensures Valid() && zoneIndex == old(zoneIndex)
      ensures oldNode.zone == newNode.zone ==> tree == old(tree) && zones == old(zones) && numNodes == old(numNodes)
      ensures oldNode.zone != newNode.zone ==> exists rest, left ::
          Shrunk(old(tree), old(zones), oldNode, rest, left) && (tree, zones) == Grown(rest, left, newNode)
      ensures Spots() == if oldNode.zone == newNode.zone then old(Spots())
                         else old(Spots()) - {SpotOf(oldNode)} + {SpotOf(newNode)}
    {
      hide Valid, SpotsIn, Shrunk, Grown;
      if oldNode.zone == newNode.zone {
        return;
      }
      var ok := RemoveNode(oldNode);
      ghost var rest, left := tree, zones;
      AddNode(newNode);
      assert Shrunk(old(tree), old(zones), oldNode, rest, left);
    }

    method ResetExhausted()
      requires Valid()
      modifies this
      ensures Valid() && zones == old(zones) && numNodes == old(numNodes)
      ensures Value() == Reset(old(Value()))
    {
      tree := map z | z in tree :: tree[z].(lastIndex := 0);
      zoneIndex := 0;
      SizeOfRevisited(old(Value()).arrays, ArraysOf(tree, zones), |zones|);
    }

    /** Takes the next node of zone number `i`, unless the zone is exhausted. */
    method NextOfZone(i: nat) returns (name: string, exhausted: bool)
      requires Valid() && i < |zones|
      modifies this
      ensures Valid() && zones == old(zones) && numNodes == old(numNodes) && zoneIndex == old(zoneIndex)
      ensures exhausted == old(Value()).arrays[i].Exhausted()
      ensures exhausted ==> Value() == old(Value())
      ensures !exhausted ==>
          && var z := old(Value()).arrays[i];
          && name == z.nodes[z.lastIndex]
          && Value().arrays == old(Value()).arrays[i := z.(lastIndex := z.lastIndex + 1)]
    {
      ShapedFacts(tree, zones);
      hide Shaped;
      var na := tree[zones[i]];
      if na.lastIndex >= |na.nodes| {
        return "", true;
      }
      ArraysOfZoneChange(tree, zones, i, na.(lastIndex := na.lastIndex + 1));
      tree := tree[zones[i] := na.(lastIndex := na.lastIndex + 1)];
      return na.nodes[na.lastIndex], false;
    }

    /** Passes the turn on, and says whose turn it was. */
    method PassTurn() returns (i: nat)
      requires Valid() && zones != []
      modifies this
      ensures Valid() && zones == old(zones) && numNodes == old(numNodes)
      ensures i == Wrapped(old(Value())) < |zones| && Value() == old(Value()).(zoneIndex := i + 1)
    {
      if zoneIndex >= |zones| {
        zoneIndex := 0;
      }
      i := zoneIndex;
      zoneIndex := zoneIndex + 1;
    }

    /** Looks at the zone whose turn it is, with `left` zones to go before a reset. */
    method Look(ghost left: nat) returns (name: string, exhausted: bool)
      requires Valid() && zones != []
      modifies this
      ensures Valid() && zones == old(zones) && numNodes == old(numNodes)
      ensures !exhausted ==> (name, Value()) == Search(old(Value()), left)
      ensures exhausted && left > 1 ==> Search(Value(), left - 1) == Search(old(Value()), left)
      ensures exhausted && left <= 1 ==>
          && Nonempty(Reset(Value()))
          && Search(Reset(Value()), 0) == Search(old(Value()), left)
          && Reset(Value()).zoneIndex == 0 && !Reset(Value()).arrays[0].Exhausted()
      ensures exhausted ==> old(Value()).arrays[Wrapped(old(Value()))].Exhausted()
    {
      hide Valid, Value, Nonempty, Reset, Search;
      SearchStep(Value(), left);
      var i := PassTurn();
      name, exhausted := NextOfZone(i);
    }

    /** Returns the next name, going from zone to zone; an empty tree yields the empty name. */
    method Next() returns (name: string)
      requires Valid()
      modifies this
      ensures Valid() && zones == old(zones) && numNodes == old(numNodes)
      ensures zones == [] ==> name == "" && Value() == old(Value())
      ensures zones != [] ==> Nonempty(old(Value())) && (name, Value()) == NextOf(old(Value()))
    {
      hide Valid, Value, NextOf, Nonempty, Reset, Search;
      if |zones| == 0 {
        return "";
      }
      name := "";
      ghost var goal := NextOf(Value());
      SearchIsNext(Value());
      ghost var left: nat := |zones|;
      var numExhaustedZones := 0;
      var exhausted := true;
      while exhausted
        invariant Valid() && zones == old(zones) && numNodes == old(numNodes)
        invariant exhausted ==> Search(Value(), left) == goal
        invariant exhausted && left > 0 ==> left == |zones| - numExhaustedZones
        invariant left == 0 && exhausted ==> numExhaustedZones >= |zones|
        invariant exhausted && left == 0 ==> Value().zoneIndex == 0 && !Value().arrays[0].Exhausted()
        invariant !exhausted ==> (name, Value()) == goal
        decreases exhausted, left
      {
        name, exhausted := Look(left);
        if exhausted {
          numExhaustedZones := numExhaustedZones + 1;
          left := left - 1;
          if numExhaustedZones >= |zones| {
            ResetExhausted();
          }
        }
      }
    }
  }

  lemma SizeOfRevisited(a: seq<NodeArray>, b: seq<NodeArray>, k: nat)
    requires |a| == |b| && k <= |a| && forall i :: 0 <= i < |a| ==> b[i].nodes == a[i].nodes
    ensures Size(a, k) == Size(b, k)
  {
  }

  // ----- runs that show it -----

  lemma TwoCalls(a: string, b: string)
    ensures var t := Round([NodeArray([a, b], 0)], 0);
      Nonempty(t) && Nonempty(NextOf(t).1) && NextOf(NextOf(t).1).1 == Round([NodeArray([a, b], 2)], 1)
    ensures var t := Round([NodeArray([a, b], 0)], 0); NextOf(t).1 == Round([NodeArray([a, b], 1)], 1)
  {
    var t, u := Round([NodeArray([a, b], 0)], 0), Round([NodeArray([a, b], 1)], 1);
    assert Pick(t) == 0 && Pick(u) == 0;
    assert NextOf(t).1 == u;
  }

  /** A tree of one zone with two nodes, after `calls` calls. */
  method TwoNodes(a: Node, b: Node, calls: nat) returns (t: NodeTree)
    requires a.zone == b.zone && a.name != b.name && calls <= 2
    ensures t.Valid() && t.zones == [a.zone] && t.tree == map[a.zone := NodeArray([a.name, b.name], calls)] && fresh(t)
  {
    hide NodeTree.Valid, SpotsIn, NextOf, Nonempty;
    t := new NodeTree();
    EmptyTree(t);
    t.AddNode(a);
    assert t.tree == map[a.zone := NodeArray([a.name], 0)];
    t.AddNode(b);
    assert [a.name] + [b.name] == [a.name, b.name];
    assert t.tree == map[a.zone := NodeArray([a.name, b.name], 0)];
    OneZone(t, a.zone);
    TwoCalls(a.name, b.name);
    if calls > 0 {
      var first := t.Next();
      OneZone(t, a.zone);
    }
    if calls > 1 {
      var second := t.Next();
      OneZone(t, a.zone);
    }
  }

  lemma EmptyTree(t: NodeTree)
    requires t.Valid() && t.zones == []
    ensures t.tree == map[]
  {
  }

  /** The only zone's array, and the value of the tree. */
  lemma OneZone(t: NodeTree, zone: string)
    requires t.Valid() && t.zones == [zone]
    ensures zone in t.tree && t.tree == map[zone := t.tree[zone]] && t.Value() == Round([t.tree[zone]], t.zoneIndex)
  {
    assert forall z :: z in t.tree ==> z == zone;
  }

  /** Two nodes are visited, the second is removed, and a third is added: the round does not visit it. */
  method LateNode(a: Node, b: Node, c: Node) returns (t: NodeTree)
    requires a.zone == b.zone == c.zone && a.name != b.name && b.name != c.name && a.name != c.name
    ensures t.Valid() && Multiplicity(t.Value(), c.name) == 1 && Unreturned(t.Value(), c.name) == 0
  {
    hide NodeTree.Valid, SpotsIn, CountFrom;
    t := OneLeft(a, b);
    t.AddNode(c);
    assert [a.name] + [c.name] == [a.name, c.name];
    OneZone(t, a.zone);
    CountOfTwo(a.name, c.name);
  }

  /** Two nodes are visited, and the second is removed. */
  method OneLeft(a: Node, b: Node) returns (t: NodeTree)
    requires a.zone == b.zone && a.name != b.name
    ensures fresh(t) && t.Valid() && t.zones == [a.zone] && t.tree == map[a.zone := NodeArray([a.name], 2)]
  {
    hide NodeTree.Valid, SpotsIn;
    t := TwoNodes(a, b, 2);
    assert CutOut([a.name, b.name], 1) == [a.name];
    var ok := t.RemoveNode(b);
  }

  lemma CountOfTwo(a: string, c: string)
    requires a != c
    ensures var t := Round([NodeArray([a, c], 2)], 0);
      Occurs(t.arrays, 1, c) == 1 && Left(t.arrays, 1, c) == 0
  {
    assert CountFrom([a, c], 2, c) == 0 && CountFrom([a, c], 1, c) == 1;
    assert Occurs([NodeArray([a, c], 2)], 0, c) == 0 && Left([NodeArray([a, c], 2)], 0, c) == 0;
  }

  /** One of two nodes is visited and then removed: the round does not visit the other one. */
  method SkippedNode(a: Node, b: Node) returns (t: NodeTree)
    requires a.zone == b.zone && a.name != b.name
    ensures t.Valid() && Multiplicity(t.Value(), b.name) == 1 && Unreturned(t.Value(), b.name) == 0
  {
    hide NodeTree.Valid, SpotsIn;
    t := TwoNodes(a, b, 1);
    var ok := t.RemoveNode(a);
    assert CutOut([a.name, b.name], 0) == [b.name];
    assert t.tree == map[a.zone := NodeArray([b.name], 1)];
    OneZone(t, a.zone);
    CountOfOne(b.name, b.name);
    assert Occurs([NodeArray([b.name], 1)], 0, b.name) == 0 && Left([NodeArray([b.name], 1)], 0, b.name) == 0;
    assert CountFrom([b.name], 1, b.name) == 0;
  }
}
