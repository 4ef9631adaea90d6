/** selectVictimsOnNode (pkg/scheduler/core/generic_scheduler.go): the candidates are taken off a
    copy of the node while it is being ranged over, and then tried back one by one. */
module VictimSelection {
  import opened Api
  import opened NodeInfos
  import opened PodOrders
  import opened VictimChoice

  const SchedulerName := "ai-scheduler"

  /** No two pods of a node share a uid, and each has one; the cache keeps it so. */
  ghost predicate DistinctUids(pods: seq<Pod>) {
    && (forall i :: 0 <= i < |pods| ==> pods[i].uid != "")
    && (forall i, j :: 0 <= i < j < |pods| ==> pods[i].uid != pods[j].uid)
  }

  /** The pods of a node copy: a slice over a backing array. */
  class PodSlice {
    var backing: array<Pod>
    var len: nat

    ghost predicate Valid()
      reads this
    {
      len <= backing.Length
    }

    ghost function Pods(): seq<Pod>
      requires Valid()
      reads this, backing
    {
      backing[..len]
    }

    /** NodeInfo.Clone. */
    constructor (pods: seq<Pod>)
      ensures Valid() && fresh(backing) && Pods() == pods
    {
      backing := new Pod[|pods|](i requires 0 <= i < |pods| => pods[i]);
      len := |pods|;
      new;
      assert backing[..len] == pods;
    }

    /** NodeInfo.AddPod, its pod list: append in place while there is room. */
    method Append(pod: Pod)
      requires Valid()
      modifies this, backing
      ensures Valid() && Pods() == old(Pods()) + [pod]
      ensures backing == old(backing) || fresh(backing)
    {
      if len == backing.Length {
        var old_ := backing;
        backing := new Pod[2 * len + 1](i requires 0 <= i reads old_ => if i < old_.Length then old_[i] else pod);
        assert backing[..len] == old(Pods());
      }
      backing[len] := pod;
      len := len + 1;
    }

    /** NodeInfo.RemovePod, its pod list: the last pod moves into the gap. Only the position of the
        removed pod is written. */
    method Remove(pod: Pod) returns (found: bool)
      requires Valid()
      modifies this`len, backing
      ensures Valid()
      ensures found == (pod.uid != "" && HasPod(old(Pods()), pod.uid))
      ensures found ==> Pods() == SwapRemoved(old(Pods()), FindPod(old(Pods()), pod.uid))
      ensures len == old(len) - (if found then 1 else 0) && (!found ==> Pods() == old(Pods()))
      ensures forall j :: 0 <= j < backing.Length && (found ==> j != FindPod(old(Pods()), pod.uid)) ==>
        backing[j] == old(backing[j])
    {
      found := false;
      if pod.uid == "" {
        return;
      }
      var i := 0;
      while i < len
        invariant i <= len
        invariant forall j :: 0 <= j < i ==> backing[j].uid != pod.uid
      {
        if backing[i].uid == pod.uid {
          assert FindPod(Pods(), pod.uid) == i by { assert Pods()[i].uid == pod.uid; }
          backing[i] := backing[len - 1];
          len := len - 1;
          return true;
        }
        i := i + 1;
      }
    }
  }

  lemma SwapRemovedContents(pods: seq<Pod>, i: nat)
    requires i < |pods|
    ensures multiset(SwapRemoved(pods, i)) == multiset(pods) - multiset{pods[i]}
  {
    hide SwapRemoved;
    var a, b := SwapRemovedParts(pods, i);
    if i < |pods| - 1 {
      SwappedOut(a, pods[i], b, pods[|pods| - 1]);
    } else {
      LastOut(a, pods[i]);
    }
  }

  lemma SwapRemovedParts(pods: seq<Pod>, i: nat) returns (a: seq<Pod>, b: seq<Pod>)
    requires i < |pods|
    ensures i < |pods| - 1 ==>
      pods == a + [pods[i]] + b + [pods[|pods| - 1]] && SwapRemoved(pods, i) == a + [pods[|pods| - 1]] + b
    ensures i == |pods| - 1 ==> pods == a + [pods[i]] && SwapRemoved(pods, i) == a
  {
    a, b := pods[..i], if i < |pods| - 1 then pods[i + 1..|pods| - 1] else [];
  }

  lemma AppendedContents(a: seq<Pod>, x: Pod)
    ensures multiset(a + [x]) == multiset(a) + multiset{x}
  {
  }

  /** A pod just appended is the one that is found, and removing it restores the list. */
  lemma AddedThenRemoved(a: seq<Pod>, x: Pod)
    requires forall i :: 0 <= i < |a| ==> a[i].uid != x.uid
    ensures HasPod(a + [x], x.uid) && FindPod(a + [x], x.uid) == |a| && SwapRemoved(a + [x], |a|) == a
  {
    var pods := a + [x];
    assert pods[|a|].uid == x.uid && forall j :: 0 <= j < |a| ==> pods[j].uid != x.uid;
  }

  lemma LastOut(a: seq<Pod>, x: Pod)
    ensures multiset(a) == multiset(a + [x]) - multiset{x}
  {
  }

  lemma SwappedOut(a: seq<Pod>, x: Pod, b: seq<Pod>, y: Pod)
    ensures multiset(a + [y] + b) == multiset(a + [x] + b + [y]) - multiset{x}
  {
    var m, n := multiset(a), multiset(b);
    assert multiset(a + [y] + b) == m + multiset{y} + n;
    assert multiset(a + [x] + b + [y]) == m + multiset{x} + n + multiset{y};
  }

  // ----- the candidates -----

  /** Whether a pod on the node may be evicted for the preemptor. */
  predicate Candidate(pool: string, queues: set<string>, preemptor: Pod, p: Pod) {
    && p.schedulerName == SchedulerName
    && (pool != QueueNameOf(queues, p) ||
        (pool == QueueNameOf(queues, p) && PriorityOf(p) < PriorityOf(preemptor)))
  }

  /** The loop ranges over the slice as it was, while each removal writes to the same array. Every
      pod is still visited exactly once: positions not yet visited are never written. */
  method TakeCandidates(node: PodSlice, eligible: Pod -> bool) returns (candidates: seq<Pod>)
    requires node.Valid() && DistinctUids(node.Pods())
    modifies node`len, node.backing
    ensures node.Valid()
    ensures candidates == Chosen(old(node.Pods()), eligible, |old(node.Pods())|)
    ensures Together(node.Pods(), candidates, old(node.Pods()))
  {
    hide FindPod, FindFrom, SwapRemoved, Together, DistinctUids;
    candidates := [];
    ghost var orig := node.Pods();
    assert Together(orig, [], orig) by { TogetherAtFirst(orig); }
    var n := node.len;
    for k := 0 to n
      invariant node.Valid() && node.len <= n
      invariant forall j :: k <= j < n ==> node.backing[j] == orig[j]
      invariant candidates == Chosen(orig, eligible, k)
      invariant Together(node.Pods(), candidates, orig)
    {
      var p := node.backing[k];
      if eligible(p) {
        candidates := Take(node, k, candidates, eligible, orig);
      }
    }
  }

  /** The eligible pod at position `k` leaves the node; later positions are not written. */
  method Take(node: PodSlice, k: nat, candidates: seq<Pod>, ghost eligible: Pod -> bool, ghost orig: seq<Pod>)
    returns (more: seq<Pod>)
    requires node.Valid() && k < |orig| <= node.backing.Length && DistinctUids(orig) && node.len <= |orig|
    requires forall j :: k <= j < |orig| ==> node.backing[j] == orig[j]
    requires candidates == Chosen(orig, eligible, k) && Together(node.Pods(), candidates, orig)
    modifies node`len, node.backing
    ensures node.Valid() && node.len <= |orig| && more == candidates + [orig[k]]
    ensures forall j :: k < j < |orig| ==> node.backing[j] == orig[j]
    ensures Together(node.Pods(), more, orig)
  {
    hide FindPod, FindFrom, SwapRemoved, Together, DistinctUids, Chosen;
    var p := node.backing[k];
    StillThere(orig, node.Pods(), candidates, eligible, k);
    OneMoreTaken(orig, node.Pods(), candidates, FindPod(node.Pods(), p.uid));
    more := candidates + [p];
    var found := node.Remove(p);
  }

  /** The pods left on the node and the candidates are together the pods there were. */
  ghost predicate Together(now: seq<Pod>, candidates: seq<Pod>, orig: seq<Pod>) {
    multiset(now) + multiset(candidates) == multiset(orig)
  }

  lemma TogetherAtFirst(orig: seq<Pod>)
    ensures Together(orig, [], orig)
  {
  }

  lemma OneMoreTaken(orig: seq<Pod>, now: seq<Pod>, candidates: seq<Pod>, i: nat)
    requires i < |now| && Together(now, candidates, orig)
    ensures Together(SwapRemoved(now, i), candidates + [now[i]], orig)
  {
    SwapRemovedContents(now, i);
    assert now[i] in multiset(now);
  }

  /** The pod at the next position has not been removed yet, and is found there or further down. */
  lemma StillThere(orig: seq<Pod>, now: seq<Pod>, candidates: seq<Pod>, eligible: Pod -> bool, k: nat)
    requires k < |orig| && DistinctUids(orig) && candidates == Chosen(orig, eligible, k)
    requires Together(now, candidates, orig)
    requires |now| <= |orig| && forall j :: k <= j < |now| ==> now[j] == orig[j]
    ensures HasPod(now, orig[k].uid) && now[FindPod(now, orig[k].uid)] == orig[k]
    ensures FindPod(now, orig[k].uid) <= k && orig[k].uid != ""
  {
    hide Chosen, FindPod;
    var p := orig[k];
    ChosenSatisfies(orig, eligible, k);
    assert p !in candidates;
    FoundIn(orig, now, candidates, p);
    assert forall i :: k < i < |now| ==> now[i].uid == orig[i].uid != p.uid;
  }

  lemma FoundIn(orig: seq<Pod>, now: seq<Pod>, candidates: seq<Pod>, p: Pod)
    requires DistinctUids(orig) && Together(now, candidates, orig)
    requires p in orig && p !in candidates
    ensures HasPod(now, p.uid) && now[FindPod(now, p.uid)] == p
  {
    hide FindPod;
    assert p in multiset(orig);
    assert p in multiset(now);
    var j :| 0 <= j < |now| && now[j] == p;
    assert FindPod(now, p.uid) <= j;
    assert now[FindPod(now, p.uid)] in multiset(orig);
  }

  // ----- disruption budgets -----

  datatype Budget = Budget(namespace: string, selector: Selector, disruptionsAllowed: int)

  /** Evicting the pod would break a budget. A malformed or empty selector matches nothing, and a pod
      without labels matches no selector. */
  predicate Violates(matches: (Selector, Pod) -> bool, budgets: seq<Budget>, pod: Pod) {
    exists i :: 0 <= i < |budgets| && Broken(matches, budgets[i], pod)
  }

  predicate Broken(matches: (Selector, Pod) -> bool, b: Budget, pod: Pod) {
    b.namespace == pod.namespace && matches(b.selector, pod) && b.disruptionsAllowed <= 0
  }

  method FilterPodsWithPDBViolation(pods: seq<Pod>, matches: (Selector, Pod) -> bool, budgets: seq<Budget>)
    returns (violating: seq<Pod>, others: seq<Pod>)
    ensures violating == Chosen(pods, p => Violates(matches, budgets, p), |pods|)
    ensures others == Chosen(pods, p => !Violates(matches, budgets, p), |pods|)
    ensures forall p :: p in violating ==> Exhausts(matches, budgets, p)
    ensures forall p :: p in others ==> !Exhausts(matches, budgets, p)
    ensures multiset(violating) + multiset(others) == multiset(pods)
  {
    violating, others := [], [];
    ghost var c, d := (p: Pod) => Violates(matches, budgets, p), (p: Pod) => !Violates(matches, budgets, p);
    for k := 0 to |pods|
      invariant violating == Chosen(pods, c, k) && others == Chosen(pods, d, k)
    {
      var pod := pods[k];
      var violated, i := false, 0;
      while i < |budgets|
        invariant 0 <= i <= |budgets| && !violated
        invariant forall j :: 0 <= j < i ==> !Broken(matches, budgets[j], pod)
      {
        if budgets[i].namespace == pod.namespace && matches(budgets[i].selector, pod)
          && budgets[i].disruptionsAllowed <= 0 {
          violated := true;
          break;
        }
        i := i + 1;
      }
      assert violated ==> Broken(matches, budgets[i], pod);
      if violated {
        violating := violating + [pod];
      } else {
        others := others + [pod];
      }
    }
    ChosenSatisfies(pods, c, |pods|);
    ChosenSatisfies(pods, d, |pods|);
    ChosenSplits(pods, c, d, |pods|);
    assert pods[..|pods|] == pods;
  }

  /** Some budget of the pod's namespace selects it and allows no disruption. */
  ghost predicate Exhausts(matches: (Selector, Pod) -> bool, budgets: seq<Budget>, p: Pod) {
    exists i :: 0 <= i < |budgets| && budgets[i].namespace == p.namespace && matches(budgets[i].selector, p)
      && budgets[i].disruptionsAllowed < 1
  }

  // ----- the reprieve -----

  /** The order in which candidates are tried back: those whose eviction breaks a budget first, each
      group own-pool first and by falling priority. */
  ghost predicate TrialOrder(pool: string, violates: Pod -> bool, trial: seq<Pod>, m: nat) {
    && m <= |trial|
    && (forall i :: 0 <= i < m ==> violates(trial[i]))
    && (forall i :: m <= i < |trial| ==> !violates(trial[i]))
    && Ordered((p, q) => OwnPoolFirst(pool, p, q), trial[..m])
    && Ordered((p, q) => OwnPoolFirst(pool, p, q), trial[m..])
  }

  /** Puts the pod on the node, and takes it off again if the preemptor then does not fit. */
  method Reprieve(node: PodSlice, p: Pod, fit: multiset<Pod> -> bool) returns (fits: bool)
    requires node.Valid() && p.uid != "" && forall i :: 0 <= i < |node.Pods()| ==> node.Pods()[i].uid != p.uid
    modifies node, node.backing
    ensures node.Valid() && (node.backing == old(node.backing) || fresh(node.backing))
    ensures fits == fit(old(multiset(node.Pods())) + multiset{p})
    ensures multiset(node.Pods()) == old(multiset(node.Pods())) + if fits then multiset{p} else multiset{}
  {
    hide FindPod, FindFrom, SwapRemoved;
    ghost var before := node.Pods();
    AppendedContents(before, p);
    AddedThenRemoved(before, p);
    node.Append(p);
    fits := fit(multiset(node.backing[..node.len]));
    if !fits {
      var found := node.Remove(p);
    }
  }

  lemma CountedOnce(pods: seq<Pod>, p: Pod)
    requires DistinctUids(pods)
    ensures multiset(pods)[p] <= 1
  {
    if p in pods {
      var i :| 0 <= i < |pods| && pods[i] == p;
      assert pods == pods[..i] + [p] + pods[i + 1..];
      assert p !in pods[..i] && p !in pods[i + 1..];
    }
  }

  /** A pod that is still to be put back shares its uid with no pod on the node. */
  lemma UidApart(pods: seq<Pod>, now: seq<Pod>, p: Pod)
    requires DistinctUids(pods) && multiset(now) + multiset{p} <= multiset(pods)
    ensures p.uid != "" && forall i :: 0 <= i < |now| ==> now[i].uid != p.uid
  {
    CountedOnce(pods, p);
    assert p in multiset(pods);
    forall i | 0 <= i < |now| ensures now[i].uid != p.uid {
      assert now[i] in multiset(now);
      assert now[i] in multiset(pods);
    }
  }

  lemma NextFits(pods: seq<Pod>, base: multiset<Pod>, trial: seq<Pod>, fit: multiset<Pod> -> bool, k: nat)
    requires k < |trial| && base + Tried(trial, |trial|) == multiset(pods)
    ensures NodeAfter(base, trial, fit, k) + multiset{trial[k]} <= multiset(pods)
  {
    hide NodeAfter, Tried;
    NodeAfterWasThere(base, trial, fit, k);
    OneMoreFits(NodeAfter(base, trial, fit, k), base, Tried(trial, k), trial[k]);
    TriedStep(trial, k);
    TriedGrows(trial, k + 1, |trial|);
    assert base + Tried(trial, k + 1) <= base + Tried(trial, |trial|);
  }

  lemma ReprieveStep(base: multiset<Pod>, trial: seq<Pod>, fit: multiset<Pod> -> bool, k: nat)
    requires k < |trial|
    ensures var node, out := NodeAfter(base, trial, fit, k), Victims(base, trial, fit, k);
      if fit(node + multiset{trial[k]})
      then NodeAfter(base, trial, fit, k + 1) == node + multiset{trial[k]} && Victims(base, trial, fit, k + 1) == out
      else NodeAfter(base, trial, fit, k + 1) == node && Victims(base, trial, fit, k + 1) == out + [trial[k]]
  {
  }

  /** Tries back the candidates at positions `from` to `to`. */
  method ReprieveGroup(node: PodSlice, trial: seq<Pod>, from: nat, to: nat, fit: multiset<Pod> -> bool,
                       before: seq<Pod>,
                       ghost base: multiset<Pod>, ghost pods: seq<Pod>) returns (victims: seq<Pod>)
    requires node.Valid() && from <= to <= |trial|
    requires DistinctUids(pods) && base + Tried(trial, |trial|) == multiset(pods)
    requires multiset(node.Pods()) == NodeAfter(base, trial, fit, from) && before == Victims(base, trial, fit, from)
    modifies node, node.backing
    ensures node.Valid() && (node.backing == old(node.backing) || fresh(node.backing))
    ensures multiset(node.Pods()) == NodeAfter(base, trial, fit, to) && victims == Victims(base, trial, fit, to)
  {
    hide Tried, NodeAfter, Victims, DistinctUids;
    victims := before;
    for k := from to to
      invariant node.Valid() && (node.backing == old(node.backing) || fresh(node.backing))
      invariant multiset(node.Pods()) == NodeAfter(base, trial, fit, k) && victims == Victims(base, trial, fit, k)
    {
      NextFits(pods, base, trial, fit, k);
      ReprieveStep(base, trial, fit, k);
      UidApart(pods, node.Pods(), trial[k]);
      var fits := Reprieve(node, trial[k], fit);
      if !fits {
        victims := victims + [trial[k]];
      }
    }
  }

  /** The victims found between two positions were tried there. */
  lemma {:induction false} VictimsBetween(base: multiset<Pod>, trial: seq<Pod>, fit: multiset<Pod> -> bool, from: nat,
                                          to: nat)
    requires from <= to <= |trial|
    ensures Victims(base, trial, fit, from) <= Victims(base, trial, fit, to)
    ensures forall i ::
        |Victims(base, trial, fit, from)| <= i < |Victims(base, trial, fit, to)| ==>
          Victims(base, trial, fit, to)[i] in trial[from..to]
  {
    hide NodeAfter;
    if from < to {
      VictimsBetween(base, trial, fit, from, to - 1);
      assert trial[from..to] == trial[from..to - 1] + [trial[to - 1]];
    }
  }

  lemma {:induction false} TriedIsPrefix(trial: seq<Pod>, k: nat)
    requires k <= |trial|
    ensures Tried(trial, k) == multiset(trial[..k])
  {
    if k > 0 {
      TriedIsPrefix(trial, k - 1);
      assert trial[..k] == trial[..k - 1] + [trial[k - 1]];
    } else {
      assert trial[..0] == [];
    }
  }

  /** What eviction promises, in terms of the pods that were on the node: once the victims are gone
      the preemptor fits, and none of them can stay. */
  ghost predicate FeasibleAndIrreducible(pods: multiset<Pod>, victims: seq<Pod>, fit: multiset<Pod> -> bool) {
    && multiset(victims) <= pods
    && fit(pods - multiset(victims))
    && forall v :: v in victims ==> !fit(pods - multiset(victims) + multiset{v})
  }

  lemma {:induction false} VictimWasNotReprieved(base: multiset<Pod>, trial: seq<Pod>, fit: multiset<Pod> -> bool,
                                                 k: nat, v: Pod) returns (j: nat)
    requires k <= |trial| && v in Victims(base, trial, fit, k)
    ensures j < k && trial[j] == v && !Reprieved(base, trial, fit, j)
  {
    if !Reprieved(base, trial, fit, k - 1) && trial[k - 1] == v {
      j := k - 1;
    } else {
      j := VictimWasNotReprieved(base, trial, fit, k - 1, v);
    }
  }

  lemma GreedyFeasibleAndIrreducible(pods: multiset<Pod>, base: multiset<Pod>, trial: seq<Pod>,
                                     fit: multiset<Pod> -> bool)
    requires base + multiset(trial) == pods && fit(base) && Antitone(fit, pods)
    ensures FeasibleAndIrreducible(pods, Victims(base, trial, fit, |trial|), fit)
  {
    hide NodeAfter, Victims;
    var victims := Victims(base, trial, fit, |trial|);
    TriedIsPrefix(trial, |trial|);
    assert trial[..|trial|] == trial;
    NothingLost(base, trial, fit, |trial|);
    VictimsSuffice(base, trial, fit, |trial|);
    assert NodeAfter(base, trial, fit, |trial|) == pods - multiset(victims);
    forall v | v in victims ensures !fit(pods - multiset(victims) + multiset{v}) {
      var j := VictimWasNotReprieved(base, trial, fit, |trial|, v);
      NoVictimCanStay(base, trial, fit, j);
    }
  }

  lemma GroupsMakeTrialOrder(pool: string, sorted: seq<Pod>, violates: Pod -> bool, spares: Pod -> bool)
    requires Ordered((p, q) => OwnPoolFirst(pool, p, q), sorted) && forall p :: violates(p) != spares(p)
    ensures var first, second := Chosen(sorted, violates, |sorted|), Chosen(sorted, spares, |sorted|);
      && TrialOrder(pool, violates, first + second, |first|)
      && multiset(first + second) == multiset(sorted)
  {
    var first, second := Chosen(sorted, violates, |sorted|), Chosen(sorted, spares, |sorted|);
    ChosenOrdered(sorted, violates, |sorted|, (p, q) => OwnPoolFirst(pool, p, q));
    ChosenOrdered(sorted, spares, |sorted|, (p, q) => OwnPoolFirst(pool, p, q));
    ChosenSatisfies(sorted, violates, |sorted|);
    ChosenSatisfies(sorted, spares, |sorted|);
    ChosenSplits(sorted, violates, spares, |sorted|);
    assert sorted[..|sorted|] == sorted;
    assert (first + second)[..|first|] == first && (first + second)[|first|..] == second;
  }

  /** The victims whose eviction breaks a budget come first, and `violating` counts them. */
  ghost predicate ViolatingFirst(violates: Pod -> bool, victims: seq<Pod>, violating: nat) {
    && violating <= |victims|
    && forall i :: 0 <= i < |victims| ==> (violates(victims[i]) <==> i < violating)
  }

  lemma VictimsViolatingFirst(pool: string, violates: Pod -> bool, base: multiset<Pod>, trial: seq<Pod>,
                              fit: multiset<Pod> -> bool, m: nat)
    requires TrialOrder(pool, violates, trial, m)
    ensures ViolatingFirst(violates, Victims(base, trial, fit, |trial|), |Victims(base, trial, fit, m)|)
  {
    VictimsBetween(base, trial, fit, 0, m);
    VictimsBetween(base, trial, fit, m, |trial|);
  }

  /** Both groups are tried back, and the missed ones of the first group counted. */
  method ReprieveAll(node: PodSlice, first: seq<Pod>, second: seq<Pod>, fit: multiset<Pod> -> bool,
                     ghost pods: seq<Pod>)
    returns (victims: seq<Pod>, violating: nat)
    requires node.Valid()
    requires DistinctUids(pods) && multiset(node.Pods()) + multiset(first + second) == multiset(pods)
    modifies node, node.backing
    ensures var base, trial := old(multiset(node.Pods())), first + second;
      && victims == Victims(base, trial, fit, |trial|)
      && violating == |Victims(base, trial, fit, |first|)|
  {
    hide Tried;
    ghost var base := multiset(node.Pods());
    var trial := first + second;
    TriedIsPrefix(trial, |trial|);
    assert trial[..|trial|] == trial;
    victims := ReprieveGroup(node, trial, 0, |first|, fit, [], base, pods);
    violating := |victims|;
    victims := ReprieveGroup(node, trial, |first|, |trial|, fit, victims, base, pods);
  }

  /** What selectVictimsOnNode promises for a node it accepts. */
  ghost predicate GoodChoice(pool: string, violates: Pod -> bool, pods: seq<Pod>, candidates: seq<Pod>,
                             fit: multiset<Pod> -> bool,
                             trial: seq<Pod>, m: nat, victims: seq<Pod>, violating: nat)
  {
    && multiset(trial) == multiset(candidates) && TrialOrder(pool, violates, trial, m)
    && victims == Victims(multiset(pods) - multiset(candidates), trial, fit, |trial|)
    && ViolatingFirst(violates, victims, violating)
    && (Antitone(fit, multiset(pods)) ==> FeasibleAndIrreducible(multiset(pods), victims, fit))
  }

  lemma GreedyIsGood(pool: string, violates: Pod -> bool, pods: seq<Pod>, base: multiset<Pod>, candidates: seq<Pod>,
                     fit: multiset<Pod> -> bool, trial: seq<Pod>, m: nat)
    requires base + multiset(candidates) == multiset(pods) && fit(base)
    requires multiset(trial) == multiset(candidates) && TrialOrder(pool, violates, trial, m)
    ensures base == multiset(pods) - multiset(candidates)
    ensures GoodChoice(pool, violates, pods, candidates, fit, trial, m, Victims(base, trial, fit, |trial|),
        |Victims(base, trial, fit, m)|)
  {
    hide Victims, TrialOrder, ViolatingFirst, FeasibleAndIrreducible, Antitone;
    assert base == multiset(pods) - multiset(candidates);
    VictimsViolatingFirst(pool, violates, base, trial, fit, m);
    if Antitone(fit, multiset(pods)) {
      GreedyFeasibleAndIrreducible(multiset(pods), base, trial, fit);
    }
  }

  /** Who may be evicted for the preemptor: a pod of this scheduler that does not belong to the
      preemptor's pool, or belongs to it and has a lower priority. */
  predicate MayGo(pool: string, queues: set<string>, preemptor: Pod, p: Pod) {
    p.schedulerName == "ai-scheduler" && (InOwnPool(pool, queues, p) ==> PriorityOf(p) < PriorityOf(preemptor))
  }

  lemma CandidatesMayGo(pool: string, queues: set<string>, preemptor: Pod, p: Pod)
    ensures Candidate(pool, queues, preemptor, p) <==> MayGo(pool, queues, preemptor, p)
  {
  }

  /** The pods that must stay. */
  function Staying(pool: string, queues: set<string>, preemptor: Pod, pods: seq<Pod>): seq<Pod> {
    Chosen(pods, p => !MayGo(pool, queues, preemptor, p), |pods|)
  }

  lemma WithoutCandidates(pool: string, queues: set<string>, preemptor: Pod, pods: seq<Pod>)
    ensures var candidates := Chosen(pods, p => Candidate(pool, queues, preemptor, p), |pods|);
      multiset(pods) - multiset(candidates) == multiset(Staying(pool, queues, preemptor, pods))
  {
    hide Chosen, Candidate, MayGo;
    var c, d := p => Candidate(pool, queues, preemptor, p), p => !MayGo(pool, queues, preemptor, p);
    forall p: Pod ensures c(p) != d(p) {
      CandidatesMayGo(pool, queues, preemptor, p);
    }
    ChosenSplits(pods, c, d, |pods|);
    assert pods[..|pods|] == pods;
  }

  lemma {:induction false} VictimsWereTried(base: multiset<Pod>, trial: seq<Pod>, fit: multiset<Pod> -> bool, k: nat)
    requires k <= |trial|
    ensures forall p :: p in Victims(base, trial, fit, k) ==> p in trial
  {
    if k > 0 {
      VictimsWereTried(base, trial, fit, k - 1);
    }
  }

  /** Every victim of a good choice is a pod of the node that may go. */
  lemma VictimsMayGo(pool: string, queues: set<string>, preemptor: Pod, violates: Pod -> bool, pods: seq<Pod>,
                     candidates: seq<Pod>, fit: multiset<Pod> -> bool, trial: seq<Pod>, m: nat, victims: seq<Pod>,
                     violating: nat)
    requires GoodChoice(pool, violates, pods, candidates, fit, trial, m, victims, violating)
    requires candidates == Chosen(pods, p => Candidate(pool, queues, preemptor, p), |pods|)
    ensures forall p :: p in victims ==> p in pods && MayGo(pool, queues, preemptor, p)
  {
    hide Chosen, Victims, TrialOrder, ViolatingFirst, FeasibleAndIrreducible, Antitone, Candidate, MayGo;
    var c := p => Candidate(pool, queues, preemptor, p);
    VictimsWereTried(multiset(pods) - multiset(candidates), trial, fit, |trial|);
    ChosenSatisfies(pods, c, |pods|);
    assert pods[..|pods|] == pods;
    forall p | p in victims ensures p in pods && MayGo(pool, queues, preemptor, p) {
      assert p in multiset(trial) && p in multiset(candidates);
      assert p in candidates;
      CandidatesMayGo(pool, queues, preemptor, p);
    }
  }

  /** selectVictimsOnNode. The node is not suitable exactly when the preemptor does not fit even with
      every candidate gone; otherwise the choice is a good one. Only pods that may go are victims,
      whatever the fit test says. */
  method SelectVictimsOnNode(pool: string, queues: set<string>, preemptor: Pod, nodePods: Option<seq<Pod>>,
                             fit: multiset<Pod> -> bool, matches: (Selector, Pod) -> bool, budgets: seq<Budget>)
    returns (victims: seq<Pod>, violating: nat, fits: bool, ghost trial: seq<Pod>, ghost m: nat)
    requires nodePods.Some? ==> DistinctUids(nodePods.value)
    ensures !fits ==> victims == [] && violating == 0
    ensures nodePods.None? ==> !fits
    ensures forall p :: p in victims ==>
      nodePods.Some? && p in nodePods.value && MayGo(pool, queues, preemptor, p)
    ensures nodePods.Some? ==> (fits <==> fit(multiset(Staying(pool, queues, preemptor, nodePods.value))))
    ensures nodePods.Some? ==>
      var candidates := Chosen(nodePods.value, p => Candidate(pool, queues, preemptor, p), |nodePods.value|);
      && (fits <==> fit(multiset(nodePods.value) - multiset(candidates)))
      && (fits ==> GoodChoice(pool, p => Violates(matches, budgets, p), nodePods.value, candidates, fit, trial, m,
          victims, violating))
  {
    hide Victims, Chosen, GoodChoice, TrialOrder, Violates, Ordered, StrictWeakOrder, MayGo, Staying, Candidate;
    victims, violating, fits, trial, m := [], 0, false, [], 0;
    if nodePods.None? {
      return;
    }
    var pods := nodePods.value;
    WithoutCandidates(pool, queues, preemptor, pods);
    var node := new PodSlice(pods);
    var candidates := TakeCandidates(node, p => Candidate(pool, queues, preemptor, p));
    OwnPoolFirstIsStrictWeakOrder(pool);
    var sorted := Sort(candidates, (p, q) => OwnPoolFirst(pool, p, q));
    ghost var base := multiset(node.Pods());
    assert base == multiset(pods) - multiset(candidates);
    fits := fit(multiset(node.backing[..node.len]));
    if !fits {
      return;
    }
    var first, second := FilterPodsWithPDBViolation(sorted, matches, budgets);
    GroupsMakeTrialOrder(pool, sorted, p => Violates(matches, budgets, p), p => !Violates(matches, budgets, p));
    trial, m := first + second, |first|;
    victims, violating := ReprieveAll(node, first, second, fit, pods);
    GreedyIsGood(pool, p => Violates(matches, budgets, p), pods, base, candidates, fit, trial, m);
    VictimsMayGo(pool, queues, preemptor, p => Violates(matches, budgets, p), pods, candidates, fit, trial, m, victims,
      violating);
  }
}
