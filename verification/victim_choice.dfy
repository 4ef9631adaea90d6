/** Which pods a preemptor evicts on one node (pkg/scheduler/core/generic_scheduler.go): the greedy
    reprieve, for any fit predicate that more pods can only turn from true to false. */
module VictimChoice {
  import opened Api
  import opened Resources
  import opened NodeInfos

  /** Within `all`, a node that fits the preemptor still fits it with fewer pods. */
  ghost predicate Antitone(fit: multiset<Pod> -> bool, all: multiset<Pod>) {
    forall a, b :: a <= b <= all && fit(b) ==> fit(a)
  }

  // ----- the greedy reprieve -----

  /** The pods on the node after the first `k` candidates were tried. */
  function NodeAfter(base: multiset<Pod>, trial: seq<Pod>, fit: multiset<Pod> -> bool, k: nat): multiset<Pod>
    requires k <= |trial|
  {
    if k == 0 then base
    else
      var node := NodeAfter(base, trial, fit, k - 1);
      if fit(node + multiset{trial[k - 1]}) then node + multiset{trial[k - 1]} else node
  }

  /** Whether candidate `k` is put back. */
  predicate Reprieved(base: multiset<Pod>, trial: seq<Pod>, fit: multiset<Pod> -> bool, k: nat)
    requires k < |trial|
  {
    fit(NodeAfter(base, trial, fit, k) + multiset{trial[k]})
  }

  /** The victims among the first `k` candidates. */
  function Victims(base: multiset<Pod>, trial: seq<Pod>, fit: multiset<Pod> -> bool, k: nat): seq<Pod>
    requires k <= |trial|
  {
    if k == 0 then []
    else if Reprieved(base, trial, fit, k - 1) then Victims(base, trial, fit, k - 1)
    else Victims(base, trial, fit, k - 1) + [trial[k - 1]]
  }

  /** The candidates a choice keeps, among the first `k`. */
  function Kept(trial: seq<Pod>, choice: seq<bool>, k: nat): multiset<Pod>
    requires k <= |trial| == |choice|
  {
    if k == 0 then multiset{}
    else if choice[k - 1] then Kept(trial, choice, k - 1) + multiset{trial[k - 1]} else Kept(trial, choice, k - 1)
  }

  /** The first `k` candidates. */
  function Tried(trial: seq<Pod>, k: nat): multiset<Pod>
    requires k <= |trial|
  {
    if k == 0 then multiset{} else Tried(trial, k - 1) + multiset{trial[k - 1]}
  }

  lemma {:induction false} TriedGrows(trial: seq<Pod>, i: nat, k: nat)
    requires i <= k <= |trial|
    ensures Tried(trial, i) <= Tried(trial, k)
  {
    if i < k {
      TriedGrows(trial, i, k - 1);
    }
  }

  lemma {:induction false} KeptGrows(trial: seq<Pod>, choice: seq<bool>, i: nat, k: nat)
    requires i <= k <= |trial| == |choice|
    ensures Kept(trial, choice, i) <= Kept(trial, choice, k)
  {
    if i < k {
      KeptGrows(trial, choice, i, k - 1);
    }
  }

  lemma {:induction false} KeptWasTried(trial: seq<Pod>, choice: seq<bool>, k: nat)
    requires k <= |trial| == |choice|
    ensures Kept(trial, choice, k) <= Tried(trial, k)
  {
    if k > 0 {
      KeptWasTried(trial, choice, k - 1);
    }
  }

  lemma TriedStep(trial: seq<Pod>, k: nat)
    requires k < |trial|
    ensures Tried(trial, k + 1) == Tried(trial, k) + multiset{trial[k]}
  {
  }

  lemma {:induction false} NodeAfterGrows(base: multiset<Pod>, trial: seq<Pod>, fit: multiset<Pod> -> bool, i: nat,
                                          k: nat)
    requires i <= k <= |trial|
    ensures NodeAfter(base, trial, fit, i) <= NodeAfter(base, trial, fit, k)
  {
    if i < k {
      NodeAfterGrows(base, trial, fit, i, k - 1);
    }
  }

  lemma OneMoreFits(node: multiset<Pod>, base: multiset<Pod>, tried: multiset<Pod>, x: Pod)
    requires node <= base + tried
    ensures node + multiset{x} <= base + (tried + multiset{x}) && node <= base + (tried + multiset{x})
  {
    assert base + (tried + multiset{x}) == (base + tried) + multiset{x};
  }

  /** Only pods that were there before are on the node. */
  lemma {:induction false} NodeAfterWasThere(base: multiset<Pod>, trial: seq<Pod>, fit: multiset<Pod> -> bool, k: nat)
    requires k <= |trial|
    ensures NodeAfter(base, trial, fit, k) <= base + Tried(trial, k)
  {
    hide Tried;
    if k > 0 {
      NodeAfterWasThere(base, trial, fit, k - 1);
      OneMoreFits(NodeAfter(base, trial, fit, k - 1), base, Tried(trial, k - 1), trial[k - 1]);
      TriedStep(trial, k - 1);
    }
  }

  /** Feasible: if the preemptor fits without any candidate, it fits once the victims are gone. */
  lemma {:induction false} VictimsSuffice(base: multiset<Pod>, trial: seq<Pod>, fit: multiset<Pod> -> bool, k: nat)
    requires k <= |trial| && fit(base)
    ensures fit(NodeAfter(base, trial, fit, k))
  {
    if k > 0 {
      VictimsSuffice(base, trial, fit, k - 1);
    }
  }

  /** Conservation: victims and kept pods together are the pods there were. */
  lemma {:induction false} NothingLost(base: multiset<Pod>, trial: seq<Pod>, fit: multiset<Pod> -> bool, k: nat)
    requires k <= |trial|
    ensures NodeAfter(base, trial, fit, k) + multiset(Victims(base, trial, fit, k)) == base + Tried(trial, k)
  {
    if k > 0 {
      NothingLost(base, trial, fit, k - 1);
      var node, out := NodeAfter(base, trial, fit, k - 1), Victims(base, trial, fit, k - 1);
      OneMoreShared(node, out, base, Tried(trial, k - 1), trial[k - 1]);
      assert Reprieved(base, trial, fit, k - 1) == (Victims(base, trial, fit, k) == Victims(base, trial, fit, k - 1));
    }
  }

  lemma OneMoreShared(node: multiset<Pod>, out: seq<Pod>, base: multiset<Pod>, tried: multiset<Pod>, x: Pod)
    requires node + multiset(out) == base + tried
    ensures (node + multiset{x}) + multiset(out) == base + (tried + multiset{x})
    ensures node + multiset(out + [x]) == base + (tried + multiset{x})
  {
    assert multiset(out + [x]) == multiset(out) + multiset{x};
    assert (node + multiset{x}) + multiset(out) == (node + multiset(out)) + multiset{x};
    assert base + (tried + multiset{x}) == (base + tried) + multiset{x};
    assert node + (multiset(out) + multiset{x}) == (node + multiset(out)) + multiset{x};
  }

  /** Irreducible: no victim can be put back. */
  lemma NoVictimCanStay(base: multiset<Pod>, trial: seq<Pod>, fit: multiset<Pod> -> bool, k: nat)
    requires k < |trial| && !Reprieved(base, trial, fit, k)
    requires Antitone(fit, base + Tried(trial, |trial|))
    ensures !fit(NodeAfter(base, trial, fit, |trial|) + multiset{trial[k]})
  {
    hide NodeAfter, Tried;
    NodeAfterGrows(base, trial, fit, k, |trial|);
    SkippedLeavesRoom(base, trial, fit, k, |trial|);
    var early := NodeAfter(base, trial, fit, k) + multiset{trial[k]};
    var late := NodeAfter(base, trial, fit, |trial|) + multiset{trial[k]};
    assert early <= late <= base + Tried(trial, |trial|);
  }

  lemma {:induction false} SkippedLeavesRoom(base: multiset<Pod>, trial: seq<Pod>, fit: multiset<Pod> -> bool, k: nat,
                                             m: nat)
    requires k < m <= |trial| && !Reprieved(base, trial, fit, k)
    ensures NodeAfter(base, trial, fit, m) + multiset{trial[k]} <= base + Tried(trial, m)
  {
    hide Tried, NodeAfter;
    var node, tried := NodeAfter(base, trial, fit, m - 1), Tried(trial, m - 1);
    TriedStep(trial, m - 1);
    NodeAfterStep(base, trial, fit, m - 1);
    if m == k + 1 {
      NodeAfterWasThere(base, trial, fit, k);
      OneMoreFits(node, base, tried, trial[k]);
    } else {
      SkippedLeavesRoom(base, trial, fit, k, m - 1);
      OneMoreEach(node, tried, base, trial[k], trial[m - 1]);
    }
  }

  lemma NodeAfterStep(base: multiset<Pod>, trial: seq<Pod>, fit: multiset<Pod> -> bool, k: nat)
    requires k < |trial|
    ensures NodeAfter(base, trial, fit, k + 1)
         == NodeAfter(base, trial, fit, k) + if Reprieved(base, trial, fit, k) then multiset{trial[k]} else multiset{}
  {
  }

  lemma OneMoreEach(node: multiset<Pod>, tried: multiset<Pod>, base: multiset<Pod>, x: Pod, y: Pod)
    requires node + multiset{x} <= base + tried
    ensures (node + multiset{y}) + multiset{x} <= base + (tried + multiset{y})
    ensures node + multiset{x} <= base + (tried + multiset{y})
  {
    assert (node + multiset{y}) + multiset{x} == (node + multiset{x}) + multiset{y};
    assert base + (tried + multiset{y}) == (base + tried) + multiset{y};
  }

  lemma {:induction false} PrefixAgrees(base: multiset<Pod>, trial: seq<Pod>, fit: multiset<Pod> -> bool,
                                        choice: seq<bool>, k: nat)
    requires k <= |trial| == |choice|
    requires forall j :: 0 <= j < k ==> choice[j] == Reprieved(base, trial, fit, j)
    ensures NodeAfter(base, trial, fit, k) == base + Kept(trial, choice, k)
  {
    if k > 0 {
      PrefixAgrees(base, trial, fit, choice, k - 1);
    }
  }

  /** Order-optimal: where another feasible choice first differs from the greedy one, the greedy one
      keeps the candidate and the other does not. So the greedy choice is the lexicographically
      greatest feasible one in trial order. */
  lemma GreedyIsGreatest(base: multiset<Pod>, trial: seq<Pod>, fit: multiset<Pod> -> bool, choice: seq<bool>, i: nat)
    requires |choice| == |trial| && i < |trial|
    requires Antitone(fit, base + Tried(trial, |trial|)) && fit(base + Kept(trial, choice, |trial|))
    requires forall j :: 0 <= j < i ==> choice[j] == Reprieved(base, trial, fit, j)
    requires choice[i] != Reprieved(base, trial, fit, i)
    ensures Reprieved(base, trial, fit, i) && !choice[i]
  {
    hide NodeAfter, Tried;
    PrefixAgrees(base, trial, fit, choice, i);
    KeptGrows(trial, choice, i + 1, |trial|);
    KeptWasTried(trial, choice, |trial|);
    var early, late := base + Kept(trial, choice, i + 1), base + Kept(trial, choice, |trial|);
    assert early <= late <= base + Tried(trial, |trial|);
    var next := NodeAfter(base, trial, fit, i) + multiset{trial[i]};
    assert next == base + (Kept(trial, choice, i) + multiset{trial[i]});
  }

  // ----- the resource predicate is such a predicate -----

  ghost function WeightOf(pods: multiset<Pod>, w: Pod -> int): int
    decreases |pods|
  {
    if pods == multiset{} then 0
    else
      var p :| p in pods;
      w(p) + WeightOf(pods - multiset{p}, w)
  }

  lemma {:induction false} WeightTakeOut(pods: multiset<Pod>, w: Pod -> int, p: Pod)
    requires p in pods
    ensures WeightOf(pods, w) == w(p) + WeightOf(pods - multiset{p}, w)
    decreases |pods|
  {
    var q :| q in pods && WeightOf(pods, w) == w(q) + WeightOf(pods - multiset{q}, w);
    if q != p {
      WeightTakeOut(pods - multiset{q}, w, p);
      WeightTakeOut(pods - multiset{p}, w, q);
      assert pods - multiset{q} - multiset{p} == pods - multiset{p} - multiset{q};
    }
  }

  lemma {:induction false} WeightMonotone(a: multiset<Pod>, b: multiset<Pod>, w: Pod -> int)
    requires a <= b && forall p :: p in b ==> w(p) >= 0
    ensures WeightOf(a, w) <= WeightOf(b, w)
    decreases |b|
  {
    if p :| p in b && a[p] < b[p] {
      WeightTakeOut(b, w, p);
      WeightMonotone(a, b - multiset{p}, w);
    } else {
      assert a == b;
    }
  }

  lemma {:induction false} WeightOfPods(pods: seq<Pod>, k: nat, w: Pod -> int)
    requires k <= |pods|
    ensures WeightOf(multiset(pods[..k]), w) == PodSum(pods, k, w)
  {
    hide WeightOf;
    if k == 0 {
      WeightOfNone(w);
      assert pods[..0] == [];
    } else {
      WeightOfPods(pods, k - 1, w);
      assert pods[..k] == pods[..k - 1] + [pods[k - 1]];
      WeightOfMore(pods[..k - 1], pods[k - 1], w);
    }
  }

  lemma WeightOfNone(w: Pod -> int)
    ensures WeightOf(multiset([]), w) == 0
  {
  }

  lemma WeightOfMore(pods: seq<Pod>, p: Pod, w: Pod -> int)
    ensures WeightOf(multiset(pods + [p]), w) == WeightOf(multiset(pods), w) + w(p)
  {
    hide WeightOf;
    assert multiset(pods + [p]) == multiset(pods) + multiset{p};
    WeightTakeOut(multiset(pods) + multiset{p}, w, p);
    assert multiset(pods) + multiset{p} - multiset{p} == multiset(pods);
  }

  /** PodFitsResources as a predicate of the pods on the node. */
  ghost predicate ResourcesFit(pod: Pod, allocatable: Resource, ignored: set<string>, pods: multiset<Pod>) {
    && |pods| + 1 <= allocatable.allowedPodNumber
    && (RequestsNothing(FitRequest(pod)) ||
        forall n :: Checked(FitRequest(pod), ignored, n) ==>
          Amount(FitRequest(pod), n) + WeightOf(pods, RequestOf(n)) <= Amount(allocatable, n))
  }

  /** It is what PodFitsResources computes from the node's aggregates. */
  lemma FitsResourcesIsResourcesFit(pod: Pod, ni: NodeInfo, ignored: set<string>)
    requires Consistent(ni) && ni.node.Some?
    ensures FitsResources(pod, ni, ignored) <==> ResourcesFit(pod, ni.allocatable, ignored, multiset(ni.pods))
  {
    hide Amount, FitRequest;
    forall n: ResourceName | Checked(FitRequest(pod), ignored, n)
      ensures Amount(ni.requested, n) == WeightOf(multiset(ni.pods), RequestOf(n))
    {
      WeightOfPods(ni.pods, |ni.pods|, RequestOf(n));
      assert ni.pods[..|ni.pods|] == ni.pods;
    }
  }

  /** With non-negative requests it is antitone: fewer pods never make the preemptor not fit. */
  lemma ResourcesFitAntitone(pod: Pod, allocatable: Resource, ignored: set<string>, a: multiset<Pod>, b: multiset<Pod>)
    requires a <= b && ResourcesFit(pod, allocatable, ignored, b) && forall p :: p in b ==> NonNegative(p)
    ensures ResourcesFit(pod, allocatable, ignored, a)
  {
    hide Amount, FitRequest, NonNegative;
    assert |b| == |a| + |b - a| by { assert b == a + (b - a); }
    forall n: ResourceName | Checked(FitRequest(pod), ignored, n)
      ensures WeightOf(a, RequestOf(n)) <= WeightOf(b, RequestOf(n))
    {
      forall p | p in b ensures RequestOf(n)(p) >= 0 { PodRequestNonNegative(p, n); }
      WeightMonotone(a, b, RequestOf(n));
    }
  }
}
