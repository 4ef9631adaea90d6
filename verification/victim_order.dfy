/** Whether the first victim of a node is its highest one, as pickOneNodeForPreemption takes for granted
    (pkg/scheduler/core/generic_scheduler.go). */
module VictimOrder {
  import opened Api
  import opened PodOrders
  import opened VictimChoice
  import opened VictimSelection
  import opened Integers
  import NodeChoice

  /** No later candidate of this stretch belongs before an earlier one. */
  ghost predicate OrderedBetween(less: (Pod, Pod) -> bool, s: seq<Pod>, from: nat, to: nat) {
    forall i, j :: from <= i < j < to && j < |s| ==> !less(s[j], s[i])
  }

  /** Victims come in the order in which they were tried. */
  lemma {:induction false} VictimsInOrder(less: (Pod, Pod) -> bool, base: multiset<Pod>, trial: seq<Pod>,
                                          fit: multiset<Pod> -> bool, from: nat, to: nat)
    requires from <= to <= |trial| && OrderedBetween(less, trial, from, to)
    ensures OrderedBetween(less, Victims(base, trial, fit, to), |Victims(base, trial, fit, from)|,
                           |Victims(base, trial, fit, to)|)
  {
    hide NodeAfter, Reprieved;
    if from < to {
      VictimsInOrder(less, base, trial, fit, from, to - 1);
      VictimsBetween(base, trial, fit, from, to - 1);
      var last, tried := trial[to - 1], trial[from..to - 1];
      forall i | 0 <= i < |tried| ensures !less(last, tried[i]) {
        assert tried[i] == trial[from + i];
      }
    }
  }

  /** Each group of victims is own-pool first and by falling priority. */
  lemma GroupsInOrder(pool: string, violates: Pod -> bool, base: multiset<Pod>, trial: seq<Pod>,
                      fit: multiset<Pod> -> bool, m: nat)
    requires TrialOrder(pool, violates, trial, m)
    ensures var victims, n := Victims(base, trial, fit, |trial|), |Victims(base, trial, fit, m)|;
      && ViolatingFirst(violates, victims, n)
      && OrderedBetween((p, q) => OwnPoolFirst(pool, p, q), victims, 0, n)
      && OrderedBetween((p, q) => OwnPoolFirst(pool, p, q), victims, n, |victims|)
  {
    hide Victims, OwnPoolFirst;
    var less := (p, q) => OwnPoolFirst(pool, p, q);
    VictimsViolatingFirst(pool, violates, base, trial, fit, m);
    StretchOf(less, trial, m);
    VictimsInOrder(less, base, trial, fit, 0, m);
    VictimsInOrder(less, base, trial, fit, m, |trial|);
    VictimsBetween(base, trial, fit, m, |trial|);
    NoVictimsYet(base, trial, fit);
  }

  lemma NoVictimsYet(base: multiset<Pod>, trial: seq<Pod>, fit: multiset<Pod> -> bool)
    ensures Victims(base, trial, fit, 0) == []
  {
  }

  lemma StretchOf(less: (Pod, Pod) -> bool, trial: seq<Pod>, m: nat)
    requires m <= |trial| && Ordered(less, trial[..m]) && Ordered(less, trial[m..])
    ensures OrderedBetween(less, trial, 0, m) && OrderedBetween(less, trial, m, |trial|)
  {
    forall i, j | 0 <= i < j < m ensures !less(trial[j], trial[i]) {
      assert trial[..m][i] == trial[i] && trial[..m][j] == trial[j];
    }
    forall i, j | m <= i < j < |trial| ensures !less(trial[j], trial[i]) {
      assert trial[m..][i - m] == trial[i] && trial[m..][j - m] == trial[j];
    }
  }

  predicate InInt32(pods: seq<Pod>) {
    forall i :: 0 <= i < |pods| ==> MinInt32 <= PriorityOf(pods[i]) <= MaxInt32
  }

  function Effective(pool: string, queues: set<string>, pod: Pod): int {
    NodeChoice.EffectivePriority(pool, queues, pod)
  }

  /** The first victim has the greatest effective priority. */
  ghost predicate FirstIsGreatest(pool: string, queues: set<string>, victims: seq<Pod>) {
    forall i :: 0 <= i < |victims| ==>
      Effective(pool, queues, victims[i]) <= Effective(pool, queues, victims[0])
  }

  /** In a group, no pod whose pool has a queue is above the group's first. */
  lemma FirstOfGroup(pool: string, queues: set<string>, victims: seq<Pod>, from: nat, to: nat, i: nat)
    requires OrderedBetween((p, q) => OwnPoolFirst(pool, p, q), victims, from, to) && from <= i < to <= |victims|
    requires InInt32(victims) && victims[i].poolAnnotation in queues
    ensures Effective(pool, queues, victims[i]) <= Effective(pool, queues, victims[from])
  {
    if from < i {
      assert !OwnPoolFirst(pool, victims[i], victims[from]);
    }
  }

  /** The first victim is the highest exactly when the first one that breaks no budget is not above it,
      and no victim whose pool has no queue is. The second part never fails outside the default
      pool: elsewhere such a pod is a borrower. */
  lemma FirstIsGreatestIff(pool: string, queues: set<string>, violates: Pod -> bool, pods: seq<Pod>,
                           candidates: seq<Pod>, trial: seq<Pod>, fit: multiset<Pod> -> bool, m: nat,
                           victims: seq<Pod>, n: nat)
    requires GoodChoice(pool, violates, pods, candidates, fit, trial, m, victims, n) && victims != []
    requires InInt32(victims)
    ensures FirstIsGreatest(pool, queues, victims) <==>
      && (0 < n < |victims| ==>
            Effective(pool, queues, victims[n]) <= Effective(pool, queues, victims[0]))
      && (forall i :: 0 <= i < |victims| && victims[i].poolAnnotation !in queues ==>
            Effective(pool, queues, victims[i]) <= Effective(pool, queues, victims[0]))
    ensures pool != DefaultPoolName ==>
      forall i :: 0 <= i < |victims| && victims[i].poolAnnotation !in queues ==>
        Effective(pool, queues, victims[i]) == MinInt32
  {
    hide NodeChoice.EffectivePriority, Effective, Victims, OwnPoolFirst, Ordered, FeasibleAndIrreducible, Antitone;
    var base := multiset(pods) - multiset(candidates);
    GroupsInOrder(pool, violates, base, trial, fit, m);
    SameCount(violates, victims, n, |Victims(base, trial, fit, m)|);
    forall i | 0 <= i < |victims| && victims[i].poolAnnotation in queues
      ensures Effective(pool, queues, victims[i])
           <= Effective(pool, queues, victims[if i < n then 0 else n])
    {
      FirstOfGroup(pool, queues, victims, if i < n then 0 else n, if i < n then n else |victims|, i);
    }
    forall p: Pod | pool != DefaultPoolName && p.poolAnnotation !in queues
      ensures Effective(pool, queues, p) == MinInt32
    {
      Orphan(pool, queues, p);
    }
  }

  lemma Orphan(pool: string, queues: set<string>, p: Pod)
    requires pool != DefaultPoolName && p.poolAnnotation !in queues
    ensures Effective(pool, queues, p) == MinInt32
  {
  }

  lemma SameCount(violates: Pod -> bool, victims: seq<Pod>, n: nat, k: nat)
    requires ViolatingFirst(violates, victims, n) && ViolatingFirst(violates, victims, k)
    ensures n == k
  {
    assert n < |victims| ==> (violates(victims[n]) <==> n < k);
    assert k < |victims| ==> (violates(victims[k]) <==> k < n);
  }

  /** On a node that has to be emptied, a low victim that breaks a budget comes before a higher one
      that does not: the list is not in falling order, and its first is not the highest. */
  lemma LowVictimFirst(v: Pod, w: Pod)
    requires v.poolAnnotation == DefaultPoolName == w.poolAnnotation && v.priority == Some(1) && w.priority == Some(5)
    ensures var fit, violates := (pods: multiset<Pod>) => pods == multiset{}, (p: Pod) => p == v;
      && GoodChoice(DefaultPoolName, violates, [v, w], [v, w], fit, [v, w], 1, [v, w], 1)
      && !FirstIsGreatest(DefaultPoolName, {DefaultPoolName}, [v, w])
  {
    hide Victims, FirstIsGreatest, GoodChoice, TrialOrder;
    var fit, violates, trial := (pods: multiset<Pod>) => pods == multiset{}, (p: Pod) => p == v, [v, w];
    NoneMayStay(v, w);
    LowThenHigh(v, w);
    GreedyIsGood(DefaultPoolName, violates, trial, multiset{}, trial, fit, trial, 1);
  }

  lemma NoneMayStay(v: Pod, w: Pod)
    ensures var fit := (pods: multiset<Pod>) => pods == multiset{};
      Victims(multiset{}, [v, w], fit, 1) == [v] && Victims(multiset{}, [v, w], fit, 2) == [v, w]
  {
    var fit, trial := (pods: multiset<Pod>) => pods == multiset{}, [v, w];
    assert v in multiset{} + multiset{v} && w in multiset{} + multiset{w};
    assert NodeAfter(multiset{}, trial, fit, 1) == multiset{};
    assert Victims(multiset{}, trial, fit, 1) == [v];
  }

  lemma LowThenHigh(v: Pod, w: Pod)
    requires v.poolAnnotation == DefaultPoolName == w.poolAnnotation && v.priority == Some(1) && w.priority == Some(5)
    ensures TrialOrder(DefaultPoolName, (p: Pod) => p == v, [v, w], 1)
    ensures !FirstIsGreatest(DefaultPoolName, {DefaultPoolName}, [v, w])
  {
    assert Effective(DefaultPoolName, {DefaultPoolName}, [v, w][1]) == 5;
    assert [v, w][..1] == [v] && [v, w][1..] == [w];
  }
}
