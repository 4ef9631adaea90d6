/** pickOneNodeForPreemption (pkg/scheduler/core/generic_scheduler.go): a staged filter over two
    reused buffers. */
module NodeChoice {
  import opened Api
  import opened PodOrders
  import opened Integers
  import NodeInfos
  import VictimChoice

  /** Arithmetic on this type is checked: a sum that would wrap around does not verify. */
  newtype Int64 = x: int | -0x8000_0000_0000_0000 <= x <= 0x7fff_ffff_ffff_ffff

  datatype Victims = Victims(pods: seq<Pod>, numPDBViolations: nat)

  type Choices = map<string, Victims>

  /** Priorities are 32-bit, no node has more than MaxInt32 victims, and only victims are counted as
      violations. */
  ghost predicate InRange(vs: Choices) {
    forall n :: n in vs ==>
      && vs[n].numPDBViolations <= |vs[n].pods| <= MaxInt32
      && forall i :: 0 <= i < |vs[n].pods| ==> MinInt32 <= PriorityOf(vs[n].pods[i]) <= MaxInt32
  }

  // ----- the criteria -----

  /** A borrowing pod counts as lowest. */
  function EffectivePriority(pool: string, queues: set<string>, pod: Pod): int {
    if QueueNameOf(queues, pod) != pool then MinInt32 else PriorityOf(pod)
  }

  /** The sum of the first `k` effective priorities, each shifted to be non-negative. */
  function ShiftedSum(pool: string, queues: set<string>, pods: seq<Pod>, k: nat): int
    requires k <= |pods|
  {
    if k == 0 then 0
    else ShiftedSum(pool, queues, pods, k - 1) + EffectivePriority(pool, queues, pods[k - 1]) + MaxInt32 + 1
  }

  function Violations(vs: Choices, n: string): int { if n in vs then vs[n].numPDBViolations else 0 }

  function FirstPriority(pool: string, queues: set<string>, vs: Choices, n: string): int {
    if n in vs && |vs[n].pods| > 0 then EffectivePriority(pool, queues, vs[n].pods[0]) else 0
  }

  function PrioritySum(pool: string, queues: set<string>, vs: Choices, n: string): int {
    if n in vs then ShiftedSum(pool, queues, vs[n].pods, |vs[n].pods|) else 0
  }

  function NumVictims(vs: Choices, n: string): int { if n in vs then |vs[n].pods| else 0 }

  /** Lexicographic comparison by violations, priority of the first victim, sum of priorities,
      number of victims. */
  predicate NoWorse(pool: string, queues: set<string>, vs: Choices, a: string, b: string) {
    var (a1, b1) := (Violations(vs, a), Violations(vs, b));
    var (a2, b2) := (FirstPriority(pool, queues, vs, a), FirstPriority(pool, queues, vs, b));
    var (a3, b3) := (PrioritySum(pool, queues, vs, a), PrioritySum(pool, queues, vs, b));
    var (a4, b4) := (NumVictims(vs, a), NumVictims(vs, b));
    a1 < b1 || (a1 == b1 && (a2 < b2 || (a2 == b2 && (a3 < b3 || (a3 == b3 && a4 <= b4)))))
  }

  lemma {:induction false} ShiftedSumBounds(pool: string, queues: set<string>, pods: seq<Pod>, k: nat)
    requires k <= |pods| && forall i :: 0 <= i < |pods| ==> MinInt32 <= PriorityOf(pods[i]) <= MaxInt32
    ensures 0 <= ShiftedSum(pool, queues, pods, k) <= k * 0xffff_ffff
  {
    if k > 0 {
      ShiftedSumBounds(pool, queues, pods, k - 1);
    }
  }

  // ----- what the criteria mean -----

  /** What a victim is worth to the pool: nothing if it is a borrower, and otherwise its priority, counted
      from the lowest. */
  function Worth(pool: string, queues: set<string>): Pod -> int {
    (p: Pod) => if InOwnPool(pool, queues, p) then PriorityOf(p) - MinInt32 else 0
  }

  ghost function TotalWorth(pool: string, queues: set<string>, pods: seq<Pod>): int {
    VictimChoice.WeightOf(multiset(pods), Worth(pool, queues))
  }

  lemma {:induction false} ShiftedSumIsWorth(pool: string, queues: set<string>, pods: seq<Pod>, k: nat)
    requires k <= |pods|
    ensures ShiftedSum(pool, queues, pods, k) == NodeInfos.PodSum(pods, k, Worth(pool, queues))
  {
    if k > 0 {
      ShiftedSumIsWorth(pool, queues, pods, k - 1);
    }
  }

  lemma PrioritySumIsWorth(pool: string, queues: set<string>, vs: Choices, n: string)
    requires n in vs
    ensures PrioritySum(pool, queues, vs, n) == TotalWorth(pool, queues, vs[n].pods)
  {
    hide ShiftedSum, VictimChoice.WeightOf;
    var pods := vs[n].pods;
    ShiftedSumIsWorth(pool, queues, pods, |pods|);
    VictimChoice.WeightOfPods(pods, |pods|, Worth(pool, queues));
    assert pods[..|pods|] == pods;
  }

  /** `p` is a borrower, or both are of the pool and `p` has no higher priority; the lowest priority there
      is counts like a borrower's. */
  predicate NoHigher(pool: string, queues: set<string>, p: Pod, q: Pod) {
    || !InOwnPool(pool, queues, p) || PriorityOf(p) == MinInt32
    || (InOwnPool(pool, queues, q) && PriorityOf(p) <= PriorityOf(q))
  }

  predicate AllBorrow(pool: string, queues: set<string>, pods: seq<Pod>) {
    forall i :: 0 <= i < |pods| ==> !InOwnPool(pool, queues, pods[i])
  }

  /** Nothing speaks for `b` rather than `a`: it has no fewer violations; with as many, no lower first
      victim; with one no higher either, its victims are worth no less, and no fewer when they are worth
      the same. So they are not some of those of `a`, and no fewer when all of both are borrowers. */
  ghost predicate Preferable(pool: string, queues: set<string>, a: Victims, b: Victims)
    requires a.pods != [] && b.pods != []
  {
    && a.numPDBViolations <= b.numPDBViolations
    && (a.numPDBViolations == b.numPDBViolations ==>
          && NoHigher(pool, queues, a.pods[0], b.pods[0])
          && (NoHigher(pool, queues, b.pods[0], a.pods[0]) ==>
                && TotalWorth(pool, queues, a.pods) <= TotalWorth(pool, queues, b.pods)
                && (TotalWorth(pool, queues, a.pods) == TotalWorth(pool, queues, b.pods) ==> |a.pods| <= |b.pods|)
                && !(multiset(b.pods) < multiset(a.pods)))
          && (AllBorrow(pool, queues, a.pods) && AllBorrow(pool, queues, b.pods) ==> |a.pods| <= |b.pods|))
  }

  lemma NoWorseIsPreferable(pool: string, queues: set<string>, vs: Choices, a: string, b: string)
    requires InRange(vs) && a in vs && b in vs && vs[a].pods != [] && vs[b].pods != []
    requires NoWorse(pool, queues, vs, a, b)
    ensures Preferable(pool, queues, vs[a], vs[b])
  {
    hide ShiftedSum, PrioritySum, TotalWorth, Worth;
    PrioritySumIsWorth(pool, queues, vs, a);
    PrioritySumIsWorth(pool, queues, vs, b);
    FirstRanks(pool, queues, vs[a].pods[0], vs[b].pods[0]);
    FirstRanks(pool, queues, vs[b].pods[0], vs[a].pods[0]);
    if multiset(vs[b].pods) < multiset(vs[a].pods) {
      FewerAreWorthLess(pool, queues, vs[b].pods, vs[a].pods);
    }
    BorrowersAreWorthless(pool, queues, vs[a].pods);
    BorrowersAreWorthless(pool, queues, vs[b].pods);
  }

  lemma FirstRanks(pool: string, queues: set<string>, p: Pod, q: Pod)
    requires MinInt32 <= PriorityOf(p) && MinInt32 <= PriorityOf(q)
    ensures EffectivePriority(pool, queues, p) <= EffectivePriority(pool, queues, q) <==> NoHigher(pool, queues, p, q)
  {
  }

  lemma FewerAreWorthLess(pool: string, queues: set<string>, a: seq<Pod>, b: seq<Pod>)
    requires multiset(a) < multiset(b) && forall i :: 0 <= i < |b| ==> MinInt32 <= PriorityOf(b[i])
    ensures TotalWorth(pool, queues, a) <= TotalWorth(pool, queues, b) && |a| < |b|
  {
    hide VictimChoice.WeightOf;
    forall p | p in multiset(b) ensures Worth(pool, queues)(p) >= 0 {
      assert p in b;
    }
    VictimChoice.WeightMonotone(multiset(a), multiset(b), Worth(pool, queues));
    assert |multiset(b)| == |multiset(a)| + |multiset(b) - multiset(a)|;
    assert multiset(b) == multiset(a) + (multiset(b) - multiset(a));
  }

  lemma BorrowersAreWorthless(pool: string, queues: set<string>, pods: seq<Pod>)
    ensures AllBorrow(pool, queues, pods) ==> TotalWorth(pool, queues, pods) == 0
    ensures AllBorrow(pool, queues, pods) && pods != [] ==> !InOwnPool(pool, queues, pods[0])
  {
    hide VictimChoice.WeightOf;
    if AllBorrow(pool, queues, pods) {
      NothingWorth(pool, queues, pods, |pods|);
      VictimChoice.WeightOfPods(pods, |pods|, Worth(pool, queues));
      assert pods[..|pods|] == pods;
    }
  }

  lemma {:induction false} NothingWorth(pool: string, queues: set<string>, pods: seq<Pod>, k: nat)
    requires k <= |pods| && AllBorrow(pool, queues, pods)
    ensures NodeInfos.PodSum(pods, k, Worth(pool, queues)) == 0
  {
    if k > 0 {
      NothingWorth(pool, queues, pods, k - 1);
    }
  }

  /** Raising the priority of a victim never makes its node win. */
  lemma RaisingNeverWins(pool: string, queues: set<string>, vs: Choices, a: string, i: nat, raised: Pod, b: string)
    requires InRange(vs) && a in vs && b in vs && a != b && i < |vs[a].pods|
    requires raised == vs[a].pods[i].(priority := raised.priority) && PriorityOf(vs[a].pods[i]) <= PriorityOf(raised)
    requires NoWorse(pool, queues, vs[a := vs[a].(pods := vs[a].pods[i := raised])], a, b)
    ensures NoWorse(pool, queues, vs, a, b)
  {
    hide ShiftedSum, TotalWorth;
    var after := vs[a := vs[a].(pods := vs[a].pods[i := raised])];
    RaisedSum(pool, queues, vs[a].pods, i, raised, |vs[a].pods|);
  }

  lemma {:induction false} RaisedSum(pool: string, queues: set<string>, pods: seq<Pod>, i: nat, raised: Pod, k: nat)
    requires i < |pods| && k <= |pods|
    requires raised == pods[i].(priority := raised.priority) && PriorityOf(pods[i]) <= PriorityOf(raised)
    ensures ShiftedSum(pool, queues, pods, k) <= ShiftedSum(pool, queues, pods[i := raised], k)
  {
    if k > 0 {
      RaisedSum(pool, queues, pods, i, raised, k - 1);
    }
  }

  // ----- one stage -----

  /** After the nodes `seen`, the stage holds exactly those with the least key, `least`. */
  ghost predicate Staged(seen: seq<string>, key: string -> int, kept: seq<string>, least: int) {
    && |kept| <= |seen| && (seen != [] ==> kept != [])
    && (forall y :: y in kept ==> y in seen && key(y) == least)
    && (forall x :: x in seen ==> least <= key(x) && (key(x) == least ==> x in kept))
  }

  lemma StageStep(seen: seq<string>, key: string -> int, kept: seq<string>, least: int, x: string)
    requires Staged(seen, key, kept, least) && (seen == [] ==> key(x) <= least)
    ensures key(x) < least ==> Staged(seen + [x], key, [x], key(x))
    ensures key(x) == least ==> Staged(seen + [x], key, kept + [x], least)
    ensures key(x) > least ==> Staged(seen + [x], key, kept, least)
  {
  }

  lemma StageLeast(seen: seq<string>, key: string -> int, kept: seq<string>, least: int)
    requires Staged(seen, key, kept, least)
    ensures forall y, x :: y in kept && x in seen ==> y in seen && key(y) <= key(x)
  {
  }

  lemma StageStart(key: string -> int, least: int)
    ensures Staged([], key, [], least)
  {
  }

  /** No node seen has fewer victims than one that is kept. */
  ghost predicate NoneFewer(vs: Choices, seen: seq<string>, kept: seq<string>) {
    forall y, x :: y in kept && x in seen ==> y in vs && x in vs && |vs[y].pods| <= |vs[x].pods|
  }

  lemma NoneFewerLeft(vs: Choices, seen: seq<string>, kept: seq<string>, least: int)
    requires Staged(seen, x => NumVictims(vs, x), kept, least) && forall x :: x in seen ==> x in vs
    ensures NoneFewer(vs, seen, kept)
  {
    hide Staged;
    StageLeast(seen, x => NumVictims(vs, x), kept, least);
  }

  /** No node seen has a lower first victim than one that is kept. */
  ghost predicate NoneLower(pool: string, queues: set<string>, vs: Choices, seen: seq<string>, kept: seq<string>) {
    forall y, x :: y in kept && x in seen ==>
      && y in vs && x in vs && vs[y].pods != [] && vs[x].pods != []
      && NoHigher(pool, queues, vs[y].pods[0], vs[x].pods[0])
  }

  lemma NoneLowerLeft(pool: string, queues: set<string>, vs: Choices, seen: seq<string>, kept: seq<string>, least: int)
    requires Staged(seen, x => FirstPriority(pool, queues, vs, x), kept, least) && InRange(vs)
    requires forall x :: x in seen ==> x in vs && vs[x].pods != []
    ensures NoneLower(pool, queues, vs, seen, kept)
  {
    hide Staged, EffectivePriority, NoHigher;
    StageLeast(seen, x => FirstPriority(pool, queues, vs, x), kept, least);
    forall y, x | y in kept && x in seen
      ensures y in vs && x in vs && vs[y].pods != [] && vs[x].pods != []
      ensures NoHigher(pool, queues, vs[y].pods[0], vs[x].pods[0])
    {
      FirstRanks(pool, queues, vs[y].pods[0], vs[x].pods[0]);
    }
  }

  method HighestPriorityStage(pool: string, queues: set<string>, vs: Choices, from: array<string>, n: nat,
                              into: array<string>)
    returns (len: nat, ghost least: int)
    requires InRange(vs) && n <= from.Length && n <= into.Length && from != into
    requires forall i :: 0 <= i < n ==> from[i] in vs && |vs[from[i]].pods| > 0
    modifies into
    ensures len <= n && Staged(from[..n], x => FirstPriority(pool, queues, vs, x), into[..len], least)
    ensures NoneLower(pool, queues, vs, from[..n], into[..len])
  {
    hide Staged;
    ghost var key := x => FirstPriority(pool, queues, vs, x);
    len := 0;
    var min := MaxInt32;
    StageStart(key, min);
    ghost var src := from[..n];
    assert src[..0] == [] && into[..0] == [];
    for i := 0 to n
      invariant len <= i && from[..n] == src
      invariant i == 0 ==> min == MaxInt32
      invariant Staged(src[..i], key, into[..len], min)
    {
      var node := from[i];
      var victims := vs[node];
      var highest := PriorityOf(victims.pods[0]);
      if QueueNameOf(queues, victims.pods[0]) != pool {
        highest := MinInt32;
      }
      ghost var kept := into[..len];
      StageStep(src[..i], key, kept, min, node);
      assert node == src[i] && src[..i + 1] == src[..i] + [node];
      if highest < min {
        min := highest;
        len, kept := 0, [];
        assert kept + [node] == [node];
      }
      if highest == min {
        into[len] := node;
        len := len + 1;
        assert into[..len] == kept + [node];
      }
    }
    assert src[..n] == src;
    NoneLowerLeft(pool, queues, vs, src, into[..len], min);
    least := min;
  }

  method PrioritySumStage(pool: string, queues: set<string>, vs: Choices, from: array<string>, n: nat,
                          into: array<string>)
    returns (len: nat, ghost least: int)
    requires InRange(vs) && n <= from.Length && n <= into.Length && from != into
    requires forall i :: 0 <= i < n ==> from[i] in vs && |vs[from[i]].pods| > 0
    modifies into
    ensures len <= n && Staged(from[..n], x => PrioritySum(pool, queues, vs, x), into[..len], least)
  {
    hide Staged, ShiftedSum;
    ghost var key := x => PrioritySum(pool, queues, vs, x);
    len := 0;
    var min: Int64 := 0x7fff_ffff_ffff_ffff;
    StageStart(key, min as int);
    ghost var src := from[..n];
    assert src[..0] == [] && into[..0] == [];
    for i := 0 to n
      invariant len <= i && from[..n] == src
      invariant i == 0 ==> min as int == MaxInt64
      invariant Staged(src[..i], key, into[..len], min as int)
    {
      var node := from[i];
      var sum := SumPriorities(pool, queues, vs, node);
      ghost var kept := into[..len];
      StageStep(src[..i], key, kept, min as int, node);
      assert node == src[i] && src[..i + 1] == src[..i] + [node];
      if sum < min {
        min := sum;
        len, kept := 0, [];
        assert kept + [node] == [node];
      }
      if sum == min {
        into[len] := node;
        len := len + 1;
        assert into[..len] == kept + [node];
      }
    }
    assert src[..n] == src;
    least := min as int;
  }

  method SumPriorities(pool: string, queues: set<string>, vs: Choices, node: string) returns (sum: Int64)
    requires InRange(vs) && node in vs
    ensures sum as int == PrioritySum(pool, queues, vs, node) == TotalWorth(pool, queues, vs[node].pods)
  {
    PrioritySumIsWorth(pool, queues, vs, node);
    var pods := vs[node].pods;
    sum := 0;
    for j := 0 to |pods|
      invariant sum as int == ShiftedSum(pool, queues, pods, j)
    {
      var priority := PriorityOf(pods[j]);
      if QueueNameOf(queues, pods[j]) != pool {
        priority := MinInt32;
      }
      ShiftedSumBounds(pool, queues, pods, j);
      sum := sum + (priority as Int64 + (MaxInt32 + 1) as Int64);
    }
  }

  method FewestVictimsStage(vs: Choices, from: array<string>, n: nat, into: array<string>)
    returns (len: nat, ghost least: int)
    requires InRange(vs) && n <= from.Length && n <= into.Length && from != into
    requires forall i :: 0 <= i < n ==> from[i] in vs
    modifies into
    ensures len <= n && Staged(from[..n], x => NumVictims(vs, x), into[..len], least)
    ensures NoneFewer(vs, from[..n], into[..len])
  {
    hide Staged;
    ghost var key := x => NumVictims(vs, x);
    len := 0;
    var min := MaxInt32;
    StageStart(key, min);
    ghost var src := from[..n];
    assert src[..0] == [] && into[..0] == [];
    for i := 0 to n
      invariant len <= i && from[..n] == src
      invariant i == 0 ==> min == MaxInt32
      invariant Staged(src[..i], key, into[..len], min)
    {
      var node := from[i];
      var numPods := |vs[node].pods|;
      ghost var kept := into[..len];
      StageStep(src[..i], key, kept, min, node);
      assert node == src[i] && src[..i + 1] == src[..i] + [node];
      if numPods < min {
        min := numPods;
        len, kept := 0, [];
        assert kept + [node] == [node];
      }
      if numPods == min {
        into[len] := node;
        len := len + 1;
        assert into[..len] == kept + [node];
      }
    }
    assert src[..n] == src;
    NoneFewerLeft(vs, src, into[..len], min);
    least := min;
  }

  /** The first stage ranges over the map in an arbitrary order, and stops at a node without victims. */
  method FewestViolationsStage(vs: Choices)
    returns (free: Option<string>, kept: seq<string>, ghost seen: seq<string>, ghost least: int)
    requires InRange(vs)
    ensures free.Some? ==> free.value in vs && vs[free.value].pods == []
    ensures free.None? ==>
      && (forall n :: n in vs <==> n in seen) && (forall n :: n in vs ==> vs[n].pods != [])
      && Staged(seen, x => Violations(vs, x), kept, least)
      && forall y, n :: y in kept && n in vs ==> y in vs && vs[y].numPDBViolations <= vs[n].numPDBViolations
  {
    hide Staged;
    ghost var key := x => Violations(vs, x);
    kept, seen := [], [];
    var min, todo := MaxInt32, vs.Keys;
    StageStart(key, min);
    while todo != {}
      invariant todo <= vs.Keys
      invariant forall n :: n in seen <==> n in vs && n !in todo
      invariant forall n :: n in seen ==> vs[n].pods != []
      invariant seen == [] ==> min == MaxInt32
      invariant Staged(seen, key, kept, min)
      decreases todo
    {
      var node :| node in todo;
      todo := todo - {node};
      var victims := vs[node];
      if |victims.pods| == 0 {
        free, least := Some(node), min;
        return;
      }
      StageStep(seen, key, kept, min, node);
      if victims.numPDBViolations < min {
        min, kept := victims.numPDBViolations, [];
      }
      if victims.numPDBViolations == min {
        kept := kept + [node];
      }
      assert [] + [node] == [node];
      seen := seen + [node];
    }
    free, least := None, min;
    StageLeast(seen, key, kept, least);
  }

  lemma StageKept(seen: seq<string>, key: string -> int, kept: seq<string>, least: int)
    requires Staged(seen, key, kept, least)
    ensures |kept| <= |seen| && (seen != [] ==> kept != []) && forall i :: 0 <= i < |kept| ==> kept[i] in seen
  {
  }

  ghost predicate LeftBy(seen: seq<string>, key: string -> int, kept: seq<string>) {
    exists least :: Staged(seen, key, kept, least)
  }

  /** A run of the stages: what each saw and kept. Once a single node is left it is the choice. */
  ghost predicate Run(pool: string, queues: set<string>, vs: Choices, k0: seq<string>, k1: seq<string>, k2: seq<string>,
                      k3: seq<string>, k4: seq<string>) {
    && LeftBy(k0, x => Violations(vs, x), k1)
    && ((|k1| == 1 && k2 == k1) || LeftBy(k1, x => FirstPriority(pool, queues, vs, x), k2))
    && ((|k2| == 1 && k3 == k2) || LeftBy(k2, x => PrioritySum(pool, queues, vs, x), k3))
    && ((|k3| == 1 && k4 == k3) || LeftBy(k3, x => NumVictims(vs, x), k4))
  }

  /** A node left by a stage beats or ties every node the stage saw; those it ties are left too. */
  lemma StageNarrows(key: string -> int, seen: seq<string>, kept: seq<string>, a: string, b: string)
    requires (|seen| == 1 && kept == seen) || LeftBy(seen, key, kept)
    requires a in kept
    ensures a in seen && (b in seen ==> key(a) <= key(b) && (key(a) == key(b) ==> b in kept))
  {
  }

  lemma RunIsLexicographic(pool: string, queues: set<string>, vs: Choices, k0: seq<string>, k1: seq<string>,
                           k2: seq<string>, k3: seq<string>, k4: seq<string>,
                           a: string, b: string)
    requires Run(pool, queues, vs, k0, k1, k2, k3, k4) && a in k4 && b in k0
    ensures a in k0 && NoWorse(pool, queues, vs, a, b)
  {
    hide LeftBy, FirstPriority, PrioritySum, NumVictims, Violations;
    StageNarrows(x => NumVictims(vs, x), k3, k4, a, b);
    StageNarrows(x => PrioritySum(pool, queues, vs, x), k2, k3, a, b);
    StageNarrows(x => FirstPriority(pool, queues, vs, x), k1, k2, a, b);
    StageNarrows(x => Violations(vs, x), k0, k1, a, b);
  }

  /** pickOneNodeForPreemption: no node is chosen only from no nodes, so the final error branch is
      never reached; a node that needs no eviction is taken at once; otherwise the chosen node is
      lexicographically least. */
  method PickOneNodeForPreemption(pool: string, queues: set<string>, vs: Choices) returns (chosen: Option<string>)
    requires InRange(vs)
    ensures chosen.None? <==> vs == map[]
    ensures chosen.Some? ==> chosen.value in vs
    ensures chosen.Some? && (exists n :: n in vs && vs[n].pods == []) ==> vs[chosen.value].pods == []
    ensures chosen.Some? && (forall n :: n in vs ==> vs[n].pods != []) ==>
      forall n :: n in vs ==>
        NoWorse(pool, queues, vs, chosen.value, n) && Preferable(pool, queues, vs[chosen.value], vs[n])
  {
    hide Staged, NoWorse, Run, InRange, Preferable;
    if |vs| == 0 {
      return None;
    }
    assert exists n :: n in vs;
    var free, kept, seen, least := FewestViolationsStage(vs);
    if free.Some? {
      return free;
    }
    assert seen != [];
    StageKept(seen, x => Violations(vs, x), kept, least);
    ghost var run;
    chosen, run := PickAmong(pool, queues, vs, seen, kept);
    forall n | n in vs
      ensures NoWorse(pool, queues, vs, chosen.value, n) && Preferable(pool, queues, vs[chosen.value], vs[n])
    {
      RunIsLexicographic(pool, queues, vs, seen, kept, run.0, run.1, run.2, chosen.value, n);
      NoWorseIsPreferable(pool, queues, vs, chosen.value, n);
    }
  }

  /** The remaining stages, over the two buffers. */
  method PickAmong(pool: string, queues: set<string>, vs: Choices, ghost k0: seq<string>, k1: seq<string>)
    returns (chosen: Option<string>, ghost run: (seq<string>, seq<string>, seq<string>))
    requires InRange(vs) && k1 != [] && forall i :: 0 <= i < |k1| ==> k1[i] in vs && vs[k1[i]].pods != []
    requires LeftBy(k0, x => Violations(vs, x), k1)
    ensures chosen.Some? && chosen.value in run.2 && chosen.value in vs
    ensures Run(pool, queues, vs, k0, k1, run.0, run.1, run.2)
  {
    hide Staged, InRange, NoneFewer, NoneLower, FirstPriority, PrioritySum, NumVictims, Violations;
    var minNodes1 := new string[|k1|](i requires 0 <= i < |k1| => k1[i]);
    assert minNodes1[..] == k1;
    var lenNodes1 := |k1|;
    if lenNodes1 == 1 {
      return Some(minNodes1[0]), (k1, k1, k1);
    }
    var minNodes2 := new string[lenNodes1](_ => "");
    var lenNodes2, least2 := HighestPriorityStage(pool, queues, vs, minNodes1, lenNodes1, minNodes2);
    ghost var k2 := minNodes2[..lenNodes2];
    assert minNodes1[..lenNodes1] == k1;
    StageKept(k1, x => FirstPriority(pool, queues, vs, x), k2, least2);
    assert forall i :: 0 <= i < lenNodes2 ==> minNodes2[i] == k2[i] && k2[i] in k1;
    if lenNodes2 == 1 {
      return Some(minNodes2[0]), (k2, k2, k2);
    }
    ghost var least3, least4;
    lenNodes1, least3 := PrioritySumStage(pool, queues, vs, minNodes2, lenNodes2, minNodes1);
    ghost var k3 := minNodes1[..lenNodes1];
    assert minNodes2[..lenNodes2] == k2;
    StageKept(k2, x => PrioritySum(pool, queues, vs, x), k3, least3);
    assert forall i :: 0 <= i < lenNodes1 ==> minNodes1[i] == k3[i] && k3[i] in k2;
    if lenNodes1 == 1 {
      return Some(minNodes1[0]), (k2, k3, k3);
    }
    lenNodes2, least4 := FewestVictimsStage(vs, minNodes1, lenNodes1, minNodes2);
    ghost var k4 := minNodes2[..lenNodes2];
    assert minNodes1[..lenNodes1] == k3;
    StageKept(k3, x => NumVictims(vs, x), k4, least4);
    if lenNodes2 > 0 {
      assert k4[0] in k3;
      return Some(minNodes2[0]), (k2, k3, k4);
    }
    assert false;
    return None, (k2, k3, k4);
  }
}
