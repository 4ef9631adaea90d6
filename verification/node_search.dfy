/** The search of findNodesThatFit over a pool's node tree (pkg/scheduler/core/generic_scheduler.go): each
    piece of work judges the node that one call of the tree's iterator returns. */
module NodeSearch {
  import opened Api
  import opened Sequences
  import opened NodeTrees
  import opened SlotSearch

  /** What the next `n` calls return. */
  function Names(t: Round, n: nat): (names: seq<string>)
    requires Nonempty(t)
    ensures |names| == n
    decreases n
  {
    if n == 0 then [] else NextKeepsTree(t); [NextOf(t).0] + Names(NextOf(t).1, n - 1)
  }

  lemma {:induction false} NamesCount(t: Round, n: nat, x: string)
    requires Nonempty(t)
    ensures Returns(t, n, x) == CountFrom(Names(t, n), 0, x)
    decreases n
  {
    hide NextOf, Nonempty, Reset;
    if n > 0 {
      NextKeepsTree(t);
      var rest := Names(NextOf(t).1, n - 1);
      NamesCount(NextOf(t).1, n - 1, x);
      CountAfterFirst(NextOf(t).0, rest, 0, x);
    }
  }

  lemma {:induction false} CountAfterFirst(first: string, rest: seq<string>, i: nat, x: string)
    requires i <= |rest|
    ensures CountFrom([first] + rest, i + 1, x) == CountFrom(rest, i, x)
    decreases |rest| - i
  {
    if i < |rest| {
      CountAfterFirst(first, rest, i + 1, x);
    }
  }

  lemma {:induction false} CountTwice(s: seq<string>, at: nat, i: nat, j: nat)
    requires at <= i < j < |s| && s[i] == s[j]
    ensures CountFrom(s, at, s[i]) >= 2
    decreases i - at
  {
    if at < i {
      CountTwice(s, at + 1, i, j);
    } else {
      CountIff(s, at + 1, s[i]);
      assert s[j] == s[at + 1..][j - at - 1];
    }
  }

  /** On a tree that holds no name twice, any NumNodes consecutive calls list its nodes. */
  lemma WindowLists(f: Round, k: nat)
    requires Nonempty(f) && Fresh(f) && forall x :: Multiplicity(f, x) <= 1
    ensures var names := Names(After(f, k), NumNodes(f));
      Distinct(names) && forall x :: x in names <==> Multiplicity(f, x) > 0
  {
    hide NextOf, Nonempty, Reset, After, Multiplicity, Names, CountFrom, NumNodes;
    var t, n := After(f, k), NumNodes(f);
    var names := Names(t, n);
    forall x
      ensures CountFrom(names, 0, x) == Multiplicity(f, x)
    {
      AnyWindowIsFair(f, k, x);
      NamesCount(t, n, x);
    }
    forall i, j | 0 <= i < j < |names|
      ensures names[i] != names[j]
    {
      if names[i] == names[j] {
        CountTwice(names, 0, i, j);
        assert false;
      }
    }
    forall x
      ensures x in names <==> Multiplicity(f, x) > 0
    {
      CountIff(names, 0, x);
      assert names[0..] == names;
    }
  }

  function Judged(names: seq<string>, judge: string -> Verdict): (verdicts: seq<Verdict>)
    ensures |verdicts| == |names| && forall i :: 0 <= i < |names| ==> verdicts[i] == judge(names[i])
  {
    seq(|names|, i requires 0 <= i < |names| => judge(names[i]))
  }

  lemma {:induction false} FittingIsSize(names: seq<string>, judge: string -> Verdict, k: nat, fitting: set<string>)
    requires Distinct(names) && k <= |names|
    requires forall x :: x in fitting <==> x in names[..k] && judge(x) == Fits
    ensures Fitting(Judged(names, judge), k) == |fitting|
  {
    if k == 0 {
      assert fitting == {};
    } else {
      var last := names[k - 1];
      assert names[..k] == names[..k - 1] + [last];
      assert last !in names[..k - 1];
      FittingIsSize(names, judge, k - 1, fitting - {last});
    }
  }

  /** The nodes in the filled slots. */
  function Filtered(s: Search, names: seq<string>): (nodes: seq<string>)
    requires Complete(s) && |names| == |s.verdicts|
    ensures |nodes| == s.filteredLen
  {
    seq(s.filteredLen, i requires 0 <= i < s.filteredLen => names[s.slots[i].value])
  }

  /** On a tree that holds no name twice and does not change meanwhile, wherever the iterator is, with
      every number of workers and in every interleaving, the search returns distinct fitting nodes of
      the tree, and as many as there are, up to the target. */
  lemma EverySearchFindsNodes(f: Round, k: nat, judge: string -> Verdict, fitting: set<string>, target: nat,
                              workers: nat, schedule: seq<nat>)
    requires Nonempty(f) && Fresh(f) && (forall x :: Multiplicity(f, x) <= 1) && workers > 0
    requires forall x :: x in fitting <==> Multiplicity(f, x) > 0 && judge(x) == Fits
    requires Finished(Run(Start(Judged(Names(After(f, k), NumNodes(f)), judge), target, workers), schedule))
    ensures var names := Names(After(f, k), NumNodes(f));
      var s := Run(Start(Judged(names, judge), target, workers), schedule);
      && Complete(s) && |s.verdicts| == |names|
      && var nodes := Filtered(s, names);
        && Distinct(nodes) && (forall x :: x in nodes ==> x in fitting)
        && |nodes| == if |fitting| < target then |fitting| else target
  {
    hide NextOf, Nonempty, Reset, After, Multiplicity, Names, NumNodes, Run, Fitting, Finished;
    var names := Names(After(f, k), NumNodes(f));
    var verdicts := Judged(names, judge);
    WindowLists(f, k);
    assert names[..|names|] == names;
    FittingIsSize(names, judge, |names|, fitting);
    EverySearchIsComplete(verdicts, target, workers, schedule);
    RunVerdicts(Start(verdicts, target, workers), schedule);
  }

  lemma {:induction false} RunVerdicts(s: Search, schedule: seq<nat>)
    ensures Run(s, schedule).verdicts == s.verdicts && Run(s, schedule).target == s.target
  {
    if schedule != [] {
      RunVerdicts(s, schedule[..|schedule| - 1]);
    }
  }
}
