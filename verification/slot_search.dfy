/** The lock-free search of findNodesThatFit (pkg/scheduler/core/generic_scheduler.go): workers take
    pieces of work, judge nodes, and claim slots of the result by an atomic counter. A worker's
    stage decides its next atomic step, so a run is the order in which the workers step. */
module SlotSearch {
  import opened Api

  /** What the predicates say of a node. */
  datatype Verdict = Fits | Fails | Errs

  datatype Stage =
    | Idle
    | Holding                           // has a piece, has not looked at the cancellation
    | Calling                           // was not cancelled, is about to ask the tree for a node
    | Testing(node: nat)                // judges the node-th node the tree returned
    | Placing(node: nat, length: int)   // was given slot length-1, has not written it
    | Overrun                           // was given no slot, has not cancelled
    | Cancelling                        // has cancelled, has not taken its increment back
    | Retired

  /** `verdicts[i]` judges the node that the tree's i-th call returns; there is one call per piece.
      `given` and `overs` count the increments that did and did not get a slot. */
  datatype Search = Search(verdicts: seq<Verdict>, target: nat, pieces: nat, called: nat, filteredLen: int,
                           cancelled: bool,
                           slots: seq<Option<nat>>, workers: seq<Stage>, given: nat, overs: nat)

  function Start(verdicts: seq<Verdict>, target: nat, workers: nat): Search {
    Search(verdicts, target, |verdicts|, 0, 0, false, seq(target, _ => None), seq(workers, _ => Idle), 0, 0)
  }

  function At(s: Search, w: nat, stage: Stage): Search
    requires w < |s.workers|
  {
    s.(workers := s.workers[w := stage])
  }

  /** The next atomic step of one worker. */
  function Step(s: Search, w: nat): Search
    requires w < |s.workers|
  {
    match s.workers[w]
    case Idle => if s.pieces == 0 then At(s, w, Retired) else At(s, w, Holding).(pieces := s.pieces - 1)
    case Holding => At(s, w, if s.cancelled then Retired else Calling)
    case Calling => At(s, w, Testing(s.called)).(called := s.called + 1)
    case Testing(node) =>
      if node < |s.verdicts| && s.verdicts[node] == Fits then
        if s.filteredLen + 1 > s.target then At(s, w, Overrun).(filteredLen := s.filteredLen + 1, overs := s.overs + 1)
        else At(s, w, Placing(node, s.filteredLen + 1)).(filteredLen := s.filteredLen + 1, given := s.given + 1)
      else At(s, w, Idle)
    case Placing(node, length) =>
      if 1 <= length <= |s.slots| then At(s, w, Idle).(slots := s.slots[length - 1 := Some(node)]) else At(s, w, Idle)
    case Overrun => At(s, w, Cancelling).(cancelled := true)
    case Cancelling => At(s, w, Idle).(filteredLen := s.filteredLen - 1)
    case Retired => s
  }

  /** The search after a schedule of steps. */
  function Run(s: Search, schedule: seq<nat>): Search {
    if schedule == [] then s
    else
      var before := Run(s, schedule[..|schedule| - 1]);
      var w := schedule[|schedule| - 1];
      if w < |before.workers| then Step(before, w) else before
  }

  // ----- counting -----

  function Count(ws: seq<Stage>, c: Stage -> bool): (n: nat)
    ensures n <= |ws|
  {
    if ws == [] then 0 else Count(ws[..|ws| - 1], c) + if c(ws[|ws| - 1]) then 1 else 0
  }

  lemma {:induction false} CountUpdate(ws: seq<Stage>, w: nat, x: Stage, c: Stage -> bool)
    requires w < |ws|
    ensures Count(ws[w := x], c) == Count(ws, c) - (if c(ws[w]) then 1 else 0) + if c(x) then 1 else 0
  {
    var n := |ws| - 1;
    if w == n {
      assert ws[w := x][..n] == ws[..n];
    } else {
      CountUpdate(ws[..n], w, x, c);
      assert ws[w := x][..n] == ws[..n][w := x];
    }
  }

  lemma {:induction false} CountSome(ws: seq<Stage>, c: Stage -> bool)
    ensures Count(ws, c) == 0 <==> forall w :: 0 <= w < |ws| ==> !c(ws[w])
  {
    if ws != [] {
      CountSome(ws[..|ws| - 1], c);
    }
  }

  /** How many of the first `k` nodes fit. */
  function Fitting(verdicts: seq<Verdict>, k: nat): nat
    requires k <= |verdicts|
  {
    if k == 0 then 0 else Fitting(verdicts, k - 1) + if verdicts[k - 1] == Fits then 1 else 0
  }

  // ----- what every step keeps -----

  function IsOver(): Stage -> bool { (x: Stage) => x.Overrun? || x.Cancelling? }

  function HasPiece(): Stage -> bool { (x: Stage) => x.Holding? || x.Calling? }

  function WillFit(verdicts: seq<Verdict>): Stage -> bool {
    (x: Stage) => x.Testing? && x.node < |verdicts| && verdicts[x.node] == Fits
  }

  /** The counter is the slots given out plus the increments still to be taken back. Increments get no
      slot, and the search is cancelled, only when all slots are given out. */
  ghost predicate Counted(s: Search) {
    && s.filteredLen == s.given + Count(s.workers, IsOver())
    && s.given <= s.target == |s.slots|
    && ((s.cancelled || s.overs > 0 || Count(s.workers, IsOver()) > 0) ==> s.given == s.target)
    && (Count(s.workers, IsOver()) > 0 ==> s.overs > 0)
    && (s.overs > 0 && !s.cancelled ==> exists w :: 0 <= w < |s.workers| && s.workers[w].Overrun?)
  }

  /** Every piece is accounted for, except that a cancelled search may drop some; a worker stops only
      when the search is cancelled or nothing is left. */
  ghost predicate PiecesKept(s: Search) {
    && s.pieces + Count(s.workers, HasPiece()) + s.called <= |s.verdicts|
    && (!s.cancelled ==> s.pieces + Count(s.workers, HasPiece()) + s.called == |s.verdicts|)
    && (forall w :: 0 <= w < |s.workers| && s.workers[w].Retired? ==> s.cancelled || s.pieces == 0)
  }

  /** Every fitting node seen so far has a slot, is about to ask for one, or was refused one. */
  ghost predicate FittingKept(s: Search) {
    s.called <= |s.verdicts|
      && Fitting(s.verdicts, s.called) == s.given + Count(s.workers, WillFit(s.verdicts)) + s.overs
  }

  predicate PlacesAt(x: Stage, length: int) { x.Placing? && x.length == length }

  ghost predicate IsPlaced(ws: seq<Stage>, length: int) { exists w :: 0 <= w < |ws| && PlacesAt(ws[w], length) }

  /** A slot about to be written is empty and about to be written by one worker only; the slots not
      given out are untouched. */
  ghost predicate SlotsKept(ws: seq<Stage>, slots: seq<Option<nat>>, given: nat) {
    && given <= |slots|
    && (forall w :: 0 <= w < |ws| && ws[w].Placing? ==> 1 <= ws[w].length <= given && slots[ws[w].length - 1].None?)
    && (forall v, w :: 0 <= v < |ws| && 0 <= w < |ws| && ws[v].Placing? && ws[w].Placing? && v != w ==>
      ws[v].length != ws[w].length)
    && (forall i :: given <= i < |slots| ==> slots[i].None?)
  }

  /** Every slot given out is written or about to be. */
  ghost predicate GivenKept(ws: seq<Stage>, slots: seq<Option<nat>>, given: nat) {
    forall i :: 0 <= i < given && i < |slots| && slots[i].None? ==> IsPlaced(ws, i + 1)
  }

  predicate Busy(x: Stage) { x.Testing? || x.Placing? }

  predicate FitAt(verdicts: seq<Verdict>, i: nat) { i < |verdicts| && verdicts[i] == Fits }

  /** No node is in two hands, and only fitting nodes are placed. */
  ghost predicate NodesKept(verdicts: seq<Verdict>, ws: seq<Stage>, slots: seq<Option<nat>>, called: nat) {
    && (forall w :: 0 <= w < |ws| && Busy(ws[w]) ==>
      ws[w].node < called && (ws[w].Placing? ==> FitAt(verdicts, ws[w].node)))
    && (forall i :: 0 <= i < |slots| && slots[i].Some? ==> slots[i].value < called && FitAt(verdicts, slots[i].value))
    && (forall v, w :: 0 <= v < |ws| && 0 <= w < |ws| && v != w && Busy(ws[v]) && Busy(ws[w]) ==>
      ws[v].node != ws[w].node)
    && (forall i, w :: 0 <= i < |slots| && 0 <= w < |ws| && slots[i].Some? && Busy(ws[w]) ==>
      slots[i].value != ws[w].node)
    && (forall i, j :: 0 <= i < |slots| && 0 <= j < |slots| && i != j && slots[i].Some? && slots[j].Some? ==>
      slots[i].value != slots[j].value)
  }

  ghost predicate Inv(s: Search) {
    Counted(s) && PiecesKept(s) && FittingKept(s) && SlotsKept(s.workers, s.slots, s.given)
      && GivenKept(s.workers, s.slots, s.given) && NodesKept(s.verdicts, s.workers, s.slots, s.called)
  }

  lemma StartInv(verdicts: seq<Verdict>, target: nat, workers: nat)
    ensures Inv(Start(verdicts, target, workers))
  {
    var s := Start(verdicts, target, workers);
    CountSome(s.workers, IsOver());
    CountSome(s.workers, HasPiece());
    CountSome(s.workers, WillFit(verdicts));
  }

  /** How one step changes a count of workers. */
  lemma StepCount(s: Search, w: nat, c: Stage -> bool)
    requires w < |s.workers|
    ensures var t := Step(s, w);
      && t.workers == s.workers[w := t.workers[w]] && t.verdicts == s.verdicts
      && Count(t.workers, c)
         == Count(s.workers, c) - (if c(s.workers[w]) then 1 else 0) + if c(t.workers[w]) then 1 else 0
  {
    hide Count;
    var t := Step(s, w);
    CountUpdate(s.workers, w, t.workers[w], c);
    assert t.workers == s.workers[w := t.workers[w]];
  }

  lemma StepCounted(s: Search, w: nat)
    requires w < |s.workers| && Counted(s)
    ensures Counted(Step(s, w))
  {
    hide Count;
    var t := Step(s, w);
    StepCount(s, w, IsOver());
    CountSome(s.workers, IsOver());
    CountSome(t.workers, IsOver());
    assert forall v :: 0 <= v < |s.workers| && v != w && s.workers[v].Overrun? ==> t.workers[v].Overrun?;
    assert t.workers[w].Overrun? ==> 0 <= w < |t.workers|;
  }

  lemma StepPiecesKept(s: Search, w: nat)
    requires w < |s.workers| && PiecesKept(s) && s.called <= |s.verdicts|
    ensures PiecesKept(Step(s, w)) && Step(s, w).called <= |s.verdicts|
  {
    hide Count;
    StepCount(s, w, HasPiece());
  }

  lemma StepFittingKept(s: Search, w: nat)
    requires w < |s.workers| && FittingKept(s) && PiecesKept(s)
    ensures FittingKept(Step(s, w))
  {
    hide Count, PiecesKept;
    StepPiecesKept(s, w);
    StepCount(s, w, WillFit(s.verdicts));
  }

  // ----- slots -----

  /** A step that neither gives nor writes a slot. */
  lemma SlotsUntouched(ws: seq<Stage>, slots: seq<Option<nat>>, given: nat, w: nat, x: Stage)
    requires w < |ws| && SlotsKept(ws, slots, given) && !x.Placing?
    ensures SlotsKept(ws[w := x], slots, given)
  {
  }

  lemma SlotGiven(ws: seq<Stage>, slots: seq<Option<nat>>, given: nat, w: nat, node: nat)
    requires w < |ws| && SlotsKept(ws, slots, given) && given < |slots|
    ensures SlotsKept(ws[w := Placing(node, given + 1)], slots, given + 1)
  {
  }

  lemma SlotWritten(ws: seq<Stage>, slots: seq<Option<nat>>, given: nat, w: nat)
    requires w < |ws| && SlotsKept(ws, slots, given) && ws[w].Placing?
    ensures 1 <= ws[w].length <= given <= |slots| && slots[ws[w].length - 1].None?
    ensures SlotsKept(ws[w := Idle], slots[ws[w].length - 1 := Some(ws[w].node)], given)
  {
  }

  lemma StepSlotsKept(s: Search, w: nat)
    requires w < |s.workers| && SlotsKept(s.workers, s.slots, s.given) && Counted(s)
    ensures var t := Step(s, w); SlotsKept(t.workers, t.slots, t.given)
  {
    hide Count, SlotsKept;
    var t := Step(s, w);
    if s.workers[w].Placing? {
      SlotWritten(s.workers, s.slots, s.given, w);
    } else if t.workers[w].Placing? {
      SlotGiven(s.workers, s.slots, s.given, w, s.workers[w].node);
    } else {
      SlotsUntouched(s.workers, s.slots, s.given, w, t.workers[w]);
      assert t.workers == s.workers[w := t.workers[w]];
    }
  }

  /** The other workers place what they placed before. */
  lemma OthersPlace(ws: seq<Stage>, w: nat, x: Stage, length: int)
    requires w < |ws|
    ensures IsPlaced(ws, length) && !PlacesAt(ws[w], length) ==> IsPlaced(ws[w := x], length)
    ensures PlacesAt(x, length) ==> IsPlaced(ws[w := x], length)
  {
    var after := ws[w := x];
    if IsPlaced(ws, length) {
      var v :| 0 <= v < |ws| && PlacesAt(ws[v], length);
      assert v != w ==> PlacesAt(after[v], length);
    }
    assert after[w] == x;
  }

  lemma StepGivenKept(s: Search, w: nat)
    requires w < |s.workers| && GivenKept(s.workers, s.slots, s.given) && SlotsKept(s.workers, s.slots, s.given)
    requires Counted(s)
    ensures var t := Step(s, w); GivenKept(t.workers, t.slots, t.given)
  {
    hide Count, SlotsKept, IsPlaced;
    var t := Step(s, w);
    if s.workers[w].Placing? {
      SlotWritten(s.workers, s.slots, s.given, w);
    }
    assert t.workers == s.workers[w := t.workers[w]];
    forall i | 0 <= i < t.given && i < |t.slots| && t.slots[i].None?
      ensures IsPlaced(t.workers, i + 1)
    {
      OthersPlace(s.workers, w, t.workers[w], i + 1);
    }
  }

  // ----- nodes -----

  lemma NodeDropped(verdicts: seq<Verdict>, ws: seq<Stage>, slots: seq<Option<nat>>, called: nat, w: nat, x: Stage)
    requires w < |ws| && NodesKept(verdicts, ws, slots, called) && !Busy(x)
    ensures NodesKept(verdicts, ws[w := x], slots, called)
  {
  }

  lemma NodeCalled(verdicts: seq<Verdict>, ws: seq<Stage>, slots: seq<Option<nat>>, called: nat, w: nat)
    requires w < |ws| && NodesKept(verdicts, ws, slots, called)
    ensures NodesKept(verdicts, ws[w := Testing(called)], slots, called + 1)
  {
  }

  lemma NodePlaced(verdicts: seq<Verdict>, ws: seq<Stage>, slots: seq<Option<nat>>, called: nat, w: nat, length: int)
    requires w < |ws| && NodesKept(verdicts, ws, slots, called) && ws[w].Testing? && FitAt(verdicts, ws[w].node)
    ensures NodesKept(verdicts, ws[w := Placing(ws[w].node, length)], slots, called)
  {
  }

  lemma NodeWritten(verdicts: seq<Verdict>, ws: seq<Stage>, slots: seq<Option<nat>>, called: nat, w: nat, k: nat)
    requires w < |ws| && NodesKept(verdicts, ws, slots, called) && ws[w].Placing? && k < |slots|
    ensures NodesKept(verdicts, ws[w := Idle], slots[k := Some(ws[w].node)], called)
  {
  }

  lemma StepNodesKept(s: Search, w: nat)
    requires w < |s.workers| && NodesKept(s.verdicts, s.workers, s.slots, s.called)
    ensures var t := Step(s, w); NodesKept(t.verdicts, t.workers, t.slots, t.called)
  {
    hide Count, NodesKept;
    var t := Step(s, w);
    var x := s.workers[w];
    if x.Calling? {
      NodeCalled(s.verdicts, s.workers, s.slots, s.called, w);
    } else if t.workers[w].Placing? && x.Testing? {
      NodePlaced(s.verdicts, s.workers, s.slots, s.called, w, t.workers[w].length);
    } else if x.Placing? && 1 <= x.length <= |s.slots| {
      NodeWritten(s.verdicts, s.workers, s.slots, s.called, w, x.length - 1);
    } else {
      NodeDropped(s.verdicts, s.workers, s.slots, s.called, w, t.workers[w]);
      assert t.workers == s.workers[w := t.workers[w]];
    }
  }

  // ----- runs -----

  lemma StepInv(s: Search, w: nat)
    requires w < |s.workers| && Inv(s)
    ensures Inv(Step(s, w))
  {
    hide Counted, PiecesKept, FittingKept, SlotsKept, GivenKept, NodesKept, Step;
    CalledInRange(s);
    StepCounted(s, w);
    StepPiecesKept(s, w);
    StepFittingKept(s, w);
    StepSlotsKept(s, w);
    StepGivenKept(s, w);
    StepNodesKept(s, w);
  }

  lemma CalledInRange(s: Search)
    requires FittingKept(s)
    ensures s.called <= |s.verdicts|
  {
  }

  /** What every interleaving keeps. */
  lemma {:induction false} RunInv(s: Search, schedule: seq<nat>)
    requires Inv(s)
    ensures Inv(Run(s, schedule)) && Run(s, schedule).target == s.target && |Run(s, schedule).workers| == |s.workers|
  {
    hide Inv;
    if schedule != [] {
      var before := Run(s, schedule[..|schedule| - 1]);
      RunInv(s, schedule[..|schedule| - 1]);
      var w := schedule[|schedule| - 1];
      if w < |before.workers| {
        StepInv(before, w);
      }
    }
  }

  /** No slot is written twice: whatever the interleaving, a worker about to write finds its slot in
      range and empty. */
  lemma SlotsWrittenOnce(verdicts: seq<Verdict>, target: nat, workers: nat, schedule: seq<nat>, w: nat)
    requires var s := Run(Start(verdicts, target, workers), schedule); w < |s.workers| && s.workers[w].Placing?
    ensures var s := Run(Start(verdicts, target, workers), schedule);
      1 <= s.workers[w].length <= |s.slots| == target && s.slots[s.workers[w].length - 1].None?
  {
    hide Run;
    StartInv(verdicts, target, workers);
    RunInv(Start(verdicts, target, workers), schedule);
  }

  ghost predicate Finished(s: Search) {
    forall w :: 0 <= w < |s.workers| ==> s.workers[w].Retired?
  }

  /** The search as findNodesThatFit reads it once every worker has returned: the counter is the
      number of slots filled; they hold distinct fitting nodes and no gap; there are as many as fit,
      up to the target; and a cancelled search has exactly the target. */
  ghost predicate Complete(s: Search) {
    && (var n := Fitting(s.verdicts, |s.verdicts|); s.filteredLen == if n < s.target then n else s.target)
    && 0 <= s.filteredLen <= |s.slots|
    && (s.cancelled ==> s.filteredLen == s.target)
    && (forall i :: 0 <= i < s.filteredLen ==> s.slots[i].Some? && FitAt(s.verdicts, s.slots[i].value))
    && (forall i, j :: 0 <= i < j < s.filteredLen ==> s.slots[i] != s.slots[j])
  }

  lemma {:induction false} FittingGrows(verdicts: seq<Verdict>, i: nat, k: nat)
    requires i <= k <= |verdicts|
    ensures Fitting(verdicts, i) <= Fitting(verdicts, k)
  {
    if i < k {
      FittingGrows(verdicts, i, k - 1);
    }
  }

  lemma FinishedIsComplete(s: Search)
    requires Inv(s) && Finished(s) && |s.workers| > 0
    ensures Complete(s)
  {
    hide Count, Fitting;
    CountSome(s.workers, IsOver());
    CountSome(s.workers, HasPiece());
    CountSome(s.workers, WillFit(s.verdicts));
    FittingGrows(s.verdicts, s.called, |s.verdicts|);
    assert s.workers[0].Retired?;
    assert s.filteredLen == s.given;
    assert !s.cancelled ==> s.called == |s.verdicts| && s.overs == 0;
    assert forall length :: !IsPlaced(s.workers, length);
  }

  /** For every number of workers and every interleaving in which all of them return, the search is
      complete. */
  lemma EverySearchIsComplete(verdicts: seq<Verdict>, target: nat, workers: nat, schedule: seq<nat>)
    requires workers > 0 && Finished(Run(Start(verdicts, target, workers), schedule))
    ensures Complete(Run(Start(verdicts, target, workers), schedule))
  {
    hide Run, Inv, Complete, Finished;
    StartInv(verdicts, target, workers);
    RunInv(Start(verdicts, target, workers), schedule);
    FinishedIsComplete(Run(Start(verdicts, target, workers), schedule));
  }

  // ----- termination -----

  /** How many steps a worker has at most before it looks for its next piece. */
  function Left(x: Stage): nat {
    match x
    case Retired => 0
    case Idle => 1
    case Placing(_, _) => 2
    case Cancelling => 2
    case Overrun => 3
    case Testing(_) => 4
    case Calling => 5
    case Holding => 6
  }

  function LeftOver(ws: seq<Stage>): nat {
    if ws == [] then 0 else LeftOver(ws[..|ws| - 1]) + Left(ws[|ws| - 1])
  }

  lemma {:induction false} LeftOverUpdate(ws: seq<Stage>, w: nat, x: Stage)
    requires w < |ws|
    ensures LeftOver(ws[w := x]) == LeftOver(ws) - Left(ws[w]) + Left(x)
  {
    var n := |ws| - 1;
    if w == n {
      assert ws[w := x][..n] == ws[..n];
    } else {
      LeftOverUpdate(ws[..n], w, x);
      assert ws[w := x][..n] == ws[..n][w := x];
    }
  }

  /** Every step of a worker that has not returned uses up some of a bounded number of steps, so no
      interleaving runs forever. */
  lemma EveryStepCounts(s: Search, w: nat)
    requires w < |s.workers| && !s.workers[w].Retired?
    ensures 6 * Step(s, w).pieces + LeftOver(Step(s, w).workers) < 6 * s.pieces + LeftOver(s.workers)
  {
    hide LeftOver;
    var t := Step(s, w);
    LeftOverUpdate(s.workers, w, t.workers[w]);
    assert t.workers == s.workers[w := t.workers[w]];
  }
}
