/** Pod back-off (pkg/scheduler/util/backoff_utils.go). Durations are 64-bit and wrap around; times
    are integers on the same scale. */
module Backoffs {
  import opened Api
  import opened PodOrders
  import opened HeapOrders
  import opened KeyedHeaps
  import opened Integers

  function Min(a: int, b: int): int { if a < b then a else b }

  datatype BackoffEntry = BackoffEntry(initialized: bool, podName: string, backoff: int, lastUpdate: int)

  // ----- the durations -----

  /** getBackoff's new duration. */
  function NextDuration(backoff: int, max: int): int {
    var doubled := Wrap64(backoff * 2);
    if doubled > max then max else doubled
  }

  /** getBackoff: the entry afterwards; its back-off is what is returned. */
  function Backed(e: BackoffEntry, max: int): BackoffEntry {
    if !e.initialized then e.(initialized := true) else e.(backoff := NextDuration(e.backoff, max))
  }

  /** What the n-th call for a live entry returns. */
  function Nth(d: int, max: int, n: nat): int
    requires n >= 1
  {
    if n == 1 then d else NextDuration(Nth(d, max, n - 1), max)
  }

  function Pow2(n: nat): (r: nat)
    ensures r > n
  {
    if n == 0 then 1 else 2 * Pow2(n - 1)
  }

  /** The documented duration: doubled with every call, up to the maximum. */
  function Doubling(d: int, max: int, n: nat): int
    requires n >= 1
  {
    Min(max, d * Pow2(n - 1))
  }

  lemma {:induction false} NthIsDoubling(d: int, max: int, n: nat)
    requires n >= 1 && IsInt64(d) && IsInt64(max) && d <= max
    requires d == 0 || (d > 0 && 2 * max <= MaxInt64)
    ensures Nth(d, max, n) == Doubling(d, max, n)
  {
    hide Pow2, Wrap64;
    if n > 1 {
      NthIsDoubling(d, max, n - 1);
      DoubledProduct(d, n - 2);
    } else {
      NthStep(d, max, 1);
    }
  }

  lemma DoubledProduct(d: int, k: nat)
    requires d >= 0
    ensures d * Pow2(k + 1) == 2 * (d * Pow2(k)) && d * Pow2(k) >= 0
  {
    var p := Pow2(k);
    assert Pow2(k + 1) == 2 * p;
    assert d * (2 * p) == 2 * (d * p);
  }

  lemma {:induction false} NthInRange(d: int, max: int, n: nat)
    requires n >= 1 && IsInt64(d) && IsInt64(max)
    ensures IsInt64(Nth(d, max, n))
  {
  }

  /** The back-off doubles up to the maximum on every call exactly when the default is no more than
      the maximum and doubling the maximum does not overflow; a default of zero stays zero. */
  lemma DoublesIff(d: int, max: int)
    requires IsInt64(d) && IsInt64(max)
    ensures (forall n: nat :: n >= 1 ==> Nth(d, max, n) == Doubling(d, max, n))
      <==> d <= max && (d == 0 || (d > 0 && 2 * max <= MaxInt64))
  {
    if d <= max && (d == 0 || (d > 0 && 2 * max <= MaxInt64)) {
      forall n: nat | n >= 1 ensures Nth(d, max, n) == Doubling(d, max, n) {
        NthIsDoubling(d, max, n);
      }
    } else {
      var n := FirstWrong(d, max);
    }
  }

  lemma FirstWrong(d: int, max: int) returns (n: nat)
    requires IsInt64(d) && IsInt64(max)
    requires d > max || d < 0 || (d > 0 && 2 * max > MaxInt64)
    ensures n >= 1 && Nth(d, max, n) != Doubling(d, max, n)
  {
    hide Pow2, Nth, Wrap64;
    if d > max {
      n := 1;
      NthStep(d, max, 1);
      assert Pow2(0) == 1 && d * 1 == d;
    } else if d < 0 {
      n := 1 - MinInt64;
      NthInRange(d, max, n);
      GrowsPast(d, n - 1);
    } else {
      n := max + 1;
      NthStep(d, max, n + 1);
      GrowsPast(d, max);
      GrowsPast(d, max + 1);
      assert Wrap64(max * 2) == max * 2 - 0x1_0000_0000_0000_0000 by { WrapsDown(max * 2); }
      if Nth(d, max, n) == max {
        n := n + 1;
      }
    }
  }

  lemma NthStep(d: int, max: int, n: nat)
    requires n >= 1
    ensures Nth(d, max, n) == if n == 1 then d else NextDuration(Nth(d, max, n - 1), max)
    ensures Pow2(0) == 1
  {
  }

  lemma GrowsPast(d: int, k: nat)
    ensures d > 0 ==> d * Pow2(k) > k
    ensures d < 0 ==> d * Pow2(k) + k < 0
  {
    hide Pow2;
    var p := Pow2(k);
    if d > 0 {
      TimesAtLeastOne(d, p);
    } else if d < 0 {
      TimesAtLeastOne(-d, p);
      assert (-d) * p == -(d * p);
    }
  }

  lemma TimesAtLeastOne(d: int, p: int)
    requires d >= 1 && p >= 0
    ensures d * p >= p
  {
    assert d * p == p + (d - 1) * p;
  }

  // ----- the entries -----

  function KeyOf(e: BackoffEntry): Option<string> { Some(e.podName) }

  /** backoffEntryCompareUpdate. */
  predicate OlderUpdate(a: BackoffEntry, b: BackoffEntry) { a.lastUpdate < b.lastUpdate }

  /** now.Sub: a difference out of range becomes the nearest duration. */
  function Since(now: int, t: int): int {
    var d := now - t;
    if d > MaxInt64 then MaxInt64 else if d < MinInt64 then MinInt64 else d
  }

  /** The entry has been returned `n` times since it was made. */
  ghost predicate CalledTimes(e: BackoffEntry, d: int, max: int, n: nat) {
    e.initialized == (n > 0) && e.backoff == if n == 0 then d else Nth(d, max, n)
  }

  lemma BackedKeeps(e: BackoffEntry, max: int)
    ensures Backed(e, max).podName == e.podName && SameRank(OlderUpdate, e, Backed(e, max))
  {
  }

  lemma OneMoreCall(e: BackoffEntry, now: int, d: int, max: int, n: nat)
    requires CalledTimes(e, d, max, n)
    ensures CalledTimes(Backed(e.(lastUpdate := now), max), d, max, n + 1)
  {
  }

  /** `left` is what collection has left of `all` so far: nothing recent is gone. */
  ghost predicate Collecting(now: int, max: int, all: map<string, BackoffEntry>, left: map<string, BackoffEntry>) {
    && (forall k :: k in left ==> k in all && left[k] == all[k])
    && (forall k :: k in all && Since(now, all[k].lastUpdate) <= max ==> k in left)
  }

  lemma OlderForLonger(now: int, t: int, u: int)
    requires t <= u
    ensures Since(now, t) >= Since(now, u)
  {
  }

  /** Saturation only matters when the maximum is the largest duration there is. */
  lemma SinceIsExact(now: int, t: int, max: int)
    requires IsInt64(max)
    ensures (Since(now, t) > max <==> now - t > max) <==> (max < MaxInt64 || now - t <= MaxInt64)
  {
  }

  lemma CollectNone(now: int, max: int, all: map<string, BackoffEntry>)
    ensures Collecting(now, max, all, all)
  {
  }

  lemma CollectOne(now: int, max: int, all: map<string, BackoffEntry>, left: map<string, BackoffEntry>, key: string)
    requires Collecting(now, max, all, left) && key in left && Since(now, left[key].lastUpdate) > max
    ensures Collecting(now, max, all, left - {key})
  {
  }

  lemma CollectedAll(now: int, max: int, all: map<string, BackoffEntry>, left: map<string, BackoffEntry>,
                     e: Option<BackoffEntry>)
    requires Collecting(now, max, all, left)
    requires e.None? ==> left == map[]
    requires e.Some? ==>
      Since(now, e.value.lastUpdate) <= max && forall k :: k in left ==> !OlderUpdate(left[k], e.value)
    ensures left == map k | k in all && Since(now, all[k].lastUpdate) <= max :: all[k]
  {
  }

  const ZeroTime := 0

  class PodBackoff {
    const expiryQ: Heap<BackoffEntry>
    const defaultDuration: int
    const maxDuration: int

    ghost predicate Valid()
      reads this, expiryQ
    {
      expiryQ.Valid() && expiryQ.keyOf == KeyOf && expiryQ.less == OlderUpdate
    }

    ghost function Entries(): map<string, BackoffEntry>
      reads this, expiryQ
    {
      expiryQ.Contents()
    }

    constructor (defaultDuration: int, maxDuration: int)
      ensures Valid() && fresh(expiryQ) && Entries() == map[]
      ensures this.defaultDuration == defaultDuration && this.maxDuration == maxDuration
    {
      this.defaultDuration, this.maxDuration := defaultDuration, maxDuration;
      expiryQ := new Heap(KeyOf, OlderUpdate);
    }

    /** The entry to work on: the stored one, or a new one. */
    function EntryOf(entries: map<string, BackoffEntry>, pod: string): BackoffEntry {
      if pod in entries then entries[pod] else BackoffEntry(false, pod, defaultDuration, ZeroTime)
    }

    /** getEntry: a missing entry is made and stored. */
    method GetEntry(pod: string) returns (e: BackoffEntry)
      requires Valid()
      modifies expiryQ
      ensures Valid() && e == EntryOf(old(Entries()), pod) && Entries() == old(Entries())[pod := e]
      ensures e.podName == pod
    {
      hide Heap.Valid, Heap.Keyed, Heap.ValidBut;
      var found := expiryQ.GetByKey(pod);
      if found.None? {
        e := BackoffEntry(false, pod, defaultDuration, ZeroTime);
        expiryQ.ValidIsValidBut(pod);
        var ok := expiryQ.Add(e);
      } else {
        e := found.value;
        StoredUnderName(pod);
      }
    }

    lemma StoredUnderName(pod: string)
      requires Valid() && pod in Entries()
      ensures Entries()[pod].podName == pod
    {
    }

    /** BackoffPod. The time is written into the stored entry, which may put it out of order, and
        the entry is put back in order; then the duration is written. */
    method BackoffPod(pod: string, now: int) returns (duration: int)
      requires Valid()
      modifies expiryQ
      ensures Valid()
      ensures Entries() == old(Entries())[pod := Backed(EntryOf(old(Entries()), pod).(lastUpdate := now), maxDuration)]
      ensures duration == Entries()[pod].backoff
    {
      hide Heap.Valid, Heap.Keyed, Heap.ValidBut, Heap.Contents, Stored, StrictWeakOrder, Backed, EntryOf;
      ghost var before := Entries();
      var e := GetEntry(pod);
      StoredUnderName(pod);
      e := e.(lastUpdate := now);
      expiryQ.Overwrite(pod, e);
      expiryQ.StillKeyed(pod);
      var ok := expiryQ.Add(e);
      assert Entries() == before[pod := e];
      BackedKeeps(e, maxDuration);
      e := Backed(e, maxDuration);
      StoredUnderName(pod);
      expiryQ.Overwrite(pod, e);
      assert Entries() == before[pod := e];
      duration := e.backoff;
    }

    /** TryBackoffAndWait up to the waiting: `free` says whether the entry's lock could be taken. The
        time of the last update stays as it is. */
    method TryBackoff(pod: string, free: bool) returns (duration: Option<int>)
      requires Valid()
      modifies expiryQ
      ensures Valid()
      ensures var e := EntryOf(old(Entries()), pod);
        Entries() == old(Entries())[pod := if free then Backed(e, maxDuration) else e]
      ensures duration == if free then Some(Entries()[pod].backoff) else None
    {
      hide Heap.Valid, Heap.Keyed, Heap.ValidBut, Heap.Contents, Stored, StrictWeakOrder, Backed, EntryOf;
      ghost var before := Entries();
      var e := GetEntry(pod);
      if !free {
        return None;
      }
      BackedKeeps(e, maxDuration);
      e := Backed(e, maxDuration);
      StoredUnderName(pod);
      expiryQ.Overwrite(pod, e);
      assert Entries() == before[pod := e];
      duration := Some(e.backoff);
    }

    /** Gc removes exactly the entries not updated for longer than the maximum duration. */
    method Gc(now: int)
      requires Valid()
      modifies expiryQ
      ensures Valid()
      ensures Entries()
        == map k | k in old(Entries()) && Since(now, old(Entries())[k].lastUpdate) <= maxDuration :: old(Entries())[k]
    {
      hide Heap.Valid, Heap.Contents, Collecting, Since;
      ghost var all := Entries();
      var e := expiryQ.Peek();
      assert Collecting(now, maxDuration, all, all) by { CollectNone(now, maxDuration, all); }
      while e.Some? && Since(now, e.value.lastUpdate) > maxDuration
        invariant Valid() && Collecting(now, maxDuration, all, Entries())
        invariant e.None? <==> Entries() == map[]
        invariant e.Some? ==>
          expiryQ.IsLeast(e.value) && e.value.podName in Entries() && Entries()[e.value.podName] == e.value
        decreases Entries().Keys
      {
        ghost var left := Entries();
        var popped, key := expiryQ.Pop();
        assert !OlderUpdate(left[e.value.podName], popped);
        OlderForLonger(now, popped.lastUpdate, e.value.lastUpdate);
        CollectOne(now, maxDuration, all, left, key);
        e := expiryQ.Peek();
      }
      CollectedAll(now, maxDuration, all, Entries(), e);
    }

    method ClearPodBackoff(pod: string) returns (ok: bool)
      requires Valid()
      modifies expiryQ
      ensures Valid() && ok == (pod in old(Entries())) && Entries() == old(Entries()) - {pod}
    {
      hide Heap.Valid;
      var found := expiryQ.GetByKey(pod);
      ok := false;
      if found.Some? {
        StoredUnderName(pod);
        ok := expiryQ.Delete(found.value);
      }
    }
  }

  // ----- runs -----

  datatype Operation =
    | Back(pod: string, now: int)
    | Try(pod: string, free: bool)
    | Collect(now: int)
    | Clear(pod: string)
  {
    predicate BacksOff() { Back? || (Try? && free) }
  }

  /** A live entry: how often its pod was backed off since the entry was made, and when last. */
  datatype Live = Live(calls: nat, last: int)

  /** The live entries after one more operation. */
  function Lived(live: map<string, Live>, op: Operation, max: int): map<string, Live> {
    match op
    case Back(pod, now) => live[pod := Live(if pod in live then live[pod].calls + 1 else 1, now)]
    case Try(pod, free) =>
      var l := if pod in live then live[pod] else Live(0, ZeroTime);
      live[pod := if free then Live(l.calls + 1, l.last) else l]
    case Collect(now) => map k | k in live && Since(now, live[k].last) <= max :: live[k]
    case Clear(pod) => live - {pod}
  }

  /** The live entries after the first `k` operations. */
  function LiveAfter(ops: seq<Operation>, k: nat, max: int): map<string, Live>
    requires k <= |ops|
  {
    if k == 0 then map[] else Lived(LiveAfter(ops, k - 1, max), ops[k - 1], max)
  }

  /** The table holds exactly the live entries, each as often called and last updated. */
  ghost predicate Holds(entries: map<string, BackoffEntry>, live: map<string, Live>, d: int, max: int) {
    && entries.Keys == live.Keys
    && forall k :: k in live ==> entries[k].lastUpdate == live[k].last && CalledTimes(entries[k], d, max, live[k].calls)
  }

  /** What the n-th back-off of an entry lasts, over any run of back-offs of any pods, with and without
      waiting, collections and clearings. */
  method RunOperations(d: int, max: int, ops: seq<Operation>) returns (waits: seq<Option<int>>)
    requires IsInt64(d) && IsInt64(max)
    ensures |waits| == |ops|
    ensures forall i :: 0 <= i < |ops| && ops[i].BacksOff() ==>
      && ops[i].pod in LiveAfter(ops, i + 1, max) && LiveAfter(ops, i + 1, max)[ops[i].pod].calls >= 1
      && waits[i] == Some(Nth(d, max, LiveAfter(ops, i + 1, max)[ops[i].pod].calls))
    ensures d <= max && (d == 0 || (d > 0 && 2 * max <= MaxInt64)) ==>
      forall i :: 0 <= i < |ops| && ops[i].BacksOff() ==>
        waits[i] == Some(Doubling(d, max, LiveAfter(ops, i + 1, max)[ops[i].pod].calls))
  {
    hide PodBackoff.Valid, Nth, Pow2, Doubling, Holds, Lived, Backed;
    var b := new PodBackoff(d, max);
    waits := [];
    HoldsNothing(d, max);
    for i := 0 to |ops|
      invariant b.Valid() && fresh(b.expiryQ) && |waits| == i && b.defaultDuration == d && b.maxDuration == max
      invariant Holds(b.Entries(), LiveAfter(ops, i, max), d, max)
      invariant forall j :: 0 <= j < i && ops[j].BacksOff() ==>
        && ops[j].pod in LiveAfter(ops, j + 1, max) && LiveAfter(ops, j + 1, max)[ops[j].pod].calls >= 1
        && waits[j] == Some(Nth(d, max, LiveAfter(ops, j + 1, max)[ops[j].pod].calls))
    {
      ghost var entries := b.Entries();
      match ops[i]
      case Back(pod, now) =>
        BackHolds(b, entries, LiveAfter(ops, i, max), d, max, pod, now);
        var w := b.BackoffPod(pod, now);
        waits := waits + [Some(w)];
      case Try(pod, free) =>
        TryHolds(b, entries, LiveAfter(ops, i, max), d, max, pod, free);
        var w := b.TryBackoff(pod, free);
        waits := waits + [w];
      case Collect(now) =>
        CollectHolds(entries, LiveAfter(ops, i, max), d, max, now);
        b.Gc(now);
        waits := waits + [None];
      case Clear(pod) =>
        ClearHolds(entries, LiveAfter(ops, i, max), d, max, pod);
        var ok := b.ClearPodBackoff(pod);
        waits := waits + [None];
    }
    DoublesIff(d, max);
  }

  lemma HoldsNothing(d: int, max: int)
    ensures Holds(map[], map[], d, max)
  {
  }

  lemma BackHolds(b: PodBackoff, entries: map<string, BackoffEntry>, live: map<string, Live>, d: int, max: int,
                  pod: string, now: int)
    requires Holds(entries, live, d, max) && b.defaultDuration == d && b.maxDuration == max
    ensures var e, after := Backed(b.EntryOf(entries, pod).(lastUpdate := now), max), Lived(live, Back(pod, now), max);
      && Holds(entries[pod := e], after, d, max)
      && pod in after && after[pod].calls >= 1 && e.backoff == Nth(d, max, after[pod].calls)
  {
    hide Nth;
    var e0 := b.EntryOf(entries, pod);
    var n := if pod in live then live[pod].calls else 0;
    assert CalledTimes(e0, d, max, n);
    OneMoreCall(e0, now, d, max, n);
  }

  lemma TryHolds(b: PodBackoff, entries: map<string, BackoffEntry>, live: map<string, Live>, d: int, max: int,
                 pod: string, free: bool)
    requires Holds(entries, live, d, max) && b.defaultDuration == d && b.maxDuration == max
    ensures var e0, after := b.EntryOf(entries, pod), Lived(live, Try(pod, free), max);
      var e := if free then Backed(e0, max) else e0;
      && Holds(entries[pod := e], after, d, max)
      && pod in after && (free ==> after[pod].calls >= 1 && e.backoff == Nth(d, max, after[pod].calls))
  {
    hide Nth;
    var e0 := b.EntryOf(entries, pod);
    var n := if pod in live then live[pod].calls else 0;
    assert CalledTimes(e0, d, max, n);
    OneMoreCall(e0, e0.lastUpdate, d, max, n);
  }

  lemma CollectHolds(entries: map<string, BackoffEntry>, live: map<string, Live>, d: int, max: int, now: int)
    requires Holds(entries, live, d, max)
    ensures Holds(map k | k in entries && Since(now, entries[k].lastUpdate) <= max :: entries[k],
                  Lived(live, Collect(now), max), d, max)
  {
    hide Nth, Since;
  }

  lemma ClearHolds(entries: map<string, BackoffEntry>, live: map<string, Live>, d: int, max: int, pod: string)
    requires Holds(entries, live, d, max)
    ensures Holds(entries - {pod}, Lived(live, Clear(pod), max), d, max)
  {
    hide Nth;
  }
}
