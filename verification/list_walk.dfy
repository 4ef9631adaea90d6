/** The snapshot traversal with its cycle detection and repair
    (pkg/scheduler/info/pool_info.go), on any finite chain of items. */
module ListWalks {
  import opened NodeInfos
  import opened ListItems
  import opened Sequences

  /** From `head`, `next` runs through the distinct items of `chain` and then ends (`entry` is
      the length) or goes back to item number `entry`. */
  ghost predicate Rho(head: Item?, chain: seq<Item>, entry: nat)
    reads chain`next
  {
    && entry <= |chain|
    && head == (if chain == [] then null else chain[0])
    && (forall i {:trigger chain[i].next} :: 0 <= i < |chain| - 1 ==> chain[i].next == chain[i + 1])
    && (chain != [] ==> chain[|chain| - 1].next == if entry < |chain| then chain[entry] else null)
    && Distinct(chain)
  }

  // ----- every finite chain has this shape -----

  lemma {:induction false} ExtendRho(items: set<Item>, chain: seq<Item>) returns (full: seq<Item>, entry: nat)
    requires forall it :: it in items && it.next != null ==> it.next in items
    requires chain != [] && Distinct(chain) && forall i :: 0 <= i < |chain| ==> chain[i] in items
    requires forall i {:trigger chain[i].next} :: 0 <= i < |chain| - 1 ==> chain[i].next == chain[i + 1]
    ensures full != [] && full[0] == chain[0] && Rho(full[0], full, entry)
    ensures forall i :: 0 <= i < |full| ==> full[i] in items
    decreases items - set it | it in chain
  {
    var last := chain[|chain| - 1];
    if last.next == null {
      full, entry := chain, |chain|;
    } else if last.next in chain {
      entry :| 0 <= entry < |chain| && chain[entry] == last.next;
      full := chain;
    } else {
      var longer := chain + [last.next];
      assert (set it | it in longer) == (set it | it in chain) + {last.next};
      assert last.next in items - (set it | it in chain);
      full, entry := ExtendRho(items, longer);
    }
  }

  /** From any item of a finite set closed under `next`, the chain has this shape. */
  lemma FiniteChainIsRho(items: set<Item>, head: Item?) returns (chain: seq<Item>, entry: nat)
    requires forall it :: it in items && it.next != null ==> it.next in items
    requires head != null ==> head in items
    ensures Rho(head, chain, entry)
    ensures forall i :: 0 <= i < |chain| ==> chain[i] in items
  {
    if head == null {
      chain, entry := [], 0;
    } else {
      chain, entry := ExtendRho(items, [head]);
    }
  }

  // ----- positions on a chain with a cycle -----

  /** Where a walk of `t` steps is: on the chain, then going round the cycle. */
  function At(n: nat, entry: nat, t: nat): (p: nat)
    requires entry < n
    ensures p < n && (t >= entry ==> p >= entry)
  {
    if t < n then t else entry + (t - entry) % (n - entry)
  }

  lemma ModStep(a: nat, m: nat)
    requires m > 0
    ensures (a + 1) % m == if a % m + 1 == m then 0 else a % m + 1
  {
    var q := a / m;
    assert a == q * m + a % m;
    if a % m + 1 == m {
      ModUnique(a + 1, m, q + 1, 0);
    } else {
      ModUnique(a + 1, m, q, a % m + 1);
    }
  }

  lemma ModUnique(a: int, m: nat, q: int, r: nat)
    requires m > 0 && r < m && a == q * m + r
    ensures a % m == r
  {
    var d := a / m - q;
    assert a == (a / m) * m + a % m;
    assert d * m == r - a % m;
    assert d >= 1 ==> d * m >= m;
    assert d <= -1 ==> d * m <= 0 - m;
  }

  lemma AtStep(n: nat, entry: nat, t: nat)
    requires entry < n
    ensures At(n, entry, t + 1) == if At(n, entry, t) + 1 < n then At(n, entry, t) + 1 else entry
  {
    var m := n - entry;
    if t >= n {
      ModStep(t - entry, m);
    } else if t + 1 == n {
      ModUnique(t + 1 - entry, m, 1, 0);
    }
  }

  /** Inside the cycle the position only depends on the step count modulo the cycle's length. */
  lemma AtMod(n: nat, entry: nat, t: nat)
    requires entry < n && t >= entry
    ensures At(n, entry, t) == entry + (t - entry) % (n - entry)
  {
    if t < n {
      ModUnique(t - entry, n - entry, 0, t - entry);
    }
  }

  lemma ModAdd(a: nat, b: nat, m: nat)
    requires m > 0
    ensures (a + b) % m == a % m <==> b % m == 0
  {
    var qa, qb, qs := a / m, b / m, (a + b) / m;
    assert a == qa * m + a % m;
    assert b == qb * m + b % m;
    if b % m == 0 {
      assert a + b == (qa + qb) * m + a % m;
      ModUnique(a + b, m, qa + qb, a % m);
    }
    if (a + b) % m == a % m {
      assert a + b == qs * m + a % m;
      assert b == (qs - qa) * m;
      ModUnique(b, m, qs - qa, 0);
    }
  }

  /** The slow and the fast walker meet exactly after a positive number of steps that is a
      multiple of the cycle's length and not less than the way to the cycle. */
  lemma MeetIff(n: nat, entry: nat, t: nat)
    requires entry < n && t > 0
    ensures At(n, entry, t) == At(n, entry, 2 * t) <==> t >= entry && t % (n - entry) == 0
  {
    if t >= entry {
      AtMod(n, entry, t);
      AtMod(n, entry, 2 * t);
      ModAdd(t - entry, t, n - entry);
    }
  }

  /** After meeting, walking on for the way to the cycle ends at the cycle's entry. */
  lemma MeetAgain(n: nat, entry: nat, t: nat, s: nat)
    requires entry < n && t >= entry && t % (n - entry) == 0 && s <= entry
    ensures At(n, entry, t + s) == At(n, entry, s) <==> s == entry
  {
    if s == entry {
      AtMod(n, entry, t + s);
    }
  }

  /** The item before the entry, going round, is the last one. */
  lemma BeforeEntry(n: nat, entry: nat, x: nat)
    requires entry < n && x >= entry && At(n, entry, x + 1) == entry
    ensures At(n, entry, x) == n - 1
  {
    AtStep(n, entry, x);
  }

  /** The first meeting lies within one pass over the chain. */
  lemma MeetingTime(n: nat, entry: nat) returns (t: nat)
    requires entry < n
    ensures 0 < t <= n && t >= entry && t % (n - entry) == 0
  {
    var m := n - entry;
    if entry == 0 {
      ModUnique(n, m, 1, 0);
      t := n;
    } else {
      var r := (entry - 1) % m;
      var q := (entry - 1) / m;
      assert entry - 1 == q * m + r;
      t := (q + 1) * m;
      assert t == entry - 1 - r + m;
      ModUnique(t, m, q + 1, 0);
    }
  }

  // ----- the walk -----

  ghost function ItemAt(chain: seq<Item>, entry: nat, t: nat): Item?
    requires entry <= |chain|
  {
    if entry < |chain| then chain[At(|chain|, entry, t)] else if t < |chain| then chain[t] else null
  }

  lemma StepItem(head: Item?, chain: seq<Item>, entry: nat, t: nat)
    requires Rho(head, chain, entry) && ItemAt(chain, entry, t) != null
    ensures ItemAt(chain, entry, t).next == ItemAt(chain, entry, t + 1)
  {
    if entry < |chain| {
      AtStep(|chain|, entry, t);
    }
  }

  /** A snapshot after one more entry; entries without a Node are passed over. */
  function Taken(snapshot: map<string, NodeInfo>, info: NodeInfo): map<string, NodeInfo> {
    if info.node.Some? then snapshot[info.node.value.name := info] else snapshot
  }

  /** A snapshot after the first `k` items. */
  ghost function TakenAll(snapshot: map<string, NodeInfo>, chain: seq<Item>, k: nat): map<string, NodeInfo>
    requires k <= |chain|
    reads chain`info
  {
    if k == 0 then snapshot else Taken(TakenAll(snapshot, chain, k - 1), chain[k - 1].info)
  }

  /** How far the walk gets before the cycle test can stop it. */
  ghost predicate IsBound(chain: seq<Item>, entry: nat, bound: nat) {
    && entry <= |chain| && bound <= |chain|
    && if entry < |chain| then bound > 0 && bound >= entry && bound % (|chain| - entry) == 0 else bound == |chain|
  }

  lemma BoundOf(chain: seq<Item>, entry: nat) returns (bound: nat)
    requires entry <= |chain|
    ensures IsBound(chain, entry, bound) && bound <= |chain|
    ensures (if entry < |chain| then bound > 0 else bound == |chain|)
  {
    if entry < |chain| {
      bound := MeetingTime(|chain|, entry);
    } else {
      bound := |chain|;
    }
  }

  /** When the two walkers are at the same item. */
  lemma MeetItems(chain: seq<Item>, entry: nat, t: nat, bound: nat)
    requires Distinct(chain) && IsBound(chain, entry, bound) && 0 < t
    ensures entry == |chain| && ItemAt(chain, entry, 2 * t) != null ==>
      ItemAt(chain, entry, t) != ItemAt(chain, entry, 2 * t)
    ensures entry < |chain| && t == bound ==> ItemAt(chain, entry, t) == ItemAt(chain, entry, 2 * t) != null
    ensures entry < |chain| && ItemAt(chain, entry, t) == ItemAt(chain, entry, 2 * t) ==>
        t >= entry && t % (|chain| - entry) == 0
  {
    if entry < |chain| {
      MeetIff(|chain|, entry, t);
    }
  }

  /** The fast pointer's two steps. */
  method Leap(from: Item?, ghost head: Item?, ghost chain: seq<Item>, ghost entry: nat, ghost t: nat)
    returns (fast: Item?)
    requires Rho(head, chain, entry) && from == ItemAt(chain, entry, t)
    ensures fast == ItemAt(chain, entry, t + 2)
  {
    fast := from;
    if fast != null {
      StepItem(head, chain, entry, t);
      fast := fast.next;
      if fast != null {
        StepItem(head, chain, entry, t + 1);
        fast := fast.next;
      }
    }
  }

  /** The walk over the items newer than the snapshot. It stops at the first item that is not
      newer, at the end, or when the fast pointer has come round to the slow one. */
  method Scan(head: Item?, snapshot: map<string, NodeInfo>, snapshotGeneration: int,
              ghost chain: seq<Item>, ghost entry: nat)
    returns (refreshed: map<string, NodeInfo>, hasCircle: bool, node: Item?, prev: Item?, ghost visited: nat)
    requires Rho(head, chain, entry)
    ensures visited <= |chain| && refreshed == TakenAll(snapshot, chain, visited)
    ensures forall i :: 0 <= i < visited ==> chain[i].generation > snapshotGeneration
    ensures node == ItemAt(chain, entry, visited)
    ensures hasCircle ==> entry < |chain| && visited > 0 && prev == chain[visited - 1]
    ensures hasCircle ==> visited >= entry && visited % (|chain| - entry) == 0
    ensures !hasCircle && visited == |chain| ==> entry == |chain|
    ensures !hasCircle && visited < |chain| ==> chain[visited].generation <= snapshotGeneration
  {
    hide Rho, ItemAt, IsBound, Taken;
    RhoFacts(head, chain, entry);
    ghost var bound := BoundOf(chain, entry);
    refreshed, hasCircle, node, prev, visited := snapshot, false, head, head, 0;
    var fast := head;
    while node != null
      invariant visited <= bound && !hasCircle && (entry < |chain| ==> visited < bound)
      invariant refreshed == TakenAll(snapshot, chain, visited)
      invariant forall i :: 0 <= i < visited ==> chain[i].generation > snapshotGeneration
      invariant node == ItemAt(chain, entry, visited) && fast == ItemAt(chain, entry, 2 * visited)
      decreases bound - visited
    {
      EarlyItem(chain, entry, visited);
      if node.generation <= snapshotGeneration {
        break;
      }
      StepItem(head, chain, entry, visited);
      refreshed := Taken(refreshed, node.info);
      prev := node;
      node := node.next;
      fast := Leap(fast, head, chain, entry, 2 * visited);
      visited := visited + 1;
      MeetItems(chain, entry, visited, bound);
      EarlyItem(chain, entry, visited);
      if node != null && fast != null && node == fast {
        hasCircle := true;
        break;
      }
    }
    EarlyItem(chain, entry, visited);
  }

  lemma RhoFacts(head: Item?, chain: seq<Item>, entry: nat)
    requires Rho(head, chain, entry)
    ensures entry <= |chain| && Distinct(chain) && head == ItemAt(chain, entry, 0)
  {
  }

  lemma EarlyItem(chain: seq<Item>, entry: nat, t: nat)
    requires entry <= |chain|
    ensures t < |chain| ==> ItemAt(chain, entry, t) == chain[t]
    ensures entry == |chain| <= t ==> ItemAt(chain, entry, t) == null
    ensures entry < |chain| ==> ItemAt(chain, entry, t) != null
  {
  }

  /** Finds the entry of the cycle from the meeting point and cuts the cycle before it. */
  method Cut(head: Item, meeting: Item, before: Item, ghost chain: seq<Item>, ghost entry: nat, ghost t: nat)
    requires Rho(head, chain, entry) && entry < |chain| && 0 < t <= |chain|
    requires t >= entry && t % (|chain| - entry) == 0
    requires meeting == ItemAt(chain, entry, t) && before == chain[t - 1]
    modifies chain`next
    ensures Rho(head, chain, |chain|)
  {
    hide Rho, ItemAt;
    RhoFacts(head, chain, entry);
    var node, prev, fast := meeting, before, head;
    ghost var s := 0;
    FirstItems(chain, entry, t);
    while node != fast
      invariant s <= entry && fast == ItemAt(chain, entry, s) && node == ItemAt(chain, entry, t + s)
      invariant prev == ItemAt(chain, entry, t + s - 1)
      invariant Rho(head, chain, entry)
      decreases entry - s
    {
      MeetAgainItems(chain, entry, t, s);
      StepItem(head, chain, entry, t + s);
      StepItem(head, chain, entry, s);
      prev := node;
      node := node.next;
      fast := fast.next;
      s := s + 1;
    }
    MeetAgainItems(chain, entry, t, s);
    LastItem(chain, entry, t);
    Unhook(head, prev, chain, entry);
  }

  /** The last item of the chain lets go of the cycle's entry. */
  method Unhook(ghost head: Item, last: Item, ghost chain: seq<Item>, ghost entry: nat)
    requires Rho(head, chain, entry) && entry < |chain| && last == chain[|chain| - 1]
    modifies last`next
    ensures Rho(head, chain, |chain|)
  {
    last.next := null;
  }

  lemma FirstItems(chain: seq<Item>, entry: nat, t: nat)
    requires entry < |chain| && 0 < t <= |chain|
    ensures ItemAt(chain, entry, t - 1) == chain[t - 1] && forall x :: ItemAt(chain, entry, x) != null
  {
  }

  lemma MeetAgainItems(chain: seq<Item>, entry: nat, t: nat, s: nat)
    requires entry < |chain| && t >= entry && t % (|chain| - entry) == 0 && s <= entry && Distinct(chain)
    ensures ItemAt(chain, entry, t + s) == ItemAt(chain, entry, s) <==> s == entry
  {
    hide At;
    MeetAgain(|chain|, entry, t, s);
  }

  /** Where the two meet, the item before is the last one. */
  lemma LastItem(chain: seq<Item>, entry: nat, t: nat)
    requires entry < |chain| && t >= entry && 0 < t && t % (|chain| - entry) == 0
    ensures ItemAt(chain, entry, t + entry - 1) == chain[|chain| - 1]
  {
    hide At;
    AtMod(|chain|, entry, t + entry);
    BeforeEntry(|chain|, entry, t + entry - 1);
  }

  /** The walk passes the items newer than the snapshot, up to the first that is not. */
  ghost predicate Stops(chain: seq<Item>, snapshotGeneration: int, visited: nat)
    reads chain`generation
  {
    && visited <= |chain|
    && (forall i :: 0 <= i < visited ==> chain[i].generation > snapshotGeneration)
    && (visited < |chain| ==> chain[visited].generation <= snapshotGeneration)
  }

  /** The whole traversal: on a chain that ends it changes no link and finds no cycle; on a chain
      with a cycle it either stops at an old item or cuts the cycle, and then the chain ends and
      still runs through the same items. */
  method Walk(head: Item?, snapshot: map<string, NodeInfo>, snapshotGeneration: int,
              ghost chain: seq<Item>, ghost entry: nat)
    returns (refreshed: map<string, NodeInfo>, hasCircle: bool, ghost visited: nat)
    requires Rho(head, chain, entry)
    modifies chain`next
    ensures Rho(head, chain, if hasCircle then |chain| else entry)
    ensures hasCircle ==> entry < |chain|
    ensures entry < |chain| && (forall i :: 0 <= i < |chain| ==> chain[i].generation > snapshotGeneration) ==> hasCircle
    ensures !hasCircle ==> forall i :: 0 <= i < |chain| ==> chain[i].next == old(chain[i].next)
    ensures Stops(chain, snapshotGeneration, visited) || hasCircle
    ensures visited <= |chain| && refreshed == TakenAll(snapshot, chain, visited)
  {
    hide Rho, TakenAll;
    var node, prev;
    refreshed, hasCircle, node, prev, visited := Scan(head, snapshot, snapshotGeneration, chain, entry);
    if hasCircle {
      RhoFacts(head, chain, entry);
      EarlyItem(chain, entry, 0);
      EarlyItem(chain, entry, visited);
      Cut(head, node, prev, chain, entry, visited);
    }
  }

  /** What a snapshot holds after the first `k` items, when the items' names are distinct. */
  lemma {:induction false} TakenAllContents(snapshot: map<string, NodeInfo>, chain: seq<Item>, k: nat)
    requires k <= |chain|
    requires forall i, j :: 0 <= i < j < |chain| ==> chain[i].name != chain[j].name
    requires forall i :: 0 <= i < |chain| && chain[i].info.node.Some? ==> chain[i].info.node.value.name == chain[i].name
    ensures forall i :: 0 <= i < k && chain[i].info.node.Some? ==>
        chain[i].name in TakenAll(snapshot, chain, k) && TakenAll(snapshot, chain, k)[chain[i].name] == chain[i].info
    ensures forall i :: k <= i < |chain| && chain[i].name in snapshot ==>
        chain[i].name in TakenAll(snapshot, chain, k)
          && TakenAll(snapshot, chain, k)[chain[i].name] == snapshot[chain[i].name]
  {
    if k > 0 {
      TakenAllContents(snapshot, chain, k - 1);
    }
  }

  /** A pool move puts an entry in front without a new generation. The next snapshot shows it as it is
      exactly when its generation is above the snapshot's, or when the snapshot shows it so already;
      otherwise the walk stops at it, a stale copy stays, and nothing behind it is refreshed either. */
  lemma {:induction false} MovedEntryInSnapshot(snapshot: map<string, NodeInfo>, chain: seq<Item>, visited: nat,
                                                snapshotGeneration: int)
    requires chain != [] && chain[0].info.node.Some? && Stops(chain, snapshotGeneration, visited)
    requires forall i, j :: 0 <= i < j < |chain| ==> chain[i].name != chain[j].name
    requires forall i :: 0 <= i < |chain| && chain[i].info.node.Some? ==> chain[i].info.node.value.name == chain[i].name
    ensures ShownAs(TakenAll(snapshot, chain, visited), chain[0].name, chain[0].info)
      <==> chain[0].generation > snapshotGeneration || ShownAs(snapshot, chain[0].name, chain[0].info)
    ensures chain[0].generation <= snapshotGeneration ==> TakenAll(snapshot, chain, visited) == snapshot
  {
    TakenAllContents(snapshot, chain, visited);
  }

  predicate ShownAs(snapshot: map<string, NodeInfo>, name: string, info: NodeInfo) {
    name in snapshot && snapshot[name] == info
  }
}
