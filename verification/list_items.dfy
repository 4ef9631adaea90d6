/** The doubly linked list a pool keeps over its entries (pkg/scheduler/info/pool_info.go). */
module ListItems {
  import opened NodeInfos
  import opened Sequences

  /** NodeInfoListItem, with the generation of its NodeInfo. `name` is the key the item is stored
      under. */
  class Item {
    var info: NodeInfo
    var generation: int
    var next: Item?
    var prev: Item?
    ghost var name: string

    constructor (generation: int, ghost name: string)
      ensures info == Empty && this.generation == generation && next == null && prev == null && this.name == name
    {
      info, this.generation, next, prev := Empty, generation, null, null;
      this.name := name;
    }
  }

  // ----- sound lists -----

  /** From `head`, `next` runs through exactly the items of `order` and ends; `prev` runs back. */
  ghost predicate Linked(head: Item?, order: seq<Item>)
    reads order`next, order`prev
  {
    && (order == [] ==> head == null)
    && (order != [] ==> head == order[0] && order[0].prev == null && order[|order| - 1].next == null)
    && (forall i {:trigger order[i].prev} :: 1 <= i < |order| ==> order[i].prev == order[i - 1])
    && (forall i {:trigger order[i].next} :: 0 <= i < |order| - 1 ==> order[i].next == order[i + 1])
    && Distinct(order)
  }

  /** The item is in no list it could disturb: its links, left over from a list it was removed
      from, point outside `items` at neighbours that already bypass it. */
  ghost predicate Detached(items: set<Item>, ni: Item)
    reads ni, ni.next, ni.prev
  {
    && ni !in items
    && (ni.prev != null ==> ni.prev !in items && ni.prev != ni && ni.prev.next == ni.next)
    && (ni.next != null ==> ni.next !in items && ni.next != ni && ni.next.prev == ni.prev)
  }

  ghost function NonNull(x: Item?): set<Item> { if x == null then {} else {x} }

  /** The first half of both list operations: the neighbours of the item bypass it. */
  method Bypass(ghost head: Item?, ghost order: seq<Item>, ghost items: set<Item>, ghost k: nat, ni: Item)
    requires Linked(head, order) && k <= |order| && forall i :: 0 <= i < |order| ==> order[i] in items
    requires if k < |order| then ni == order[k] else Detached(items, ni)
    modifies items`next, items`prev, NonNull(ni.prev)`next, NonNull(ni.next)`prev
    ensures k < |order| ==> Linked(if k == 0 then ni.next else head, CutOut(order, k)) && Detached({}, ni)
    ensures k == |order| ==> Linked(head, order) && Detached(items, ni)
    ensures ni.next == old(ni.next) && ni.prev == old(ni.prev)
    ensures k == |order| && ni.prev != null ==> ni.prev.next == old(ni.prev.next)
    ensures k == |order| && ni.next != null ==> ni.next.prev == old(ni.next.prev)
  {
    hide Linked, CutOut;
    if k < |order| {
      LinksOf(head, order);
    }
    if ni.prev != null {
      ni.prev.next := ni.next;
    }
    if ni.next != null {
      ni.next.prev := ni.prev;
    }
    if k < |order| {
      Bypassed(head, order, k);
    }
  }

  ghost function NextIn(order: seq<Item>, i: nat): Item? { if i + 1 < |order| then order[i + 1] else null }

  ghost function PrevIn(order: seq<Item>, i: nat): Item? { if 0 < i <= |order| then order[i - 1] else null }

  lemma LinksOf(head: Item?, order: seq<Item>)
    requires Linked(head, order)
    ensures Distinct(order) && (order != [] ==> head == order[0])
    ensures forall i :: 0 <= i < |order| ==> order[i].next == NextIn(order, i) && order[i].prev == PrevIn(order, i)
  {
  }

  lemma LinkedBy(head: Item?, order: seq<Item>)
    requires Distinct(order) && head == if order == [] then null else order[0]
    requires forall i :: 0 <= i < |order| ==> order[i].next == NextIn(order, i) && order[i].prev == PrevIn(order, i)
    ensures Linked(head, order)
  {
  }

  /** The neighbours of one item have closed the gap. */
  lemma Bypassed(head: Item?, order: seq<Item>, k: nat)
    requires Distinct(order) && k < |order| && head == order[0]
    requires forall i :: 0 <= i < |order| ==> order[i].next == NextIn(order, if i + 1 == k then k else i)
    requires forall i :: 0 <= i < |order| ==> order[i].prev == PrevIn(order, if i == k + 1 then k else i)
    ensures Linked(if k == 0 then order[k].next else head, CutOut(order, k)) && Detached({}, order[k])
  {
    hide Linked, Distinct, NextIn, PrevIn;
    var w := CutOut(order, k);
    DistinctCut(order, k);
    forall j | 0 <= j < |w| ensures w[j].next == NextIn(w, j) && w[j].prev == PrevIn(w, j) {
      BypassedLinks(order, k, j, if j < k then j else j + 1);
    }
    FirstOfCut(order, k);
    LinkedBy(if k == 0 then order[k].next else head, w);
    BypassedDetached(order, k);
  }

  lemma FirstOfCut(order: seq<Item>, k: nat)
    requires k < |order|
    ensures var w := CutOut(order, k);
      (if k == 0 then NextIn(order, 0) else order[0]) == if w == [] then null else w[0]
  {
  }

  lemma BypassedLinks(order: seq<Item>, k: nat, j: nat, i: nat)
    requires k < |order| && j < |order| - 1 && i == if j < k then j else j + 1
    requires order[i].next == NextIn(order, if i + 1 == k then k else i)
    requires order[i].prev == PrevIn(order, if i == k + 1 then k else i)
    ensures var w := CutOut(order, k); w[j].next == NextIn(w, j) && w[j].prev == PrevIn(w, j)
  {
    var w := CutOut(order, k);
    assert w[j] == order[i];
    assert j + 1 < |w| ==> w[j + 1] == order[if j + 1 < k then j + 1 else j + 2];
    assert j > 0 ==> w[j - 1] == order[if j - 1 < k then j - 1 else j];
  }

  lemma BypassedDetached(order: seq<Item>, k: nat)
    requires Distinct(order) && k < |order|
    requires forall i :: 0 <= i < |order| ==> order[i].next == NextIn(order, if i + 1 == k then k else i)
    requires forall i :: 0 <= i < |order| ==> order[i].prev == PrevIn(order, if i == k + 1 then k else i)
    ensures Detached({}, order[k])
  {
    assert k > 0 ==> order[k].prev == order[k - 1] && order[k - 1].next == NextIn(order, k);
    assert k + 1 < |order| ==> order[k].next == order[k + 1] && order[k + 1].prev == PrevIn(order, k);
  }

  lemma DistinctCut(order: seq<Item>, k: nat)
    requires Distinct(order) && k < |order|
    ensures Distinct(CutOut(order, k))
  {
    var w := CutOut(order, k);
    forall i, j | 0 <= i < j < |w| ensures w[i] != w[j] {
      assert w[i] == order[if i < k then i else i + 1] && w[j] == order[if j < k then j else j + 1];
    }
  }

  /** The second half of moveNodeInfoToHead. */
  method PushFront(head: Item?, ghost order: seq<Item>, ni: Item)
    requires Linked(head, order) && forall i :: 0 <= i < |order| ==> order[i] != ni
    modifies ni`next, ni`prev, NonNull(head)`prev
    ensures Linked(ni, [ni] + order)
  {
    if head != null {
      head.prev := ni;
    }
    ni.next := head;
    ni.prev := null;
  }

  ghost function Moved(order: seq<Item>, k: nat, ni: Item): seq<Item>
    requires k <= |order|
  {
    [ni] + if k < |order| then CutOut(order, k) else order
  }

  /** moveNodeInfoToHead: moves item number `k` to the front, or inserts a detached item there
      (`k` is then the length). The left-over links of a detached item are written through,
      which changes nothing. */
  method MoveToHead(head: Item?, ghost order: seq<Item>, ghost items: set<Item>, ghost k: nat, ni: Item)
    requires Linked(head, order) && k <= |order| && forall i :: 0 <= i < |order| ==> order[i] in items
    requires if k < |order| then ni == order[k] else Detached(items, ni)
    modifies items`next, items`prev, ni`next, ni`prev, NonNull(ni.prev)`next, NonNull(ni.next)`prev
    ensures Linked(ni, Moved(order, k, ni))
    ensures k == |order| && old(ni.prev) != null ==> old(ni.prev).next == old(ni.prev.next)
    ensures k == |order| && old(ni.next) != null ==> old(ni.next).prev == old(ni.next.prev)
  {
    hide Linked;
    HeadFacts(head, order);
    DistinctFacts(head, order, k);
    if ni == head {
      assert Moved(order, k, ni) == order;
      return;
    }
    Bypass(head, order, items, k, ni);
    PushFront(head, if k < |order| then CutOut(order, k) else order, ni);
  }

  lemma MovedIn(order: seq<Item>, ni: Item)
    ensures Moved(order, |order|, ni) == [ni] + order
  {
  }

  lemma HeadFacts(head: Item?, order: seq<Item>)
    requires Linked(head, order)
    ensures head == if order == [] then null else order[0]
  {
  }

  lemma DistinctFacts(head: Item?, order: seq<Item>, k: nat)
    requires Linked(head, order)
    ensures k < |order| ==> forall i :: 0 <= i < |order| - 1 ==> CutOut(order, k)[i] != order[k]
    ensures k < |order| ==> (order[k] == head <==> k == 0)
  {
  }

  lemma Neighbours(head: Item?, order: seq<Item>, k: nat)
    requires Linked(head, order) && k < |order|
    ensures order[k].prev == if k > 0 then order[k - 1] else null
    ensures order[k].next == if k + 1 < |order| then order[k + 1] else null
  {
  }

  lemma DetachedFrom(items: set<Item>, others: set<Item>, ni: Item)
    requires Detached({}, ni) && items !! others && ni !in items
    requires ni.prev != null ==> ni.prev in others
    requires ni.next != null ==> ni.next in others
    ensures Detached(items, ni)
  {
  }
}
