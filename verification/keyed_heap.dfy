/** The keyed heap (pkg/scheduler/util/heap.go), with the sift operations of Go's container/heap
    that it calls. It refines a map from keys to objects with a least element. */
module KeyedHeaps {
  import opened Api
  import opened PodOrders
  import opened HeapOrders

  datatype HeapItem<T> = HeapItem(obj: T, index: nat)

  /** Keys and positions correspond one to one. */
  ghost predicate Indexed<T>(items: map<string, HeapItem<T>>, queue: seq<string>) {
    && (forall i :: 0 <= i < |queue| ==> queue[i] in items && items[queue[i]].index == i)
    && (forall k :: k in items ==> items[k].index < |queue| && queue[items[k].index] == k)
  }

  /** The objects in queue order. */
  ghost function Objs<T>(items: map<string, HeapItem<T>>, queue: seq<string>): (s: seq<T>)
    requires Indexed(items, queue)
    ensures |s| == |queue| && forall i :: 0 <= i < |queue| ==> s[i] == items[queue[i]].obj
  {
    seq(|queue|, i requires 0 <= i < |queue| => items[queue[i]].obj)
  }

  ghost function Stored<T>(items: map<string, HeapItem<T>>): (m: map<string, T>)
    ensures m.Keys == items.Keys && forall k :: k in items ==> m[k] == items[k].obj
  {
    map k | k in items :: items[k].obj
  }

  function Reindexed<T>(items: map<string, HeapItem<T>>, key: string, i: nat): map<string, HeapItem<T>>
    requires key in items
  {
    items[key := items[key].(index := i)]
  }

  lemma SwapIndexed<T>(items: map<string, HeapItem<T>>, queue: seq<string>, i: nat, j: nat)
    requires Indexed(items, queue) && i < |queue| && j < |queue|
    ensures Indexed(Reindexed(Reindexed(items, queue[j], i), queue[i], j), Swapped(queue, i, j))
  {
    var r, q := Reindexed(Reindexed(items, queue[j], i), queue[i], j), Swapped(queue, i, j);
    forall k | k in r ensures r[k].index < |q| && q[r[k].index] == k {
      assert queue[items[k].index] == k;
    }
  }

  lemma AppendIndexed<T>(items: map<string, HeapItem<T>>, queue: seq<string>, key: string, obj: T)
    requires Indexed(items, queue) && key !in items
    ensures var added, longer := items[key := HeapItem(obj, |queue|)], queue + [key];
      && Indexed(added, longer)
      && Objs(added, longer) == Objs(items, queue) + [obj]
      && Stored(added) == Stored(items)[key := obj]
  {
  }

  lemma LastDropped<T>(items: map<string, HeapItem<T>>, queue: seq<string>)
    requires Indexed(items, queue) && |queue| > 0
    ensures var n := |queue| - 1;
      var rest, shorter := items - {queue[n]}, queue[..n];
      && queue[n] in items && Indexed(rest, shorter) && Objs(rest, shorter) == Objs(items, queue)[..n]
      && Stored(rest) == Stored(items) - {queue[n]}
  {
    var n := |queue| - 1;
    var rest, shorter := items - {queue[n]}, queue[..n];
    forall i | 0 <= i < n ensures shorter[i] in rest && rest[shorter[i]].index == i {
      assert shorter[i] == queue[i] && items[queue[i]].index == i && items[queue[n]].index == n;
    }
    forall k | k in rest ensures rest[k].index < n && shorter[rest[k].index] == k {
      assert queue[items[k].index] == k;
    }
  }

  lemma OverwriteIndexed<T>(items: map<string, HeapItem<T>>, queue: seq<string>, key: string, obj: T)
    requires Indexed(items, queue) && key in items
    ensures var changed := items[key := items[key].(obj := obj)];
      && Indexed(changed, queue)
      && items[key].index < |queue|
      && Objs(changed, queue) == Objs(items, queue)[items[key].index := obj]
      && Stored(changed) == Stored(items)[key := obj]
  {
  }

  lemma ReindexedKeeps<T>(items: map<string, HeapItem<T>>, key: string, i: nat)
    requires key in items
    ensures Reindexed(items, key, i).Keys == items.Keys
    ensures forall k :: k in items ==> Reindexed(items, key, i)[k].obj == items[k].obj
    ensures Stored(Reindexed(items, key, i)) == Stored(items)
  {
  }

  class Heap<T(!new)> {
    var items: map<string, HeapItem<T>>
    var queue: seq<string>
    const keyOf: T -> Option<string>
    const less: (T, T) -> bool

    /** What callers see: the objects by key. */
    ghost function Contents(): map<string, T>
      reads this
    {
      Stored(items)
    }

    /** The stored key of an object is its own, and the comparison is a strict weak order. */
    ghost predicate Keyed()
      reads this
    {
      && Indexed(items, queue) && StrictWeakOrder(less)
      && forall k :: k in items ==> keyOf(items[k].obj) == Some(k)
    }

    ghost predicate Valid()
      reads this
    {
      Keyed() && HeapTo(less, Objs(items, queue), |queue|)
    }

    /** Valid, except that the object of one key may have changed since it was put in order. */
    ghost predicate ValidBut(key: string)
      reads this
    {
      && Keyed()
      && if key in items then BrokenAt(less, Objs(items, queue), |queue|, items[key].index)
         else HeapTo(less, Objs(items, queue), |queue|)
    }

    lemma StillKeyed(key: string)
      requires ValidBut(key)
      ensures Keyed()
    {
    }

    lemma ValidIsValidBut(key: string)
      requires Valid()
      ensures Keyed() && ValidBut(key)
    {
      if key in items {
        var s, i := Objs(items, queue), items[key].index;
        WriteBreaksOnce(less, s, |queue|, i, s[i]);
        assert s[i := s[i]] == s;
      }
    }

    constructor (keyOf: T -> Option<string>, less: (T, T) -> bool)
      requires StrictWeakOrder(less)
      ensures Valid() && Contents() == map[] && this.keyOf == keyOf && this.less == less
    {
      this.keyOf, this.less, this.items, this.queue := keyOf, less, map[], [];
    }

    // ----- heap.Interface -----

    method Swap(i: nat, j: nat)
      requires Keyed() && i < |queue| && j < |queue|
      modifies this
      ensures Keyed() && Contents() == old(Contents()) && queue == Swapped(old(queue), i, j)
      ensures Objs(items, queue) == Swapped(old(Objs(items, queue)), i, j)
    {
      hide StrictWeakOrder, Indexed, Stored, Reindexed;
      ItemsAreThere();
      SwapIndexed(items, queue, i, j);
      ReindexedKeeps(items, queue[j], i);
      ReindexedKeeps(Reindexed(items, queue[j], i), queue[i], j);
      queue := Swapped(queue, i, j);
      items := Reindexed(items, queue[i], i);
      items := Reindexed(items, queue[j], j);
    }

    predicate Less(i: nat, j: nat)
      requires Keyed() && i < |queue| && j < |queue|
      reads this
      ensures Less(i, j) == less(Objs(items, queue)[i], Objs(items, queue)[j])
    {
      less(items[queue[i]].obj, items[queue[j]].obj)
    }

    // ----- container/heap -----

    method Up(start: nat, ghost n: nat)
      requires Keyed() && start < n <= |queue| && BrokenUp(less, Objs(items, queue), n, start)
      modifies this
      ensures Keyed() && Contents() == old(Contents())
      ensures |queue| == old(|queue|) && forall k :: start < k < |queue| ==> queue[k] == old(queue)[k]
      ensures HeapTo(less, Objs(items, queue), n)
    {
      hide StrictWeakOrder, Indexed, Stored, Bridged;
      var j: nat := start;
      while true
        invariant Keyed() && Contents() == old(Contents())
        invariant j <= start && |queue| == old(|queue|) && forall k :: start < k < |queue| ==> queue[k] == old(queue)[k]
        invariant BrokenUp(less, Objs(items, queue), n, j)
        decreases j
      {
        var i := if j == 0 then 0 else (j - 1) / 2;
        if i == j || !Less(j, i) {
          break;
        }
        SiftUp(less, Objs(items, queue), n, j);
        Swap(i, j);
        j := i;
      }
    }

    /** Every position holds the key of a stored object. */
    lemma ItemsAreThere()
      requires Keyed()
      ensures Contents() != map[] ==> |queue| > 0
      ensures forall i :: 0 <= i < |queue| ==>
        queue[i] in items && items[queue[i]].index == i && keyOf(items[queue[i]].obj) == Some(queue[i])
    {
      assert Contents() != map[] ==> exists k :: k in items;
    }

    method Down(start: nat, n: nat) returns (moved: bool)
      requires Keyed() && n <= |queue| && BrokenAt(less, Objs(items, queue), n, start)
      modifies this
      ensures Keyed() && Contents() == old(Contents())
      ensures |queue| == old(|queue|) && forall k :: n <= k < |queue| ==> queue[k] == old(queue)[k]
      ensures moved ==> HeapTo(less, Objs(items, queue), n)
      ensures !moved ==> BrokenUp(less, Objs(items, queue), n, start) && queue == old(queue)
    {
      hide StrictWeakOrder, Indexed, Stored, Swapped, BrokenAt, BrokenUp, BrokenDown, HeapTo;
      var i := start;
      while true
        invariant Keyed() && Contents() == old(Contents())
        invariant start <= i && |queue| == old(|queue|) && forall k :: n <= k < |queue| ==> queue[k] == old(queue)[k]
        invariant i == start ==> queue == old(queue)
        invariant i > start ==> BrokenDown(less, Objs(items, queue), n, i)
        invariant BrokenAt(less, Objs(items, queue), n, i)
        decreases n - i
      {
        var j1 := 2 * i + 1;
        if j1 >= n {
          break;
        }
        var j, j2 := j1, j1 + 1;
        if j2 < n && Less(j2, j1) {
          j := j2;
        }
        assert j == LesserChild(less, Objs(items, queue), n, i);
        LesserChildIsLeast(less, Objs(items, queue), n, i);
        if !Less(j, i) {
          break;
        }
        SiftDown(less, Objs(items, queue), n, i, j);
        Swap(i, j);
        i := j;
      }
      DownStops(less, Objs(items, queue), n, i);
      moved := i > start;
    }
  
    method Fix(i: nat)
      requires Keyed() && i < |queue| && BrokenAt(less, Objs(items, queue), |queue|, i)
      modifies this
      ensures Valid() && Contents() == old(Contents())
    {
      hide StrictWeakOrder, Indexed, Stored, BrokenAt, HeapTo, BrokenUp;
      var moved := Down(i, |queue|);
      if !moved {
        Up(i, |queue|);
      }
    }

    /** heapData.Push, then up. */
    method Push(key: string, obj: T)
      requires Valid() && key !in items && keyOf(obj) == Some(key)
      modifies this
      ensures Valid() && Contents() == old(Contents())[key := obj]
    {
      hide StrictWeakOrder, Indexed, Stored, BrokenUp, HeapTo;
      AppendIndexed(items, queue, key, obj);
      AppendBreaksUp(less, Objs(items, queue), obj);
      items := items[key := HeapItem(obj, |queue|)];
      queue := queue + [key];
      Up(|queue| - 1, |queue|);
    }

    /** heapData.Pop: drops the last position. */
    method DropLast() returns (obj: T)
      requires Keyed() && |queue| > 0 && HeapTo(less, Objs(items, queue), |queue| - 1)
      modifies this
      ensures Valid() && old(queue[|queue| - 1] in Contents()) && obj == old(Contents()[queue[|queue| - 1]])
      ensures queue == old(queue[..|queue| - 1]) && Contents() == old(Contents()) - {old(queue[|queue| - 1])}
    {
      hide StrictWeakOrder, Indexed, Stored, HeapTo;
      var key := queue[|queue| - 1];
      LastDropped(items, queue);
      HeapOfPrefix(less, Objs(items, queue), |queue| - 1);
      ItemsAreThere();
      obj := items[key].obj;
      queue := queue[..|queue| - 1];
      items := items - {key};
    }

    method RemoveAt(i: nat) returns (obj: T)
      requires Valid() && i < |queue|
      modifies this
      ensures Valid() && old(queue[i] in Contents()) && obj == old(Contents()[queue[i]])
      ensures Contents() == old(Contents()) - {old(queue[i])}
    {
      hide StrictWeakOrder, Stored, Indexed, Swapped, HeapTo, BrokenAt, BrokenUp;
      ItemsAreThere();
      var n := |queue| - 1;
      SwapOutBreaksOnce(less, Objs(items, queue), i);
      if n != i {
        Swap(i, n);
        var moved := Down(i, n);
        if !moved {
          Up(i, n);
        }
      }
      obj := DropLast();
    }

    // ----- Heap -----

    /** A caller writes to a stored object through its pointer. The heap does not notice: its order
        may be broken there until the object is added again. */
    method Overwrite(key: string, obj: T)
      requires Valid() && key in Contents() && keyOf(obj) == Some(key)
      modifies this
      ensures ValidBut(key) && Contents() == old(Contents())[key := obj]
      ensures SameRank(less, old(Contents()[key]), obj) ==> Valid()
    {
      hide StrictWeakOrder, HeapTo, BrokenAt, Indexed, Stored, SameRank;
      OverwriteIndexed(items, queue, key, obj);
      WriteSameRank(less, Objs(items, queue), |queue|, items[key].index, obj);
      WriteBreaksOnce(less, Objs(items, queue), |queue|, items[key].index, obj);
      items := items[key := items[key].(obj := obj)];
    }

    /** Inserts the object, or replaces the one with its key. The one with its key may have been
        out of order. */
    method Add(obj: T) returns (ok: bool)
      requires Keyed() && if keyOf(obj).Some? then ValidBut(keyOf(obj).value) else Valid()
      modifies this
      ensures ok == keyOf(obj).Some?
      ensures Valid() && Contents() == if ok then old(Contents())[keyOf(obj).value := obj] else old(Contents())
    {
      hide StrictWeakOrder, HeapTo, BrokenAt, Indexed, Stored;
      if keyOf(obj).None? {
        return false;
      }
      var key := keyOf(obj).value;
      if key in items {
        OverwriteIndexed(items, queue, key, obj);
        WriteStaysBroken(less, Objs(items, queue), |queue|, items[key].index, obj);
        items := items[key := items[key].(obj := obj)];
        Fix(items[key].index);
      } else {
        Push(key, obj);
      }
      ok := true;
    }

    method AddIfNotPresent(obj: T) returns (ok: bool)
      requires Valid()
      modifies this
      ensures ok == keyOf(obj).Some? && Valid()
      ensures Contents()
        == if ok && keyOf(obj).value !in old(Contents()) then old(Contents())[keyOf(obj).value := obj]
           else old(Contents())
    {
      hide StrictWeakOrder, HeapTo, Indexed, Stored;
      if keyOf(obj).None? {
        return false;
      }
      if keyOf(obj).value !in items {
        Push(keyOf(obj).value, obj);
      }
      ok := true;
    }

    method Delete(obj: T) returns (ok: bool)
      requires Valid()
      modifies this
      ensures ok == (keyOf(obj).Some? && keyOf(obj).value in old(Contents())) && Valid()
      ensures Contents() == if ok then old(Contents()) - {keyOf(obj).value} else old(Contents())
    {
      hide StrictWeakOrder, HeapTo, Stored;
      if keyOf(obj).None? || keyOf(obj).value !in items {
        return false;
      }
      var removed := RemoveAt(items[keyOf(obj).value].index);
      ok := true;
    }

    /** No stored object belongs before this one. */
    ghost predicate IsLeast(obj: T)
      reads this
    {
      forall k :: k in Contents() ==> !less(Contents()[k], obj)
    }

    lemma HeadIsLeast()
      requires Valid() && |queue| > 0
      ensures queue[0] in items && IsLeast(items[queue[0]].obj)
    {
      forall k | k in items ensures !less(items[k].obj, items[queue[0]].obj) {
        FirstIsLeast(less, Objs(items, queue), |queue|, items[k].index);
      }
    }

    method Peek() returns (obj: Option<T>)
      requires Valid()
      ensures obj.None? <==> Contents() == map[]
      ensures obj.Some? ==>
        IsLeast(obj.value) && keyOf(obj.value).Some? && keyOf(obj.value).value in Contents()
          && Contents()[keyOf(obj.value).value] == obj.value
    {
      if |queue| > 0 {
        HeadIsLeast();
        obj := Some(items[queue[0]].obj);
        assert queue[0] in Contents();
      } else {
        obj := None;
      }
    }

    /** Removes a least object; container/heap panics on an empty heap. */
    method Pop() returns (obj: T, ghost key: string)
      requires Valid() && Contents() != map[]
      modifies this
      ensures Valid() && key in old(Contents()) && obj == old(Contents())[key] && keyOf(obj) == Some(key)
      ensures Contents() == old(Contents()) - {key} && old(IsLeast(Contents()[key]))
    {
      hide StrictWeakOrder, HeapTo, BrokenAt, BrokenUp, Swapped, Indexed, Stored, IsLeast;
      ItemsAreThere();
      key := queue[0];
      HeadIsLeast();
      SwapOutBreaksOnce(less, Objs(items, queue), 0);
      var n := |queue| - 1;
      Swap(0, n);
      var moved := Down(0, n);
      NothingAboveRoot(less, Objs(items, queue), n);
      obj := DropLast();
    }

    method GetByKey(key: string) returns (obj: Option<T>)
      requires Valid()
      ensures obj == if key in Contents() then Some(Contents()[key]) else None
    {
      obj := if key in items then Some(items[key].obj) else None;
    }
  }
}
