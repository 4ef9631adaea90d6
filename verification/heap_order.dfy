/** Binary-heap order on a sequence, and what single sift steps do to it. */
module HeapOrders {
  import opened PodOrders

  function Parent(k: nat): nat
    requires k > 0
  {
    (k - 1) / 2
  }

  /** The first `n` items are in heap order. */
  ghost predicate HeapTo<T(!new)>(less: (T, T) -> bool, s: seq<T>, n: nat)
    requires n <= |s|
  {
    forall k {:trigger s[k]} :: 0 < k < n ==> !less(s[k], s[Parent(k)])
  }

  /** The children of `i` are in order with the parent of `i`. */
  ghost predicate Bridged<T(!new)>(less: (T, T) -> bool, s: seq<T>, n: nat, i: nat)
    requires n <= |s|
  {
    forall k {:trigger s[k]} :: 0 < k < n && 0 < i && Parent(k) == i && i < n ==> !less(s[k], s[Parent(i)])
  }

  /** Order may be broken at `i` only, in either direction. */
  ghost predicate BrokenAt<T(!new)>(less: (T, T) -> bool, s: seq<T>, n: nat, i: nat)
    requires n <= |s|
  {
    && (forall k {:trigger s[k]} :: 0 < k < n && k != i && Parent(k) != i ==> !less(s[k], s[Parent(k)]))
    && Bridged(less, s, n, i)
  }

  /** Order may be broken between `i` and its parent only. */
  ghost predicate BrokenUp<T(!new)>(less: (T, T) -> bool, s: seq<T>, n: nat, i: nat)
    requires n <= |s|
  {
    && (forall k {:trigger s[k]} :: 0 < k < n && k != i ==> !less(s[k], s[Parent(k)]))
    && Bridged(less, s, n, i)
  }

  /** Order may be broken between `i` and its children only. */
  ghost predicate BrokenDown<T(!new)>(less: (T, T) -> bool, s: seq<T>, n: nat, i: nat)
    requires n <= |s|
  {
    && (forall k {:trigger s[k]} :: 0 < k < n && Parent(k) != i ==> !less(s[k], s[Parent(k)]))
    && Bridged(less, s, n, i)
  }

  function Swapped<T>(s: seq<T>, i: nat, j: nat): (r: seq<T>)
    requires i < |s| && j < |s|
    ensures |r| == |s| && forall k :: 0 <= k < |s| ==> r[k] == if k == i then s[j] else if k == j then s[i] else s[k]
  {
    s[i := s[j]][j := s[i]]
  }

  lemma SiftUp<T(!new)>(less: (T, T) -> bool, s: seq<T>, n: nat, j: nat)
    requires StrictWeakOrder(less) && n <= |s| && 0 < j < n
    requires BrokenUp(less, s, n, j) && less(s[j], s[Parent(j)])
    ensures BrokenUp(less, Swapped(s, Parent(j), j), n, Parent(j))
  {
    var p := Parent(j);
    var r := Swapped(s, p, j);
    forall k | 0 < k < n && k != p ensures !less(r[k], r[Parent(k)]) {
      assert k != j ==> !less(s[k], s[Parent(k)]);
    }
    forall k | 0 < k < n && 0 < p && Parent(k) == p ensures !less(r[k], r[Parent(p)]) {
      assert !less(s[p], s[Parent(p)]);
      assert k != j ==> !less(s[k], s[p]);
    }
  }

  lemma SiftDown<T(!new)>(less: (T, T) -> bool, s: seq<T>, n: nat, i: nat, j: nat)
    requires StrictWeakOrder(less) && n <= |s| && i < j < n && Parent(j) == i
    requires BrokenAt(less, s, n, i) && less(s[j], s[i])
    requires forall k {:trigger s[k]} :: 0 < k < n && Parent(k) == i ==> !less(s[k], s[j])
    ensures BrokenDown(less, Swapped(s, i, j), n, j) && BrokenAt(less, Swapped(s, i, j), n, j)
  {
    var r := Swapped(s, i, j);
    forall k | 0 < k < n && Parent(k) != j ensures !less(r[k], r[Parent(k)]) {
      assert k != i && Parent(k) != i ==> !less(s[k], s[Parent(k)]);
      assert k == i ==> !less(s[j], s[Parent(i)]);
    }
    forall k | 0 < k < n && Parent(k) == j ensures !less(r[k], r[i]) {
      assert !less(s[k], s[j]);
    }
  }

  /** The child that down compares with the item at `i`. */
  function LesserChild<T>(less: (T, T) -> bool, s: seq<T>, n: nat, i: nat): nat
    requires 2 * i + 1 < n <= |s|
  {
    if 2 * i + 2 < n && less(s[2 * i + 2], s[2 * i + 1]) then 2 * i + 2 else 2 * i + 1
  }

  lemma LesserChildIsLeast<T(!new)>(less: (T, T) -> bool, s: seq<T>, n: nat, i: nat)
    requires StrictWeakOrder(less) && 2 * i + 1 < n <= |s|
    ensures Parent(LesserChild(less, s, n, i)) == i
    ensures forall k {:trigger s[k]} :: 0 < k < n && Parent(k) == i ==> !less(s[k], s[LesserChild(less, s, n, i)])
  {
  }

  lemma HeapOfPrefix<T(!new)>(less: (T, T) -> bool, s: seq<T>, n: nat)
    requires n <= |s| && HeapTo(less, s, n)
    ensures HeapTo(less, s[..n], n)
  {
    forall k | 0 < k < n ensures !less(s[..n][k], s[..n][Parent(k)]) {
      assert s[..n][k] == s[k] && s[..n][Parent(k)] == s[Parent(k)];
    }
  }

  /** Where down stops, nothing is broken below. */
  lemma DownStops<T(!new)>(less: (T, T) -> bool, s: seq<T>, n: nat, i: nat)
    requires StrictWeakOrder(less) && n <= |s| && BrokenAt(less, s, n, i)
    requires 2 * i + 1 < n ==> !less(s[LesserChild(less, s, n, i)], s[i])
    ensures BrokenUp(less, s, n, i)
    ensures BrokenDown(less, s, n, i) ==> HeapTo(less, s, n)
  {
    forall k | 0 < k < n && Parent(k) == i ensures !less(s[k], s[i]) {
      LesserChildIsLeast(less, s, n, i);
      assert !less(s[k], s[LesserChild(less, s, n, i)]);
    }
  }

  /** Writing one item leaves the order broken there at most. */
  lemma WriteBreaksOnce<T(!new)>(less: (T, T) -> bool, s: seq<T>, n: nat, i: nat, x: T)
    requires StrictWeakOrder(less) && n <= |s| && i < n && HeapTo(less, s, n)
    ensures BrokenAt(less, s[i := x], n, i)
  {
    var r := s[i := x];
    forall k | 0 < k < n && 0 < i && Parent(k) == i ensures !less(r[k], r[Parent(i)]) {
      assert !less(s[k], s[i]) && !less(s[i], s[Parent(i)]);
    }
    forall k | 0 < k < n && k != i && Parent(k) != i ensures !less(r[k], r[Parent(k)]) {
      assert !less(s[k], s[Parent(k)]);
    }
  }

  /** Swapping an item with the last one leaves the rest broken there at most. */
  lemma SwapOutBreaksOnce<T(!new)>(less: (T, T) -> bool, s: seq<T>, i: nat)
    requires StrictWeakOrder(less) && i < |s| && HeapTo(less, s, |s|)
    ensures BrokenAt(less, Swapped(s, i, |s| - 1), |s| - 1, i)
    ensures HeapTo(less, s, |s| - 1)
  {
    hide StrictWeakOrder, BrokenAt;
    var n := |s| - 1;
    if i < n {
      WriteBreaksOnce(less, s, n, i, s[n]);
      SamePrefixBroken(less, s[i := s[n]], Swapped(s, i, n), n, i);
    } else {
      HeapIsBroken(less, s, n, i);
      SamePrefixBroken(less, s, Swapped(s, i, n), n, i);
    }
  }

  lemma HeapIsBroken<T(!new)>(less: (T, T) -> bool, s: seq<T>, n: nat, i: nat)
    requires n <= i && n <= |s| && HeapTo(less, s, n)
    ensures BrokenAt(less, s, n, i)
  {
  }

  lemma SamePrefixBroken<T(!new)>(less: (T, T) -> bool, s: seq<T>, r: seq<T>, n: nat, i: nat)
    requires n <= |s| && n <= |r| && (forall k :: 0 <= k < n ==> r[k] == s[k]) && BrokenAt(less, s, n, i)
    ensures BrokenAt(less, r, n, i)
  {
    forall k | 0 < k < n ensures r[k] == s[k] && r[Parent(k)] == s[Parent(k)] {
    }
  }

  /** The two items compare alike with every item. */
  ghost predicate SameRank<T(!new)>(less: (T, T) -> bool, x: T, y: T) {
    !less(x, y) && !less(y, x)
  }

  /** Writing an item that compares alike keeps the order. */
  lemma WriteSameRank<T(!new)>(less: (T, T) -> bool, s: seq<T>, n: nat, i: nat, x: T)
    requires StrictWeakOrder(less) && n <= |s| && i < n && HeapTo(less, s, n)
    ensures SameRank(less, s[i], x) ==> HeapTo(less, s[i := x], n)
  {
    hide StrictWeakOrder;
    var r := s[i := x];
    if SameRank(less, s[i], x) {
      forall k | 0 < k < n ensures !less(r[k], r[Parent(k)]) {
        assert !less(s[k], s[Parent(k)]);
        if k == i {
          NotBeforeEither(less, x, s[i], s[Parent(k)]);
        } else if Parent(k) == i {
          NotBeforeEither(less, s[k], s[i], x);
        }
      }
    }
  }

  lemma NotBeforeEither<T(!new)>(less: (T, T) -> bool, x: T, y: T, z: T)
    requires StrictWeakOrder(less) && !less(x, y) && !less(y, z)
    ensures !less(x, z)
  {
  }

  lemma WriteStaysBroken<T(!new)>(less: (T, T) -> bool, s: seq<T>, n: nat, i: nat, x: T)
    requires n <= |s| && i < n && BrokenAt(less, s, n, i)
    ensures BrokenAt(less, s[i := x], n, i)
  {
    var r := s[i := x];
    forall k | 0 < k < n && k != i && Parent(k) != i ensures !less(r[k], r[Parent(k)]) {
      assert !less(s[k], s[Parent(k)]);
    }
    forall k | 0 < k < n && 0 < i && Parent(k) == i ensures !less(r[k], r[Parent(i)]) {
      assert !less(s[k], s[Parent(i)]);
    }
  }

  /** The root has no parent to be out of order with. */
  lemma NothingAboveRoot<T(!new)>(less: (T, T) -> bool, s: seq<T>, n: nat)
    requires n <= |s|
    ensures BrokenUp(less, s, n, 0) ==> HeapTo(less, s, n)
  {
  }

  lemma AppendBreaksUp<T(!new)>(less: (T, T) -> bool, s: seq<T>, x: T)
    requires HeapTo(less, s, |s|)
    ensures BrokenUp(less, s + [x], |s| + 1, |s|)
  {
    var r := s + [x];
    forall k | 0 < k < |s| ensures !less(r[k], r[Parent(k)]) {
      assert !less(s[k], s[Parent(k)]);
    }
  }

  /** The first item of a heap is a least one. */
  lemma {:induction false} FirstIsLeast<T(!new)>(less: (T, T) -> bool, s: seq<T>, n: nat, k: nat)
    requires StrictWeakOrder(less) && n <= |s| && HeapTo(less, s, n) && k < n
    ensures !less(s[k], s[0])
  {
    if k > 0 {
      FirstIsLeast(less, s, n, Parent(k));
      assert !less(s[k], s[Parent(k)]);
    }
  }
}
