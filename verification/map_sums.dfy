/** Sums over the values of a finite map, in no particular order. */
module MapSums {

  ghost function Sum<K, V>(m: map<K, V>, w: V -> int): int
    decreases |m|
  {
    if m == map[] then 0
    else
      var k :| k in m;
      w(m[k]) + Sum(m - {k}, w)
  }

  /** Any key can be taken out first. */
  lemma {:induction false} SumTakeOut<K, V>(m: map<K, V>, w: V -> int, k: K)
    requires k in m
    ensures Sum(m, w) == w(m[k]) + Sum(m - {k}, w)
    decreases |m|
  {
    var j :| j in m && Sum(m, w) == w(m[j]) + Sum(m - {j}, w);
    if j != k {
      SumTakeOut(m - {j}, w, k);
      SumTakeOut(m - {k}, w, j);
      assert m - {j} - {k} == m - {k} - {j};
    }
  }

  lemma SumPut<K, V>(m: map<K, V>, w: V -> int, k: K, v: V)
    ensures Sum(m[k := v], w) == Sum(m, w) + w(v) - if k in m then w(m[k]) else 0
  {
    SumTakeOut(m[k := v], w, k);
    assert m[k := v] - {k} == m - {k};
    if k in m {
      SumTakeOut(m, w, k);
    } else {
      assert m - {k} == m;
    }
  }

  lemma SumDrop<K, V>(m: map<K, V>, w: V -> int, k: K)
    ensures Sum(m - {k}, w) == Sum(m, w) - if k in m then w(m[k]) else 0
  {
    if k in m {
      SumTakeOut(m, w, k);
    } else {
      assert m - {k} == m;
    }
  }

  lemma {:induction false} SumOfZeros<K, V>(m: map<K, V>, w: V -> int)
    requires forall k :: k in m ==> w(m[k]) == 0
    ensures Sum(m, w) == 0
    decreases |m|
  {
    if k :| k in m {
      SumTakeOut(m, w, k);
      SumOfZeros(m - {k}, w);
    }
  }
}
