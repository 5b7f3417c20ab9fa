/** Sums over finite maps, for the ledgers whose stored totals must equal them. */
module MapSum {
  import opened Numeric
  import opened Sequences

  ghost function Sum<K(!new)>(m: map<K, int>): int {
    if m == map[] then 0
    else
      var k :| k in m;
      m[k] + Sum(m - {k})
  }

  /** Any key can be taken out first. */
  lemma {:induction false} SumRemove<K(!new)>(m: map<K, int>, k: K)
    requires k in m
    ensures Sum(m) == m[k] + Sum(m - {k})
    decreases |m|
  {
    var j :| j in m && Sum(m) == m[j] + Sum(m - {j});
    if j != k {
      SumRemove(m - {j}, k);
      SumRemove(m - {k}, j);
      assert m - {j} - {k} == m - {k} - {j};
    }
  }

  function Get<K>(m: map<K, int>, k: K): int {
    if k in m then m[k] else 0
  }

  /** Writing one key moves the sum by the change at that key. */
  lemma SumPut<K(!new)>(m: map<K, int>, k: K, v: int)
    ensures Sum(m[k := v]) == Sum(m) - Get(m, k) + v
  {
    SumRemove(m[k := v], k);
    if k in m {
      SumRemove(m, k);
      assert m[k := v] - {k} == m - {k};
    } else {
      assert m[k := v] - {k} == m;
    }
  }

  lemma {:induction false} SumNonNegative<K(!new)>(m: map<K, int>)
    requires forall k :: k in m ==> m[k] >= 0
    ensures Sum(m) >= 0
    decreases |m|
  {
    if m == map[] {
    } else {
      var k :| k in m;
      SumRemove(m, k);
      SumNonNegative(m - {k});
    }
  }

  lemma SumAtLeast<K(!new)>(m: map<K, int>, k: K)
    requires forall j :: j in m ==> m[j] >= 0
    ensures Get(m, k) <= Sum(m)
  {
    if k in m {
      SumRemove(m, k);
      SumNonNegative(m - {k});
    } else {
      SumNonNegative(m);
    }
  }

  /** Sum of the values at the listed keys, in order; a missing key counts zero. */
  function SumAlong<K>(s: seq<K>, m: map<K, int>): int {
    if s == [] then 0 else SumAlong(s[..|s| - 1], m) + Get(m, s[|s| - 1])
  }

  /** Summing along a duplicate-free list that misses no non-zero key sums the whole map. */
  lemma {:induction false} SumAlongIsSum<K(!new)>(s: seq<K>, m: map<K, int>)
    requires Distinct(s)
    requires forall k :: k in m && m[k] != 0 ==> k in s
    ensures SumAlong(s, m) == Sum(m)
    decreases |s|
  {
    if s == [] {
      SumOfZeros(m);
    } else {
      var front, last := s[..|s| - 1], s[|s| - 1];
      var rest := m - {last};
      assert s == front + [last];
      SumAlongIsSum(front, rest);
      SumAlongAgrees(front, m, rest);
      if last in m {
        SumRemove(m, last);
      } else {
        assert rest == m;
      }
    }
  }

  lemma {:induction false} SumOfZeros<K(!new)>(m: map<K, int>)
    requires forall k :: k in m ==> m[k] == 0
    ensures Sum(m) == 0
    decreases |m|
  {
    if m == map[] {
    } else {
      var k :| k in m;
      SumRemove(m, k);
      SumOfZeros(m - {k});
    }
  }

  lemma {:induction false} SumAlongAgrees<K>(s: seq<K>, m: map<K, int>, m': map<K, int>)
    requires forall i :: 0 <= i < |s| ==> Get(m, s[i]) == Get(m', s[i])
    ensures SumAlong(s, m) == SumAlong(s, m')
  {
    if s == [] {
    } else {
      SumAlongAgrees(s[..|s| - 1], m, m');
    }
  }
}
