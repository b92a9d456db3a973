/** Sums over the entries of a finite map. */
module Totals {

  datatype Option<+T> = None | Some(value: T)

  /** The sum of `weigh(k, m[k])` over the keys of `m`. */
  ghost function Total<V>(m: map<string, V>, weigh: (string, V) -> nat): nat
    decreases |m|
  {
    if m == map[] then 0 else
    var k :| k in m;
    weigh(k, m[k]) + Total(m - {k}, weigh)
  }

  lemma {:induction false} TotalSplit<V>(m: map<string, V>, k: string, weigh: (string, V) -> nat)
    requires k in m
    ensures Total(m, weigh) == weigh(k, m[k]) + Total(m - {k}, weigh)
    decreases |m|
  {
    var first :| first in m && Total(m, weigh) == weigh(first, m[first]) + Total(m - {first}, weigh);
    if first != k {
      TotalSplit(m - {first}, k, weigh);
      TotalSplit(m - {k}, first, weigh);
      assert m - {first} - {k} == m - {k} - {first};
    }
  }

  lemma TotalInsert<V>(m: map<string, V>, k: string, v: V, weigh: (string, V) -> nat)
    requires k !in m
    ensures Total(m[k := v], weigh) == Total(m, weigh) + weigh(k, v)
  {
    TotalSplit(m[k := v], k, weigh);
    assert m[k := v] - {k} == m;
  }

  /** A lighter weighing gives a smaller total. */
  lemma {:induction false} TotalMonotone<V>(m: map<string, V>, light: (string, V) -> nat, heavy: (string, V) -> nat)
    requires forall k :: k in m ==> light(k, m[k]) <= heavy(k, m[k])
    ensures Total(m, light) <= Total(m, heavy)
    decreases |m|
  {
    if m != map[] {
      var k :| k in m;
      TotalSplit(m, k, light);
      TotalSplit(m, k, heavy);
      TotalMonotone(m - {k}, light, heavy);
    }
  }

  /** Two weighings that differ only at `k`. */
  lemma TotalReweigh<V>(m: map<string, V>, k: string, before: (string, V) -> nat, after: (string, V) -> nat)
    requires k in m
    requires forall j :: j in m && j != k ==> before(j, m[j]) == after(j, m[j])
    ensures Total(m, after) + before(k, m[k]) == Total(m, before) + after(k, m[k])
  {
    TotalSplit(m, k, before);
    TotalSplit(m, k, after);
    TotalMonotone(m - {k}, before, after);
    TotalMonotone(m - {k}, after, before);
  }

  /** Dropping entries never raises the total. */
  lemma {:induction false} TotalSubmap<V>(small: map<string, V>, large: map<string, V>, weigh: (string, V) -> nat)
    requires forall k :: k in small ==> k in large && small[k] == large[k]
    ensures Total(small, weigh) <= Total(large, weigh)
    decreases |small|
  {
    if small != map[] {
      var k :| k in small;
      TotalSplit(small, k, weigh);
      TotalSplit(large, k, weigh);
      TotalSubmap(small - {k}, large - {k}, weigh);
    }
  }
}
