/** Shared vocabulary: optional values, totals over maps, concatenation. */
module Common {

  datatype Option<+T> = None | Some(value: T)

  function Concat<T>(ss: seq<seq<T>>): seq<T> {
    if ss == [] then [] else ss[0] + Concat(ss[1..])
  }

  lemma {:induction false} ConcatAppend<T>(a: seq<seq<T>>, b: seq<seq<T>>)
    ensures Concat(a + b) == Concat(a) + Concat(b)
  {
    if a == [] {
      assert a + b == b;
    } else {
      assert (a + b)[1..] == a[1..] + b;
      ConcatAppend(a[1..], b);
    }
  }

  lemma ConcatSnoc<T>(a: seq<seq<T>>, last: seq<T>)
    ensures Concat(a + [last]) == Concat(a) + last
  {
    ConcatAppend(a, [last]);
    assert Concat([last]) == last + Concat([]);
  }

  /** The sum of all values of a map. */
  ghost function Total<K>(m: map<K, nat>): nat
    decreases |m|
  {
    if m == map[] then 0
    else
      var k :| k in m;
      m[k] + Total(m - {k})
  }

  function ValueAt<K>(m: map<K, nat>, k: K): nat {
    if k in m then m[k] else 0
  }

  lemma {:induction false} TotalWithout<K>(m: map<K, nat>, k: K)
    ensures Total(m) == ValueAt(m, k) + Total(m - {k})
    decreases |m|
  {
    if k !in m {
      assert m - {k} == m;
    } else {
      var p :| p in m && Total(m) == m[p] + Total(m - {p});
      if p != k {
        TotalWithout(m - {p}, k);
        TotalWithout(m - {k}, p);
        assert m - {p} - {k} == m - {k} - {p};
      }
    }
  }

  lemma TotalUpdate<K>(m: map<K, nat>, k: K, v: nat)
    ensures Total(m[k := v]) + ValueAt(m, k) == Total(m) + v
  {
    TotalWithout(m, k);
    TotalWithout(m[k := v], k);
    assert m[k := v] - {k} == m - {k};
  }

  lemma {:induction false} TotalOfZeros<K>(m: map<K, nat>)
    requires forall k | k in m :: m[k] == 0
    ensures Total(m) == 0
    decreases |m|
  {
    if m != map[] {
      var k :| k in m && Total(m) == m[k] + Total(m - {k});
      TotalOfZeros(m - {k});
    }
  }
}
