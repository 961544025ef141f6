/** Order-free sums over finite maps, the totals that hash-map iteration adds up, and set sizes. */
module Sums {

  /** The sum of all values of `w`; the order in which keys are picked is left open. */
  ghost function Sum<K>(w: map<K, nat>): nat
    decreases |w|
  {
    if w == map[] then 0 else
    var k :| k in w;
    w[k] + Sum(w - {k})
  }

  /** Any key may be taken out first. */
  lemma {:induction false} SumRemove<K>(w: map<K, nat>, k: K)
    requires k in w
    ensures Sum(w) == w[k] + Sum(w - {k})
    decreases |w|
  {
    var k0 :| k0 in w && Sum(w) == w[k0] + Sum(w - {k0});
    if k0 != k {
      SumRemove(w - {k0}, k);
      SumRemove(w - {k}, k0);
      assert w - {k0} - {k} == w - {k} - {k0};
    }
  }

  /** Setting one key replaces its contribution. */
  lemma SumUpdate<K>(w: map<K, nat>, k: K, n: nat)
    ensures Sum(w[k := n]) == Sum(w) - (if k in w then w[k] else 0) + n
  {
    SumRemove(w[k := n], k);
    assert w[k := n] - {k} == w - {k};
    if k in w {
      SumRemove(w, k);
    } else {
      assert w - {k} == w;
    }
  }

  /** Two different keys never hold more than the whole. */
  lemma SumTwo<K>(w: map<K, nat>, j: K, k: K)
    requires j in w && k in w && j != k
    ensures w[j] + w[k] <= Sum(w)
  {
    SumRemove(w, j);
    SumRemove(w - {j}, k);
  }

  lemma {:induction false} SumZero<K>(w: map<K, nat>)
    ensures Sum(w) == 0 <==> forall k :: k in w ==> w[k] == 0
    decreases |w|
  {
    if w != map[] {
      var k :| k in w;
      SumRemove(w, k);
      SumZero(w - {k});
      if Sum(w) == 0 {
        forall j | j in w ensures w[j] == 0 {
          if j != k {
            assert j in w - {k} && (w - {k})[j] == w[j];
          }
        }
      }
    }
  }

  lemma {:induction false} SumSubmap<K>(v: map<K, nat>, w: map<K, nat>)
    requires forall k :: k in v ==> k in w && v[k] == w[k]
    ensures Sum(v) <= Sum(w)
    decreases |v|
  {
    if v != map[] {
      var k :| k in v;
      SumRemove(v, k);
      SumRemove(w, k);
      SumSubmap(v - {k}, w - {k});
    }
  }

  /** A subset is no larger. */
  lemma {:induction false} SubsetSize<T>(a: set<T>, b: set<T>)
    requires a <= b
    ensures |a| <= |b|
    decreases |a|
  {
    if a != {} {
      var x :| x in a;
      SubsetSize(a - {x}, b - {x});
    }
  }
}
