/** Cardinality facts shared by the protocols that count threads or operations. */
module Counting {

  lemma SubsetCard<T>(a: set<T>, b: set<T>)
    requires a <= b
    ensures |a| <= |b|
  {
    assert b == a + (b - a);
  }

  /** Sets that differ at most in t. */
  lemma CardSwap<T>(a: set<T>, b: set<T>, t: T)
    requires a - {t} == b - {t}
    ensures |b| == |a| - (if t in a then 1 else 0) + (if t in b then 1 else 0)
  {
    var c := a - {t};
    assert a == if t in a then c + {t} else c;
    assert b == if t in b then c + {t} else c;
  }
}
