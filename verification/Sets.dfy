/** Sizes of finite sets. */
module Sets {
  lemma SubsetCard<T>(a: set<T>, b: set<T>)
    requires a <= b
    ensures |a| <= |b|
  {
    assert b == a + (b - a);
  }

  /** Two sets that agree on everything but x. */
  lemma CardDifferAtOne<T(!new)>(a: set<T>, b: set<T>, x: T)
    requires forall y {:trigger y in b} :: y != x ==> (y in a <==> y in b)
    ensures |b| == |a| - (if x in a then 1 else 0) + (if x in b then 1 else 0)
    ensures (x in a <==> x in b) ==> a == b
  {
    var rest := a - {x};
    assert b - {x} == rest;
    assert a == if x in a then rest + {x} else rest;
    assert b == if x in b then rest + {x} else rest;
  }
}
