/** Sums of weights over finite sets of accounts. */
module Weights {
  import opened Primitives

  /** The total weight of `s` under `w`. */
  ghost function Total(w: map<Address, nat>, s: set<Address>): nat
    requires s <= w.Keys
  {
    if s == {} then 0 else var x :| x in s; w[x] + Total(w, s - {x})
  }

  /** The sum does not depend on which element is taken first. */
  lemma {:induction false} TotalRemove(w: map<Address, nat>, s: set<Address>, x: Address)
    requires s <= w.Keys && x in s
    ensures Total(w, s) == w[x] + Total(w, s - {x})
  {
    var y :| y in s && Total(w, s) == w[y] + Total(w, s - {y});
    if y != x {
      TotalRemove(w, s - {y}, x);
      TotalRemove(w, s - {x}, y);
      assert s - {y} - {x} == s - {x} - {y};
    }
  }

  lemma TotalAdd(w: map<Address, nat>, s: set<Address>, x: Address)
    requires s <= w.Keys && x in w && x !in s
    ensures Total(w, s + {x}) == Total(w, s) + w[x]
  {
    TotalRemove(w, s + {x}, x);
    assert s + {x} - {x} == s;
  }

  lemma {:induction false} TotalDisjoint(w: map<Address, nat>, a: set<Address>, b: set<Address>)
    requires a <= w.Keys && b <= w.Keys && a !! b
    ensures Total(w, a + b) == Total(w, a) + Total(w, b)
  {
    if a == {} {
      assert a + b == b;
    } else {
      var x :| x in a;
      TotalRemove(w, a, x);
      TotalRemove(w, a + b, x);
      assert a + b - {x} == (a - {x}) + b;
      TotalDisjoint(w, a - {x}, b);
    }
  }

  lemma TotalMonotone(w: map<Address, nat>, a: set<Address>, b: set<Address>)
    requires a <= b <= w.Keys
    ensures Total(w, a) <= Total(w, b)
  {
    TotalDisjoint(w, a, b - a);
    assert a + (b - a) == b;
  }

  /** Inclusion and exclusion for two sets. */
  lemma TotalUnionIntersection(w: map<Address, nat>, a: set<Address>, b: set<Address>)
    requires a <= w.Keys && b <= w.Keys
    ensures Total(w, a) + Total(w, b) == Total(w, a + b) + Total(w, a * b)
  {
    TotalDisjoint(w, a - b, b);
    TotalDisjoint(w, a - b, a * b);
    assert (a - b) + b == a + b && (a - b) + a * b == a;
  }

  /** Only the weights of the summed accounts matter. */
  lemma {:induction false} TotalAgree(v: map<Address, nat>, w: map<Address, nat>, s: set<Address>)
    requires s <= v.Keys && s <= w.Keys
    requires forall x :: x in s ==> v[x] == w[x]
    ensures Total(v, s) == Total(w, s)
  {
    if s != {} {
      var x :| x in s;
      TotalRemove(v, s, x);
      TotalRemove(w, s, x);
      TotalAgree(v, w, s - {x});
    }
  }
}
