/** The iteration order of Rust's `BTreeMap` and `BTreeSet`: a finite set has exactly one
    strictly ascending enumeration. */
module Ordered {

  ghost predicate StrictOrder<T(!new)>(lt: (T, T) -> bool) {
    && (forall x :: !lt(x, x))
    && (forall x, y, z :: lt(x, y) && lt(y, z) ==> lt(x, z))
    && (forall x, y :: x != y ==> lt(x, y) || lt(y, x))
  }

  predicate IsLeast<T>(m: T, s: set<T>, lt: (T, T) -> bool) {
    m in s && forall x :: x in s && x != m ==> lt(m, x)
  }

  ghost predicate Ascending<T>(xs: seq<T>, lt: (T, T) -> bool) {
    forall i, j :: 0 <= i < j < |xs| ==> lt(xs[i], xs[j])
  }

  lemma {:induction false} LeastExists<T(!new)>(s: set<T>, lt: (T, T) -> bool)
    requires StrictOrder(lt) && s != {}
    ensures exists m :: IsLeast(m, s, lt)
  {
    var x :| x in s;
    if s == {x} {
      assert IsLeast(x, s, lt);
    } else {
      assert s == {x} + (s - {x});
      LeastExists(s - {x}, lt);
      var m :| IsLeast(m, s - {x}, lt);
      assert m in s && x in s && m != x;
      if lt(x, m) {
        forall y | y in s && y != x ensures lt(x, y) {
          if y != m { assert y in s - {x}; assert lt(m, y); }
        }
        assert IsLeast(x, s, lt);
      } else {
        assert IsLeast(m, s, lt);
      }
    }
  }

  /** `BTreeSet::first`: the least element. */
  function Least<T(!new)>(s: set<T>, lt: (T, T) -> bool): (m: T)
    requires StrictOrder(lt) && s != {}
    ensures IsLeast(m, s, lt)
  {
    LeastExists(s, lt);
    var m :| IsLeast(m, s, lt);
    m
  }

  /** In-order iteration over a set. */
  function Sorted<T(!new)>(s: set<T>, lt: (T, T) -> bool): (xs: seq<T>)
    requires StrictOrder(lt)
    ensures Ascending(xs, lt)
    ensures forall x :: x in xs <==> x in s
    ensures |xs| == |s|
  {
    if s == {} then [] else
      var m := Least(s, lt);
      var rest := Sorted(s - {m}, lt);
      [m] + rest
  }

  /** The ascending enumeration is unique: this is what makes map iteration deterministic. */
  lemma {:induction false} AscendingUnique<T(!new)>(xs: seq<T>, ys: seq<T>, lt: (T, T) -> bool)
    requires StrictOrder(lt) && Ascending(xs, lt) && Ascending(ys, lt)
    requires forall x :: x in xs <==> x in ys
    ensures xs == ys
  {
    assert (xs != [] ==> xs[0] in ys) && (ys != [] ==> ys[0] in xs);
    if xs != [] {
      assert xs[0] == ys[0];
      forall x ensures x in xs[1..] <==> x in ys[1..] {
        if x in xs[1..] { assert x in xs && x != xs[0]; }
        if x in ys[1..] { assert x in ys && x != ys[0]; }
      }
      AscendingUnique(xs[1..], ys[1..], lt);
      assert xs == [xs[0]] + xs[1..] && ys == [ys[0]] + ys[1..];
    }
  }

  /** The order of addresses and hashes. */
  predicate Less(a: nat, b: nat) { a < b }

  lemma LessIsStrictOrder()
    ensures StrictOrder(Less)
  {
  }

  ghost predicate Increasing(xs: seq<nat>) {
    forall i, j :: 0 <= i < j < |xs| ==> xs[i] < xs[j]
  }

  /** Keys of a `BTreeMap<Address, _>` in iteration order. */
  function Keys(s: set<nat>): (xs: seq<nat>)
    ensures Increasing(xs)
    ensures forall x :: x in xs <==> x in s
    ensures |xs| == |s|
  {
    LessIsStrictOrder();
    var xs := Sorted(s, Less);
    assert forall i, j :: 0 <= i < j < |xs| ==> Less(xs[i], xs[j]);
    xs
  }

  /** One step of an in-order iteration: the least key not visited yet. */
  method First(s: set<nat>) returns (a: nat)
    requires s != {}
    ensures a in s && forall x :: x in s ==> a <= x
  {
    LessIsStrictOrder();
    a := Least(s, Less);
    assert forall x :: x in s && x != a ==> Less(a, x);
  }
}
