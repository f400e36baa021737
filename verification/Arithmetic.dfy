/** The few nonlinear facts about multiplication and rounding division that the money
    arithmetic needs. */
module Arithmetic {

  lemma MulMonotone(a: nat, b: nat, c: nat)
    requires b <= c
    ensures a * b <= a * c && b * a <= c * a
  {
  }

  /** Rounding down loses less than one divisor. */
  lemma Floor(x: nat, d: nat)
    requires d > 0
    ensures x / d * d <= x < x / d * d + d
  {
  }

  /** The quotient is the only number with that property. */
  lemma QuotientUnique(x: nat, d: nat, q: nat)
    requires d > 0 && q * d <= x < q * d + d
    ensures x / d == q
  {
    Floor(x, d);
    var r := x / d;
    if r < q {
      MulMonotone(d, r + 1, q);
    } else if q < r {
      MulMonotone(d, q + 1, r);
    }
  }

  lemma QuotientExact(a: nat, d: nat)
    requires d > 0
    ensures a * d / d == a
  {
    QuotientUnique(a * d, d, a);
  }

  lemma QuotientMonotone(x: nat, y: nat, d: nat)
    requires d > 0 && x <= y
    ensures x / d <= y / d
  {
    Floor(x, d);
    Floor(y, d);
    if x / d > y / d {
      MulMonotone(d, y / d + 1, x / d);
    }
  }

  /** Dividing twice is dividing by the product. */
  lemma QuotientTwice(x: nat, c: nat, d: nat)
    requires c > 0 && d > 0
    ensures c * d > 0 && x / c / d == x / (c * d)
  {
    MulMonotone(d, 1, c);
    Floor(x, c);
    Floor(x / c, d);
    FloorTwice(x, c, d, x / c, x / c / d);
    QuotientUnique(x, c * d, x / c / d);
  }

  lemma FloorTwice(x: nat, c: nat, d: nat, p: nat, q: nat)
    requires p * c <= x < p * c + c && q * d <= p < q * d + d
    ensures q * (c * d) <= x < q * (c * d) + c * d
  {
    MulMonotone(c, q * d, p);
    MulMonotone(c, p + 1, q * d + d);
    Reassociate(q, c, d);
    Distribute(c, p, 1);
  }

  lemma Reassociate(q: nat, c: nat, d: nat)
    ensures c * (q * d) == q * (c * d)
    ensures c * (q * d + d) == q * (c * d) + c * d
  {
    Distribute(c, q * d, d);
  }

  lemma Distribute(a: nat, b: nat, c: nat)
    ensures a * (b + c) == a * b + a * c
  {
  }
}
