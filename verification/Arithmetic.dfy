/** Facts about products, quotients and remainders of natural numbers. */
module Arithmetic {

  lemma QuotientBounds(x: nat, d: nat)
    requires d > 0
    ensures x / d * d <= x < x / d * d + d
    ensures x == x / d * d + x % d
  {
  }

  lemma {:induction false} ProductGrows(a: int, b: int, d: nat)
    requires a < b
    ensures a * d + d <= b * d
    decreases b - a
  {
    assert (b - 1) * d + d == b * d;
    if a + 1 < b {
      ProductGrows(a, b - 1, d);
    }
  }

  lemma QuotientMonotone(x: nat, y: nat, d: nat)
    requires d > 0 && x <= y
    ensures x / d <= y / d
  {
    QuotientBounds(x, d);
    QuotientBounds(y, d);
    if y / d < x / d {
      ProductGrows(y / d, x / d, d);
    }
  }

  lemma QuotientBelow(x: nat, q: nat, d: nat)
    requires d > 0 && x < q * d
    ensures x / d < q
  {
    QuotientBounds(x, d);
    if q < x / d {
      ProductGrows(q, x / d, d);
    }
  }

  lemma UniqueQuotient(x: nat, q: nat, r: nat, d: nat)
    requires d > 0 && x == q * d + r && r < d
    ensures x / d == q && x % d == r
  {
    QuotientBounds(x, d);
    if q < x / d {
      ProductGrows(q, x / d, d);
    } else if x / d < q {
      ProductGrows(x / d, q, d);
    }
  }

  lemma RemainderShifted(x: nat, k: nat, d: nat)
    requires d > 0
    ensures (x + k * d) % d == x % d
  {
    QuotientBounds(x, d);
    assert (x / d + k) * d == x / d * d + k * d;
    UniqueQuotient(x + k * d, x / d + k, x % d, d);
  }

  lemma SameRemainderGap(a: nat, b: nat, d: nat)
    requires d > 0 && a < b && a % d == b % d
    ensures a + d <= b
  {
    QuotientBounds(a, d);
    QuotientBounds(b, d);
    if a / d < b / d {
      ProductGrows(a / d, b / d, d);
    } else if b / d < a / d {
      ProductGrows(b / d, a / d, d);
    }
  }
}
