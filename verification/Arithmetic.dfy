/** Comparisons, and division by a number that is not a constant. */
module Arithmetic {
  function Lesser(a: nat, b: nat): nat
  {
    if a < b then a else b
  }

  function Larger(a: int, b: int): (m: int)
    ensures m == a || m == b
  {
    if a >= b then a else b
  }

  lemma {:induction false} Multiples(p: nat, k: nat)
    requires k > 0
    ensures p * k >= p
  {
    if k > 1 {
      Multiples(p, k - 1);
    }
  }

  lemma DivUnique(x: nat, d: nat, q: nat, r: nat)
    requires r < d && x == d * q + r
    ensures x / d == q && x % d == r
  {
    var a, b := x / d, x % d;
    assert x == d * a + b;
    if a > q {
      Multiples(d, a - q);
    } else if q > a {
      Multiples(d, q - a);
    }
  }

  lemma DivParts(x: nat, d: nat)
    requires d > 0
    ensures x == d * (x / d) + x % d && 0 <= x % d < d && x / d >= 0
  {
  }

  function Quotient(a: nat, b: nat): nat
    requires b > 0
  {
    DivParts(a, b);
    a / b
  }

  lemma MulMonotone(d: nat, a: nat, b: nat)
    requires a <= b
    ensures d * a <= d * b
  {
    if a < b {
      Multiples(d, b - a);
    }
  }

  lemma DivMonotone(x: nat, y: nat, d: nat)
    requires x <= y && d > 0
    ensures x / d <= y / d
  {
    DivParts(x, d);
    DivParts(y, d);
    if y / d < x / d {
      MulMonotone(d, y / d + 1, x / d);
    }
  }

  lemma Doubled(p: nat, w: nat)
    ensures 2 * p * w == p * (2 * w) == 2 * (p * w)
  {
  }

  /** Halving first and then dividing by half as much. */
  lemma HalfParts(x: nat, h: nat)
    requires h > 0
    ensures x % (2 * h) == x % 2 + 2 * (x / 2 % h) && x / (2 * h) == x / 2 / h
  {
    var q, r := x / 2 / h, x / 2 % h;
    DivParts(x / 2, h);
    Doubled(h, q);
    DivUnique(x, 2 * h, q, 2 * r + x % 2);
  }

  /** Below a bound after division exactly when below its multiple before. */
  lemma DivBelow(x: nat, d: nat, q: nat)
    requires d > 0
    ensures x / d < q <==> x < d * q
  {
    DivParts(x, d);
    if x / d < q {
      MulMonotone(d, x / d + 1, q);
    } else {
      MulMonotone(d, q, x / d);
    }
  }
}
