/** Facts about division, remainder and powers of two that the other modules share. */
module Arith {

  lemma QuotientUnique(x: nat, d: nat, q: nat)
    requires d > 0 && q * d <= x < q * d + d
    ensures x / d == q
  {
    var p := x / d;
    QuotientBounds(x, d);
    assert p * d < q * d + d && q * d < p * d + d;
    SameMultiple(p, q, d);
    SameMultiple(q, p, d);
  }

  lemma SameMultiple(p: nat, q: nat, d: nat)
    requires p * d < q * d + d
    ensures p <= q
  {
    if q < p {
      NextMultiple(q, p, d);
    }
  }

  lemma NextMultiple(q: nat, p: nat, d: nat)
    requires q < p
    ensures q * d + d <= p * d
  {
    assert p * d == q * d + d + (p - q - 1) * d;
  }

  lemma QuotientBounds(x: nat, d: nat)
    requires d > 0
    ensures x / d * d <= x < x / d * d + d
  {
  }

  lemma Scale(a: nat, b: nat, d: nat)
    requires a <= b
    ensures a * d <= b * d
  {
    assert b * d == a * d + (b - a) * d;
  }

  /** The largest multiple of `d` that is at most `x`. */
  function RoundDown(x: nat, d: nat): (m: nat)
    requires d > 0
    ensures m <= x
  {
    QuotientBounds(x, d);
    Scale(0, x / d, d);
    x / d * d
  }

  lemma QuotientBelow(x: nat, q: nat, d: nat)
    requires d > 0 && x < q * d
    ensures x / d * d + d <= q * d
  {
    QuotientBounds(x, d);
    SameMultiple(x / d + 1, q, d);
    Scale(x / d + 1, q, d);
  }

  /** Rounding down twice is rounding down once. */
  lemma DivideTwice(x: nat, d: nat, e: nat)
    requires d > 0 && e > 0
    ensures d * e > 0 && (x / d) / e == x / (d * e)
  {
    var q, p := x / d, x / d / e;
    QuotientBounds(x, d);
    QuotientBounds(q, e);
    Scale(p * e, q, d);
    Scale(q + 1, p * e + e, d);
    Products(p, d, e);
    QuotientUnique(x, d * e, p);
  }

  lemma Products(p: nat, d: nat, e: nat)
    ensures p * e * d == p * (d * e)
    ensures (p * e + e) * d == p * (d * e) + d * e
    ensures d > 0 && e > 0 ==> d * e > 0
  {
  }

  lemma ModSmall(x: nat, n: nat)
    requires x < n
    ensures x % n == x
  {
  }

  lemma ModExact(x: nat, n: nat)
    requires n > 0
    ensures x % n == x <==> x < n
  {
  }

  lemma ModOnce(x: nat, n: nat)
    requires n > 0
    ensures (x + n) % n == x % n
  {
    var q := x / n;
    QuotientBounds(x, n);
    assert (q + 1) * n == q * n + n;
    QuotientUnique(x + n, n, q + 1);
  }

  lemma {:induction false} ModShift(x: nat, q: nat, n: nat)
    requires n > 0
    ensures (x + q * n) % n == x % n
  {
    if q > 0 {
      ModShift(x, q - 1, n);
      assert x + q * n == (x + (q - 1) * n) + n;
      ModOnce(x + (q - 1) * n, n);
    }
  }

  lemma ModAdd(a: nat, b: nat, n: nat)
    requires n > 0
    ensures (a % n + b) % n == (a + b) % n
  {
    var q := a / n;
    assert a == q * n + a % n;
    ModShift(a % n + b, q, n);
  }

  // ----- powers of two ----------------------------------------------------------

  function Pow2(n: nat): (p: nat)
    ensures p > 0
  {
    if n == 0 then 1 else 2 * Pow2(n - 1)
  }

  lemma {:induction false} Pow2Sum(a: nat, b: nat)
    ensures Pow2(a + b) == Pow2(a) * Pow2(b)
  {
    if a > 0 {
      Pow2Sum(a - 1, b);
    }
  }

  lemma {:induction false} Pow2Grows(a: nat, b: nat)
    requires a <= b
    ensures Pow2(a) <= Pow2(b)
  {
    if a < b {
      Pow2Grows(a, b - 1);
    }
  }
}
