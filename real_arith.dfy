/**
 * Small facts about products and quotients of reals, stated once so that
 * the proofs about interpolation and weighted means need no nonlinear
 * search of their own.
 */
module RealArith {
  /** The sign of a product of two non-zero reals. */
  lemma ProductSign(a: real, b: real)
    ensures a > 0.0 && b > 0.0 ==> a * b > 0.0
    ensures a < 0.0 && b < 0.0 ==> a * b > 0.0
    ensures a > 0.0 && b < 0.0 ==> a * b < 0.0
    ensures a < 0.0 && b > 0.0 ==> a * b < 0.0
  {
    assert (-a) * (-b) == a * b && (-a) * b == -(a * b) && a * (-b) == -(a * b);
  }

  /** A product with a non-zero factor is zero only when the other factor is. */
  lemma ProductZero(a: real, d: real)
    requires d != 0.0 && a * d == 0.0
    ensures a == 0.0
  {
    ProductSign(a, d);
  }

  /** Multiplying by a positive number keeps the order. */
  lemma ScaleMono(a: real, b: real, w: real)
    requires a <= b && w > 0.0
    ensures a * w <= b * w
  {
    assert b * w - a * w == (b - a) * w;
    if a < b {
      ProductSign(b - a, w);
    }
  }

  /** Multiplication distributes over a sum. */
  lemma Distribute(a: real, x: real, y: real)
    ensures a * (x + y) == a * x + a * y
  {
  }

  /** A common non-zero factor cancels from a quotient. */
  lemma CancelFactor(c: real, s: real, k: real)
    requires c != 0.0 && k != 0.0
    ensures (c * s) / (c * k) == s / k
  {
    var q := s / k;
    var r := (c * s) / (c * k);
    ProductSign(c, k);
    assert c * k != 0.0;
    assert q * k == s;
    assert r * (c * k) == c * s;
    assert (r - q) * (c * k) == r * (c * k) - q * (c * k);
    assert q * (c * k) == c * (q * k);
    ProductZero(r - q, c * k);
  }
}
