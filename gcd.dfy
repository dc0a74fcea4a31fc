/**
 * Elementary number theory on natural numbers: the Euclidean greatest common
 * divisor that `Rational._gcd` computes, and the facts about it that the
 * reduction to lowest terms and the canonical-form argument rely on.
 */
module NumberTheory {

  /** d divides n (0 divides only 0). */
  predicate Divides(d: nat, n: nat) {
    if d == 0 then n == 0 else n % d == 0
  }

  /** Euclid's algorithm: gcd(a, 0) = a, gcd(a, b) = gcd(b, a mod b). */
  function Gcd(a: nat, b: nat): (g: nat)
    ensures a != 0 || b != 0 ==> g > 0
    decreases b
  {
    if b == 0 then a else Gcd(b, a % b)
  }

  /** A nonzero multiple of a positive d is at least d away from 0. */
  lemma MulAwayFromZero(d: int, m: int)
    requires d > 0
    ensures m >= 1 ==> d * m >= d
    ensures m <= -1 ==> d * m <= -d
  {
  }

  /** Quotient and remainder of a division by a positive number are unique. */
  lemma DivModUnique(n: int, d: int, q: int, r: int)
    requires d > 0 && 0 <= r < d && n == d * q + r
    ensures n / d == q && n % d == r
  {
    var q', r' := n / d, n % d;
    assert n == d * q' + r';
    assert d * (q - q') == r' - r;
    MulAwayFromZero(d, q - q');
  }

  lemma QuotientNonNeg(n: nat, d: int)
    requires d > 0
    ensures n / d >= 0
  {
  }

  lemma MulMonotone(g: int, q: int)
    requires g >= 1 && q >= 0
    ensures g * q >= q
  {
    assert g * q - q == (g - 1) * q;
  }

  /** Dividing by a positive number does not make a natural number bigger. */
  lemma QuotientBound(n: nat, g: int)
    requires g >= 1
    ensures 0 <= n / g <= n
  {
    QuotientNonNeg(n, g);
    MulMonotone(g, n / g);
    assert n == g * (n / g) + n % g;
  }

  lemma ExactQuotient(n: int, d: int)
    requires d > 0 && n % d == 0
    ensures n == d * (n / d)
  {
  }

  lemma FactorOut(h: int, p: int, q: int, x: int, y: int)
    ensures (h * p) * x + (h * q) * y == h * (p * x + q * y)
  {
  }

  lemma MultipleMod(d: int, k: int)
    requires d > 0
    ensures (d * k) % d == 0
  {
    DivModUnique(d * k, d, k, 0);
  }

  /** A positive multiple of a positive d is at least d. */
  lemma DivisorBound(d: nat, n: nat)
    requires d > 0 && n > 0 && n % d == 0
    ensures d <= n
  {
    var k := n / d;
    assert n == d * k;
  }

  lemma DividesMinusMultiple(d: nat, a: nat, b: nat, q: nat)
    requires d > 0 && a % d == 0 && b % d == 0 && a >= q * b
    ensures (a - q * b) % d == 0
  {
    var i, j := a / d, b / d;
    assert a == d * i && b == d * j;
    assert a - q * b == d * (i - q * j);
    MultipleMod(d, i - q * j);
  }

  lemma DividesSumMultiple(d: nat, b: nat, q: nat, r: nat)
    requires d > 0 && b % d == 0 && r % d == 0
    ensures (b * q + r) % d == 0
  {
    var i, j := b / d, r / d;
    assert b == d * i && r == d * j;
    assert b * q + r == d * (i * q + j);
    MultipleMod(d, i * q + j);
  }

  /** Gcd(a, b) divides both a and b. */
  lemma {:induction false} GcdDividesBoth(a: nat, b: nat)
    requires a != 0 || b != 0
    ensures a % Gcd(a, b) == 0 && b % Gcd(a, b) == 0
    decreases b
  {
    if b != 0 {
      var q, r := a / b, a % b;
      assert Gcd(a, b) == Gcd(b, r);
      if r == 0 {
        assert Gcd(b, r) == b;
        MultipleMod(b, 1);
      } else {
        GcdDividesBoth(b, r);
        var g := Gcd(b, r);
        assert a == b * q + r;
        QuotientNonNeg(a, b);
        DividesSumMultiple(g, b, q, r);
      }
    }
  }

  /** Every common divisor of a and b divides Gcd(a, b). */
  lemma {:induction false} CommonDivisorDividesGcd(a: nat, b: nat, d: nat)
    requires d > 0 && a % d == 0 && b % d == 0
    ensures Gcd(a, b) % d == 0
    decreases b
  {
    if b != 0 {
      var q, r := a / b, a % b;
      assert a == b * q + r;
      QuotientNonNeg(a, b);
      DividesMinusMultiple(d, a, b, q);
      assert r == a - q * b;
      CommonDivisorDividesGcd(b, r, d);
    }
  }

  /**
   * Gcd(a, b) divides a and b, every common divisor of a and b divides it,
   * and it is positive unless a and b are both 0.
   */
  lemma GcdIsGreatestCommonDivisor(a: nat, b: nat)
    ensures Divides(Gcd(a, b), a) && Divides(Gcd(a, b), b)
    ensures forall d: nat :: Divides(d, a) && Divides(d, b) ==> Divides(d, Gcd(a, b))
    ensures a != 0 || b != 0 ==> Gcd(a, b) > 0
  {
    if a != 0 || b != 0 {
      GcdDividesBoth(a, b);
    }
    forall d: nat | Divides(d, a) && Divides(d, b)
      ensures Divides(d, Gcd(a, b))
    {
      if d > 0 {
        CommonDivisorDividesGcd(a, b, d);
      }
    }
  }

  /** Bezout's identity, with the coefficients the extended Euclidean algorithm finds. */
  lemma {:induction false} Bezout(a: nat, b: nat) returns (x: int, y: int)
    ensures a * x + b * y == Gcd(a, b)
    decreases b
  {
    if b == 0 {
      x, y := 1, 0;
    } else {
      var q, r := a / b, a % b;
      assert a == b * q + r;
      var x', y' := Bezout(b, r);
      x, y := y', x' - q * y';
      calc {
        a * x + b * y;
        (b * q + r) * y' + b * (x' - q * y');
        b * q * y' + r * y' + b * x' - b * q * y';
        b * x' + r * y';
      }
    }
  }

  lemma UnitProduct(h: int, m: int)
    requires h > 0 && h * m == 1
    ensures h == 1
  {
  }

  /** A linear combination equal to 1 makes a and b coprime. */
  lemma CoprimeByBezout(a: nat, b: nat, x: int, y: int)
    requires a * x + b * y == 1
    ensures Gcd(a, b) == 1
  {
    assert a != 0 || b != 0;
    GcdDividesBoth(a, b);
    var h := Gcd(a, b);
    var p, q := a / h, b / h;
    ExactQuotient(a, h);
    ExactQuotient(b, h);
    FactorOut(h, p, q, x, y);
    UnitProduct(h, p * x + q * y);
  }

  /** Dividing a (nonzero) and b by their gcd leaves coprime quotients. */
  lemma CoprimeQuotients(a: nat, b: nat)
    requires a != 0
    ensures Gcd(a / Gcd(a, b), b / Gcd(a, b)) == 1
  {
    GcdDividesBoth(a, b);
    var g := Gcd(a, b);
    var p, q := a / g, b / g;
    ExactQuotient(a, g);
    ExactQuotient(b, g);
    var x, y := Bezout(a, b);
    FactorOut(g, p, q, x, y);
    CancelFactor(g, 1, p * x + q * y);
    CoprimeByBezout(p, q, x, y);
  }

  lemma CancelFactor(g: int, m: int, n: int)
    requires g != 0 && g * m == g * n
    ensures m == n
  {
    assert g * (m - n) == 0;
  }

  lemma EuclidAlgebra(n: int, d: int, c: int, x: int, y: int, k: int)
    requires n * x + d * y == 1 && n * c == d * k
    ensures c == d * (k * x + c * y)
  {
    calc {
      c;
      c * (n * x + d * y);
      (n * c) * x + d * (c * y);
      (d * k) * x + d * (c * y);
      d * (k * x + c * y);
    }
  }

  /** Euclid's lemma: if d divides n * c and n, d are coprime, then d divides c. */
  lemma Euclid(n: nat, d: nat, c: nat)
    requires d > 0 && Gcd(n, d) == 1 && (n * c) % d == 0
    ensures c % d == 0
  {
    var x, y := Bezout(n, d);
    var k := (n * c) / d;
    ExactQuotient(n * c, d);
    EuclidAlgebra(n, d, c, x, y, k);
    MultipleMod(d, k * x + c * y);
  }

  /**
   * Two fractions in lowest terms with positive denominators and equal cross
   * products have the same numerator and the same denominator.
   */
  lemma CoprimeCrossEqual(n1: nat, d1: nat, n2: nat, d2: nat)
    requires d1 > 0 && d2 > 0 && Gcd(n1, d1) == 1 && Gcd(n2, d2) == 1
    requires n1 * d2 == n2 * d1
    ensures n1 == n2 && d1 == d2
  {
    CrossDivides(n1, d1, n2, d2);
    CrossDivides(n2, d2, n1, d1);
    DivisorBound(d1, d2);
    DivisorBound(d2, d1);
    CancelFactor(d1, n2, n1);
  }

  lemma CrossDivides(n1: nat, d1: nat, n2: nat, d2: nat)
    requires d1 > 0 && Gcd(n1, d1) == 1 && n1 * d2 == n2 * d1
    ensures d2 % d1 == 0
  {
    MultipleMod(d1, n2);
    Euclid(n1, d1, d2);
  }
}
