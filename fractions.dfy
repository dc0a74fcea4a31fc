/**
 * The value a `Rational` holds once its digit lists are decoded: a sign, a
 * numerator magnitude and a denominator magnitude.  This module states, as
 * functions on such values, what construction (with its truncation to the
 * digit capacity and its reduction to lowest terms), the four arithmetic
 * operators and the comparisons of `Rational` compute, and proves what they
 * mean for the exact rational numbers involved.
 */
module Fractions {
  import opened NumberTheory
  import opened Digits

  /** The global bound on the digit capacity of a Rational. */
  const MaxDigits: nat := 100

  /** The errors `Rational` raises. */
  datatype Error = InvalidDenominator | DivisionByZero

  datatype Result<T> = Ok(value: T) | Err(error: Error)

  /** Sign (+1 or -1 in a well-formed Rational) and the two decoded magnitudes. */
  datatype Fraction = Fraction(sign: int, num: nat, den: nat)

  function Abs(a: int): nat {
    if a < 0 then -a else a
  }

  /** The capacity a requested size gets: it is clamped to MaxDigits. */
  function Capacity(size: int): (cap: nat)
    requires 1 <= size
    ensures 1 <= cap <= MaxDigits && cap <= size
    ensures size <= MaxDigits ==> cap == size
    ensures MaxDigits <= size ==> cap == MaxDigits
  {
    if size < MaxDigits then size else MaxDigits
  }

  /** The signed numerator, sign times numerator magnitude. */
  function SignedNum(f: Fraction): int {
    f.sign * f.num
  }

  /** The exact rational number a fraction with a nonzero denominator stands for. */
  function Val(f: Fraction): real
    requires f.den != 0
  {
    SignedNum(f) as real / f.den as real
  }

  /** The invariant of every constructed Rational: a proper sign, lowest terms, 0 as 0/1. */
  predicate Normal(f: Fraction) {
    && (f.sign == 1 || f.sign == -1)
    && (if f.num == 0 then f.den == 1 else Gcd(f.num, f.den) == 1)
  }

  /** Both magnitudes of a / b fit in the capacity size is clamped to. */
  predicate Fits(a: int, b: int, size: int)
    requires 1 <= size
  {
    Abs(a) < Pow10(Capacity(size)) && Abs(b) < Pow10(Capacity(size))
  }

  /**
   * Reduction to lowest terms: a zero numerator only resets the denominator
   * to 1 (the sign stays); otherwise both magnitudes are divided by their gcd.
   */
  function Reduce(f: Fraction): Fraction {
    if f.num == 0 then f.(den := 1)
    else
      var g := Gcd(f.num, f.den);
      QuotientNonNeg(f.num, g);
      QuotientNonNeg(f.den, g);
      Fraction(f.sign, f.num / g, f.den / g)
  }

  /**
   * Construction from a numerator a and denominator b at a requested size:
   * b == 0 is refused; the sign is -1 exactly when one of a, b is negative;
   * the magnitudes are stored modulo 10^capacity; then the result is reduced.
   */
  function Construct(a: int, b: int, size: int): Result<Fraction>
    requires 1 <= size
  {
    if b == 0 then Err(InvalidDenominator)
    else
      var cap := Capacity(size);
      var sign := if (a < 0) != (b < 0) then -1 else 1;
      Ok(Reduce(Fraction(sign, Abs(a) % Pow10(cap), Abs(b) % Pow10(cap))))
  }

  // The four operators; the result has the left operand's size.

  function Add(x: Fraction, y: Fraction, size: int): Result<Fraction>
    requires 1 <= size
  {
    Construct(SignedNum(x) * y.den + SignedNum(y) * x.den, x.den * y.den, size)
  }

  function Sub(x: Fraction, y: Fraction, size: int): Result<Fraction>
    requires 1 <= size
  {
    Construct(SignedNum(x) * y.den - SignedNum(y) * x.den, x.den * y.den, size)
  }

  function Mul(x: Fraction, y: Fraction, size: int): Result<Fraction>
    requires 1 <= size
  {
    Construct(SignedNum(x) * SignedNum(y), x.den * y.den, size)
  }

  /** Division refuses a zero divisor, and moves a negative denominator's sign to the numerator. */
  function Div(x: Fraction, y: Fraction, size: int): Result<Fraction>
    requires 1 <= size
  {
    if SignedNum(y) == 0 then Err(DivisionByZero)
    else
      var n := SignedNum(x) * y.den;
      var d := x.den * SignedNum(y);
      if d < 0 then Construct(-n, -d, size) else Construct(n, d, size)
  }

  // Comparisons.

  /** Equality compares the signed numerators and the denominators. */
  predicate Eq(x: Fraction, y: Fraction) {
    SignedNum(x) == SignedNum(y) && x.den == y.den
  }

  /** The order by cross-multiplication. */
  predicate Lt(x: Fraction, y: Fraction) {
    SignedNum(x) * y.den < SignedNum(y) * x.den
  }

  predicate Le(x: Fraction, y: Fraction) {
    Eq(x, y) || Lt(x, y)
  }

  predicate Gt(x: Fraction, y: Fraction) {
    !Le(x, y)
  }

  predicate Ge(x: Fraction, y: Fraction) {
    !Lt(x, y)
  }

  /** Truthiness: a Rational is true when its numerator magnitude is nonzero. */
  predicate IsNonZero(x: Fraction) {
    x.num != 0
  }

  // ---------------------------------------------------------------------
  // Reduction and construction

  /**
   * Reduce puts a fraction in lowest terms without changing its sign and
   * without making either magnitude bigger; a zero numerator ends with
   * denominator 1.
   */
  lemma ReduceShape(f: Fraction)
    ensures Reduce(f).sign == f.sign
    ensures f.sign == 1 || f.sign == -1 ==> Normal(Reduce(f))
    ensures f.num == 0 ==> Reduce(f) == f.(den := 1)
    ensures Reduce(f).num <= f.num && Reduce(f).den <= f.den + (if f.num == 0 then 1 else 0)
  {
    if f.num != 0 {
      var g := Gcd(f.num, f.den);
      GcdDividesBoth(f.num, f.den);
      CoprimeQuotients(f.num, f.den);
      QuotientBound(f.num, g);
      QuotientBound(f.den, g);
    }
  }

  /**
   * Reduce keeps the ratio of a fraction with a nonzero numerator (equal
   * cross products), and a zero denominator stays zero.
   */
  lemma ReduceRatio(f: Fraction)
    requires f.num != 0
    ensures Reduce(f).num * f.den == f.num * Reduce(f).den
    ensures Reduce(f).den == 0 <==> f.den == 0
  {
    var g := Gcd(f.num, f.den);
    GcdDividesBoth(f.num, f.den);
    var p, q := f.num / g, f.den / g;
    ExactQuotient(f.num, g);
    ExactQuotient(f.den, g);
    CrossOfQuotients(f.num, f.den, g, p, q);
    if q == 0 {
      assert f.den == g * 0;
    }
  }

  lemma CrossOfQuotients(n: int, d: int, g: int, p: int, q: int)
    requires n == g * p && d == g * q
    ensures p * d == n * q
  {
    assert p * d == p * (g * q) == (g * p) * q;
  }

  /** Reducing a fraction that is already in lowest terms changes nothing. */
  lemma ReduceIdempotent(f: Fraction)
    requires Normal(f)
    ensures Reduce(f) == f
  {
    if f.num != 0 {
      DivModUnique(f.num, 1, f.num, 0);
      DivModUnique(f.den, 1, f.den, 0);
    }
  }

  /**
   * Construction fails exactly on a zero denominator; otherwise it yields a
   * normal fraction with the sign rule of the source and magnitudes that fit
   * in the capacity.
   */
  lemma ConstructShape(a: int, b: int, size: int)
    requires 1 <= size
    ensures Construct(a, b, size).Err? <==> b == 0
    ensures b == 0 ==> Construct(a, b, size).error == InvalidDenominator
    ensures b != 0 ==>
      var r := Construct(a, b, size).value;
      && Normal(r)
      && (r.sign == -1 <==> (a < 0) != (b < 0))
      && r.num < Pow10(Capacity(size)) && r.den < Pow10(Capacity(size))
  {
    if b != 0 {
      var cap := Capacity(size);
      var f := Fraction(if (a < 0) != (b < 0) then -1 else 1, Abs(a) % Pow10(cap), Abs(b) % Pow10(cap));
      ReduceShape(f);
      if f.num == 0 {
        assert Pow10(cap) == 10 * Pow10(cap - 1);
      }
    }
  }

  /** A numerator 0 gives 0/1, keeping the sign of the denominator. */
  lemma ConstructZero(b: int, size: int)
    requires 1 <= size && b != 0
    ensures Construct(0, b, size) == Ok(Fraction(if b < 0 then -1 else 1, 0, 1))
  {
    DivModUnique(0, Pow10(Capacity(size)), 0, 0);
  }

  /** Cross-multiplication and the exact value agree. */
  lemma CrossSame(n1: int, d1: int, n2: int, d2: int)
    requires d1 > 0 && d2 > 0
    ensures n1 as real / d1 as real == n2 as real / d2 as real <==> n1 * d2 == n2 * d1
  {
    CastMul(n1, d2);
    CastMul(n2, d1);
    RealCross(n1 as real, d1 as real, n2 as real, d2 as real);
  }

  lemma CrossLess(n1: int, d1: int, n2: int, d2: int)
    requires d1 > 0 && d2 > 0
    ensures n1 as real / d1 as real < n2 as real / d2 as real <==> n1 * d2 < n2 * d1
  {
    CastMul(n1, d2);
    CastMul(n2, d1);
    RealCrossLess(n1 as real, d1 as real, n2 as real, d2 as real);
  }

  lemma CastMul(a: int, b: int)
    ensures (a * b) as real == a as real * b as real
  {
  }

  lemma RealCross(n1: real, d1: real, n2: real, d2: real)
    requires d1 > 0.0 && d2 > 0.0
    ensures n1 / d1 == n2 / d2 <==> n1 * d2 == n2 * d1
  {
  }

  lemma RealCrossLess(n1: real, d1: real, n2: real, d2: real)
    requires d1 > 0.0 && d2 > 0.0
    ensures n1 / d1 < n2 / d2 <==> n1 * d2 < n2 * d1
  {
  }

  lemma NegateBoth(a: int, b: int)
    requires b != 0
    ensures (-a) as real / (-b) as real == a as real / b as real
  {
  }

  /** Within capacity nothing is truncated: construction just reduces |a| / |b|. */
  lemma ConstructWithinCapacity(a: int, b: int, size: int)
    requires 1 <= size && b != 0 && Fits(a, b, size)
    ensures Construct(a, b, size)
      == Ok(Reduce(Fraction(if (a < 0) != (b < 0) then -1 else 1, Abs(a), Abs(b))))
  {
    var cap := Capacity(size);
    DivModUnique(Abs(a), Pow10(cap), 0, Abs(a));
    DivModUnique(Abs(b), Pow10(cap), 0, Abs(b));
  }

  /** When a and b fit in the capacity, construction keeps the exact value a / b. */
  lemma ConstructExact(a: int, b: int, size: int)
    requires 1 <= size && b != 0 && Fits(a, b, size)
    ensures Construct(a, b, size).Ok?
    ensures Construct(a, b, size).value.den != 0
    ensures Val(Construct(a, b, size).value) == a as real / b as real
  {
    ConstructWithinCapacity(a, b, size);
    var f := Fraction(if (a < 0) != (b < 0) then -1 else 1, Abs(a), Abs(b));
    ReduceShape(f);
    if a != 0 {
      ReduceRatio(f);
    }
    var r := Reduce(f);
    SignedCross(a, b, r);
    var a' := if b < 0 then -a else a;
    CrossSame(SignedNum(r), r.den, a', Abs(b));
    if b < 0 {
      NegateBoth(a, b);
    }
  }

  /** The cross-multiplication fact behind ConstructExact, one sign case at a time. */
  lemma SignedCross(a: int, b: int, r: Fraction)
    requires b != 0
    requires r.sign == (if (a < 0) != (b < 0) then -1 else 1)
    requires a == 0 ==> r.num == 0 && r.den == 1
    requires a != 0 ==> r.num * Abs(b) == Abs(a) * r.den && r.den != 0
    ensures r.den != 0
    ensures SignedNum(r) * Abs(b) == (if b < 0 then -a else a) * r.den
  {
    if a != 0 {
      var lhs := r.num * Abs(b);
      NegMul(r.num, Abs(b));
      NegMul(Abs(a), r.den);
      if (a < 0) != (b < 0) {
        assert SignedNum(r) * Abs(b) == -lhs;
      } else {
        assert SignedNum(r) * Abs(b) == lhs;
      }
    }
  }

  lemma NegMul(a: int, b: int)
    ensures (-a) * b == -(a * b) && a * (-b) == -(a * b)
  {
  }

  // ---------------------------------------------------------------------
  // Arithmetic

  /**
   * Add, Sub and Mul refuse exactly a zero denominator of either operand; Div
   * refuses a zero divisor, and otherwise exactly a zero left denominator.
   */
  lemma OperatorErrors(x: Fraction, y: Fraction, size: int)
    requires 1 <= size
    ensures Add(x, y, size).Err? <==> x.den == 0 || y.den == 0
    ensures Sub(x, y, size).Err? <==> x.den == 0 || y.den == 0
    ensures Mul(x, y, size).Err? <==> x.den == 0 || y.den == 0
    ensures SignedNum(y) == 0 ==> Div(x, y, size) == Err(DivisionByZero)
    ensures SignedNum(y) != 0 ==> (Div(x, y, size).Err? <==> x.den == 0)
    ensures SignedNum(y) != 0 && x.den == 0 ==> Div(x, y, size) == Err(InvalidDenominator)
  {
    ZeroProduct(x.den, y.den);
    ZeroProduct(x.den, SignedNum(y));
  }

  lemma ZeroProduct(a: int, b: int)
    ensures a * b == 0 <==> a == 0 || b == 0
  {
    if a != 0 && b != 0 {
      if a > 0 { MulAwayFromZero(a, b); } else { MulAwayFromZero(-a, b); NegMul(a, b); }
    }
  }

  lemma AddQuotients(n1: int, d1: int, n2: int, d2: int)
    requires d1 != 0 && d2 != 0
    ensures d1 * d2 != 0
    ensures (n1 * d2 + n2 * d1) as real / (d1 * d2) as real
         == n1 as real / d1 as real + n2 as real / d2 as real
  {
    ZeroProduct(d1, d2);
    CastMul(n1, d2);
    CastMul(n2, d1);
    CastMul(d1, d2);
    RealAddQuotients(n1 as real, d1 as real, n2 as real, d2 as real);
  }

  lemma SubQuotients(n1: int, d1: int, n2: int, d2: int)
    requires d1 != 0 && d2 != 0
    ensures d1 * d2 != 0
    ensures (n1 * d2 - n2 * d1) as real / (d1 * d2) as real
         == n1 as real / d1 as real - n2 as real / d2 as real
  {
    ZeroProduct(d1, d2);
    CastMul(n1, d2);
    CastMul(n2, d1);
    CastMul(d1, d2);
    RealSubQuotients(n1 as real, d1 as real, n2 as real, d2 as real);
  }

  lemma MulQuotients(n1: int, d1: int, n2: int, d2: int)
    requires d1 != 0 && d2 != 0
    ensures d1 * d2 != 0
    ensures (n1 * n2) as real / (d1 * d2) as real == (n1 as real / d1 as real) * (n2 as real / d2 as real)
  {
    ZeroProduct(d1, d2);
    CastMul(n1, n2);
    CastMul(d1, d2);
    RealMulQuotients(n1 as real, d1 as real, n2 as real, d2 as real);
  }

  lemma DivQuotients(n1: int, d1: int, n2: int, d2: int)
    requires d1 != 0 && d2 != 0 && n2 != 0
    ensures d1 * n2 != 0 && n2 as real / d2 as real != 0.0
    ensures (n1 * d2) as real / (d1 * n2) as real == (n1 as real / d1 as real) / (n2 as real / d2 as real)
  {
    ZeroProduct(d1, n2);
    CastMul(n1, d2);
    CastMul(d1, n2);
    RealDivQuotients(n1 as real, d1 as real, n2 as real, d2 as real);
  }

  lemma RealAddQuotients(n1: real, d1: real, n2: real, d2: real)
    requires d1 != 0.0 && d2 != 0.0
    ensures (n1 * d2 + n2 * d1) / (d1 * d2) == n1 / d1 + n2 / d2
  {
  }

  lemma RealSubQuotients(n1: real, d1: real, n2: real, d2: real)
    requires d1 != 0.0 && d2 != 0.0
    ensures (n1 * d2 - n2 * d1) / (d1 * d2) == n1 / d1 - n2 / d2
  {
  }

  lemma RealMulQuotients(n1: real, d1: real, n2: real, d2: real)
    requires d1 != 0.0 && d2 != 0.0
    ensures (n1 * n2) / (d1 * d2) == (n1 / d1) * (n2 / d2)
  {
  }

  lemma RealDivQuotients(n1: real, d1: real, n2: real, d2: real)
    requires d1 != 0.0 && d2 != 0.0 && n2 != 0.0
    ensures n2 / d2 != 0.0
    ensures (n1 * d2) / (d1 * n2) == (n1 / d1) / (n2 / d2)
  {
  }

  /** Addition is exact when the raw result fits in the capacity. */
  lemma AddExact(x: Fraction, y: Fraction, size: int)
    requires 1 <= size && x.den != 0 && y.den != 0
    requires Fits(SignedNum(x) * y.den + SignedNum(y) * x.den, x.den * y.den, size)
    ensures Add(x, y, size).Ok? && Add(x, y, size).value.den != 0
    ensures Val(Add(x, y, size).value) == Val(x) + Val(y)
  {
    ConstructAddExact(SignedNum(x), x.den, SignedNum(y), y.den, size);
    assert Add(x, y, size) == Construct(SignedNum(x) * y.den + SignedNum(y) * x.den, x.den * y.den, size);
    var r := Add(x, y, size).value;
    ValSum(x, y, r);
  }

  /** Subtraction is exact when the raw result fits in the capacity. */
  lemma SubExact(x: Fraction, y: Fraction, size: int)
    requires 1 <= size && x.den != 0 && y.den != 0
    requires Fits(SignedNum(x) * y.den - SignedNum(y) * x.den, x.den * y.den, size)
    ensures Sub(x, y, size).Ok? && Sub(x, y, size).value.den != 0
    ensures Val(Sub(x, y, size).value) == Val(x) - Val(y)
  {
    ConstructSubExact(SignedNum(x), x.den, SignedNum(y), y.den, size);
    assert Sub(x, y, size) == Construct(SignedNum(x) * y.den - SignedNum(y) * x.den, x.den * y.den, size);
    var r := Sub(x, y, size).value;
    ValDifference(x, y, r);
  }

  /** Multiplication is exact when the raw result fits in the capacity. */
  lemma MulExact(x: Fraction, y: Fraction, size: int)
    requires 1 <= size && x.den != 0 && y.den != 0
    requires Fits(SignedNum(x) * SignedNum(y), x.den * y.den, size)
    ensures Mul(x, y, size).Ok? && Mul(x, y, size).value.den != 0
    ensures Val(Mul(x, y, size).value) == Val(x) * Val(y)
  {
    ConstructMulExact(SignedNum(x), x.den, SignedNum(y), y.den, size);
    assert Mul(x, y, size) == Construct(SignedNum(x) * SignedNum(y), x.den * y.den, size);
    var r := Mul(x, y, size).value;
    ValProduct(x, y, r);
  }

  /** Division by a nonzero value is exact when the raw result fits in the capacity. */
  lemma DivExact(x: Fraction, y: Fraction, size: int)
    requires 1 <= size && x.den != 0 && y.den != 0 && SignedNum(y) != 0
    requires Fits(SignedNum(x) * y.den, x.den * SignedNum(y), size)
    ensures Div(x, y, size).Ok? && Div(x, y, size).value.den != 0
    ensures Val(y) != 0.0 && Val(Div(x, y, size).value) == Val(x) / Val(y)
  {
    ConstructDivExact(SignedNum(x), x.den, SignedNum(y), y.den, size);
    var n, d := SignedNum(x) * y.den, x.den * SignedNum(y);
    assert Div(x, y, size) == if d < 0 then Construct(-n, -d, size) else Construct(n, d, size);
    var r := Div(x, y, size).value;
    ValQuotient(x, y, r);
  }

  // Restating the four exactness facts in terms of Val.

  lemma ValSum(x: Fraction, y: Fraction, r: Fraction)
    requires x.den != 0 && y.den != 0 && r.den != 0
    requires Val(r) == SignedNum(x) as real / x.den as real + SignedNum(y) as real / y.den as real
    ensures Val(r) == Val(x) + Val(y)
  {
  }

  lemma ValDifference(x: Fraction, y: Fraction, r: Fraction)
    requires x.den != 0 && y.den != 0 && r.den != 0
    requires Val(r) == SignedNum(x) as real / x.den as real - SignedNum(y) as real / y.den as real
    ensures Val(r) == Val(x) - Val(y)
  {
  }

  lemma ValProduct(x: Fraction, y: Fraction, r: Fraction)
    requires x.den != 0 && y.den != 0 && r.den != 0
    requires Val(r) == (SignedNum(x) as real / x.den as real) * (SignedNum(y) as real / y.den as real)
    ensures Val(r) == Val(x) * Val(y)
  {
  }

  lemma ValQuotient(x: Fraction, y: Fraction, r: Fraction)
    requires x.den != 0 && y.den != 0 && r.den != 0 && SignedNum(y) as real / y.den as real != 0.0
    requires Val(r) == (SignedNum(x) as real / x.den as real) / (SignedNum(y) as real / y.den as real)
    ensures Val(y) != 0.0 && Val(r) == Val(x) / Val(y)
  {
  }

  // The four exactness facts above, on plain numerators and denominators.

  lemma ConstructAddExact(n1: int, d1: int, n2: int, d2: int, size: int)
    requires 1 <= size && d1 != 0 && d2 != 0
    requires Fits(n1 * d2 + n2 * d1, d1 * d2, size)
    ensures var c := Construct(n1 * d2 + n2 * d1, d1 * d2, size);
      c.Ok? && c.value.den != 0 && Val(c.value) == n1 as real / d1 as real + n2 as real / d2 as real
  {
    ZeroProduct(d1, d2);
    ConstructExact(n1 * d2 + n2 * d1, d1 * d2, size);
    AddQuotients(n1, d1, n2, d2);
  }

  lemma ConstructSubExact(n1: int, d1: int, n2: int, d2: int, size: int)
    requires 1 <= size && d1 != 0 && d2 != 0
    requires Fits(n1 * d2 - n2 * d1, d1 * d2, size)
    ensures var c := Construct(n1 * d2 - n2 * d1, d1 * d2, size);
      c.Ok? && c.value.den != 0 && Val(c.value) == n1 as real / d1 as real - n2 as real / d2 as real
  {
    ZeroProduct(d1, d2);
    ConstructExact(n1 * d2 - n2 * d1, d1 * d2, size);
    SubQuotients(n1, d1, n2, d2);
  }

  lemma ConstructMulExact(n1: int, d1: int, n2: int, d2: int, size: int)
    requires 1 <= size && d1 != 0 && d2 != 0
    requires Fits(n1 * n2, d1 * d2, size)
    ensures var c := Construct(n1 * n2, d1 * d2, size);
      c.Ok? && c.value.den != 0 && Val(c.value) == (n1 as real / d1 as real) * (n2 as real / d2 as real)
  {
    ZeroProduct(d1, d2);
    ConstructExact(n1 * n2, d1 * d2, size);
    MulQuotients(n1, d1, n2, d2);
  }

  lemma ConstructDivExact(n1: int, d1: int, n2: int, d2: int, size: int)
    requires 1 <= size && d1 != 0 && d2 != 0 && n2 != 0
    requires Fits(n1 * d2, d1 * n2, size)
    ensures n2 as real / d2 as real != 0.0
    ensures var n, d := n1 * d2, d1 * n2;
      var c := if d < 0 then Construct(-n, -d, size) else Construct(n, d, size);
      c.Ok? && c.value.den != 0 && Val(c.value) == (n1 as real / d1 as real) / (n2 as real / d2 as real)
  {
    ZeroProduct(d1, n2);
    ConstructExactEitherSign(n1 * d2, d1 * n2, size);
    DivQuotients(n1, d1, n2, d2);
  }

  /** Construction after moving a negative denominator's sign to the numerator keeps n / d. */
  lemma ConstructExactEitherSign(n: int, d: int, size: int)
    requires 1 <= size && d != 0 && Fits(n, d, size)
    ensures var c := if d < 0 then Construct(-n, -d, size) else Construct(n, d, size);
      c.Ok? && c.value.den != 0 && Val(c.value) == n as real / d as real
  {
    if d < 0 && n != 0 {
      ConstructNegated(n, d, size);
      ConstructExact(n, d, size);
    } else if d < 0 {
      ConstructZeroOverNegated(d, size);
      ZeroQuotient(d);
    } else {
      ConstructExact(n, d, size);
    }
  }

  /** Negating both parts of a nonzero numerator and a denominator changes nothing. */
  lemma ConstructNegated(n: int, d: int, size: int)
    requires 1 <= size && d != 0 && n != 0
    ensures Construct(-n, -d, size) == Construct(n, d, size)
  {
  }

  lemma ConstructZeroOverNegated(d: int, size: int)
    requires 1 <= size && d < 0
    ensures Construct(0, -d, size) == Ok(Fraction(1, 0, 1))
  {
    ConstructZero(-d, size);
  }

  lemma ZeroQuotient(d: int)
    requires d != 0
    ensures 0 as real / d as real == 0.0
  {
  }

  /** Addition and multiplication do not depend on the order of the operands. */
  lemma AddMulCommute(x: Fraction, y: Fraction, size: int)
    requires 1 <= size
    ensures Add(x, y, size) == Add(y, x, size)
    ensures Mul(x, y, size) == Mul(y, x, size)
  {
  }

  // ---------------------------------------------------------------------
  // Comparisons

  /**
   * Canonical form: two normal fractions with nonzero denominators compare
   * equal (by `==` on their stored parts) exactly when their values are equal.
   */
  lemma EqIffSameValue(x: Fraction, y: Fraction)
    requires Normal(x) && Normal(y) && x.den != 0 && y.den != 0
    ensures Eq(x, y) <==> Val(x) == Val(y)
  {
    CrossSame(SignedNum(x), x.den, SignedNum(y), y.den);
    if SignedNum(x) * y.den == SignedNum(y) * x.den {
      SameRatioSameParts(x, y);
    }
  }

  lemma SameRatioSameParts(x: Fraction, y: Fraction)
    requires Normal(x) && Normal(y) && x.den != 0 && y.den != 0
    requires SignedNum(x) * y.den == SignedNum(y) * x.den
    ensures Eq(x, y)
  {
    SignedCrossProducts(x, y);
    if x.num != 0 {
      CoprimeCrossEqual(x.num, x.den, y.num, y.den);
    }
  }

  /** Multiplying by a sign of +1 or -1 keeps or negates. */
  lemma SignTimes(s: int, a: int)
    requires s == 1 || s == -1
    ensures s * a == (if s == 1 then a else -a)
  {
  }

  /**
   * Equal signed cross products of two normal fractions: both numerators are
   * 0, or the signs agree and the magnitudes have equal cross products.
   */
  lemma SignedCrossProducts(x: Fraction, y: Fraction)
    requires Normal(x) && Normal(y) && x.den != 0 && y.den != 0
    requires SignedNum(x) * y.den == SignedNum(y) * x.den
    ensures x.num == 0 <==> y.num == 0
    ensures x.num != 0 ==> x.sign == y.sign && x.num * y.den == y.num * x.den
  {
    var a, b := x.num * y.den, y.num * x.den;
    assert SignedNum(x) * y.den == x.sign * a;
    assert SignedNum(y) * x.den == y.sign * b;
    SignTimes(x.sign, a);
    SignTimes(y.sign, b);
    ZeroProduct(x.num, y.den);
    ZeroProduct(y.num, x.den);
  }

  /** `<` is the order of the exact values. */
  lemma LtIffLessValue(x: Fraction, y: Fraction)
    requires x.den != 0 && y.den != 0
    ensures Lt(x, y) <==> Val(x) < Val(y)
  {
    CrossLess(SignedNum(x), x.den, SignedNum(y), y.den);
  }

  /** `==` and `<` never both hold, so exactly one of `<`, `==`, `>` holds. */
  lemma ExactlyOne(x: Fraction, y: Fraction)
    ensures Eq(x, y) ==> !Lt(x, y)
    ensures Lt(x, y) || Eq(x, y) || Gt(x, y)
    ensures !(Lt(x, y) && Gt(x, y)) && !(Eq(x, y) && Gt(x, y))
  {
  }

  /** The derived comparisons agree with the mirrored ones on normal fractions. */
  lemma MirroredComparisons(x: Fraction, y: Fraction)
    requires Normal(x) && Normal(y) && x.den != 0 && y.den != 0
    ensures Gt(x, y) <==> Lt(y, x)
    ensures Ge(x, y) <==> Le(y, x)
    ensures Le(x, y) <==> Val(x) <= Val(y)
  {
    EqIffSameValue(x, y);
    EqIffSameValue(y, x);
    LtIffLessValue(x, y);
    LtIffLessValue(y, x);
  }

  /** Truthiness is "the value is not zero". */
  lemma IsNonZeroIffValue(x: Fraction)
    requires Normal(x) && x.den != 0
    ensures IsNonZero(x) <==> Val(x) != 0.0
  {
    ZeroProduct(x.sign, x.num);
    CrossSame(SignedNum(x), x.den, 0, 1);
  }

  // ---------------------------------------------------------------------
  // Identities

  /**
   * Constructing from the parts of a normal fraction gives the fraction back,
   * except that a zero loses a negative sign.
   */
  lemma ConstructOfNormal(x: Fraction, size: int)
    requires 1 <= size && Normal(x) && x.den != 0 && Fits(x.num, x.den, size)
    ensures Construct(SignedNum(x), x.den, size) == Ok(if x.num == 0 then Fraction(1, 0, 1) else x)
  {
    SignTimes(x.sign, x.num);
    assert Abs(SignedNum(x)) == x.num;
    ConstructWithinCapacity(SignedNum(x), x.den, size);
    if x.num != 0 {
      ReduceIdempotent(x);
    }
  }

  /** Adding Rational(0, 1) gives back x (a zero with sign -1 comes back with sign +1). */
  lemma AddZeroIdentity(x: Fraction, size: int)
    requires 1 <= size && Normal(x) && x.den != 0 && Fits(x.num, x.den, size)
    ensures Add(x, Fraction(1, 0, 1), size) == Ok(if x.num == 0 then Fraction(1, 0, 1) else x)
    ensures Eq(Add(x, Fraction(1, 0, 1), size).value, x)
  {
    var z := Fraction(1, 0, 1);
    assert SignedNum(x) * z.den + SignedNum(z) * x.den == SignedNum(x);
    assert x.den * z.den == x.den;
    ConstructOfNormal(x, size);
  }

  /** Multiplying by Rational(1, 1) gives back x (a zero with sign -1 comes back with sign +1). */
  lemma MulOneIdentity(x: Fraction, size: int)
    requires 1 <= size && Normal(x) && x.den != 0 && Fits(x.num, x.den, size)
    ensures Mul(x, Fraction(1, 1, 1), size) == Ok(if x.num == 0 then Fraction(1, 0, 1) else x)
    ensures Eq(Mul(x, Fraction(1, 1, 1), size).value, x)
  {
    var one := Fraction(1, 1, 1);
    assert SignedNum(x) * SignedNum(one) == SignedNum(x);
    assert x.den * one.den == x.den;
    ConstructOfNormal(x, size);
  }

  /** A value p = q * y with q = x / y is x. */
  lemma ValCancel(p: Fraction, q: Fraction, y: Fraction, x: Fraction)
    requires p.den != 0 && q.den != 0 && y.den != 0 && x.den != 0
    requires Val(y) != 0.0 && Val(q) == Val(x) / Val(y) && Val(p) == Val(q) * Val(y)
    ensures Val(p) == Val(x)
  {
    RealCancel(Val(p), Val(q), Val(x), Val(y));
  }

  lemma RealCancel(p: real, q: real, a: real, b: real)
    requires b != 0.0 && q == a / b && p == q * b
    ensures p == a
  {
  }

  /** (x / y) * y equals x when every intermediate result fits in the capacity. */
  lemma DivMulInverse(x: Fraction, y: Fraction, size: int)
    requires 1 <= size && Normal(x) && Normal(y) && x.den != 0 && y.den != 0 && y.num != 0
    requires Fits(SignedNum(x) * y.den, x.den * SignedNum(y), size)
    requires Div(x, y, size).Ok?
    requires
      var q := Div(x, y, size).value;
      Fits(SignedNum(q) * SignedNum(y), q.den * y.den, size)
    ensures Div(x, y, size).Ok? && Mul(Div(x, y, size).value, y, size).Ok?
    ensures Eq(Mul(Div(x, y, size).value, y, size).value, x)
  {
    SignTimes(y.sign, y.num);
    DivExact(x, y, size);
    MulBack(Div(x, y, size).value, y, x, size);
  }

  /** Multiplying a quotient Val(x) / Val(y) back by y gives x. */
  lemma MulBack(q: Fraction, y: Fraction, x: Fraction, size: int)
    requires 1 <= size && Normal(x) && q.den != 0 && y.den != 0 && x.den != 0
    requires Val(y) != 0.0 && Val(q) == Val(x) / Val(y)
    requires Fits(SignedNum(q) * SignedNum(y), q.den * y.den, size)
    ensures Mul(q, y, size).Ok? && Eq(Mul(q, y, size).value, x)
  {
    MulExact(q, y, size);
    var p := Mul(q, y, size).value;
    ValCancel(p, q, y, x);
    MulIsNormal(q, y, size);
    EqIffSameValue(p, x);
  }

  /** Every successful product is normal. */
  lemma MulIsNormal(x: Fraction, y: Fraction, size: int)
    requires 1 <= size && Mul(x, y, size).Ok?
    ensures Normal(Mul(x, y, size).value)
  {
    ConstructShape(SignedNum(x) * SignedNum(y), x.den * y.den, size);
  }

  // ---------------------------------------------------------------------
  // Concrete behaviour

  lemma Pow10AtLeast(n: nat)
    requires n >= 6
    ensures Pow10(n) >= 1000000
  {
    if n > 6 {
      Pow10AtLeast(n - 1);
    }
  }

  /** Rational(123, 456, 100) is 41 / 152. */
  lemma Construct123Over456()
    ensures Construct(123, 456, 100) == Ok(Fraction(1, 41, 152))
  {
    Pow10AtLeast(100);
    DivModUnique(123, Pow10(100), 0, 123);
    DivModUnique(456, Pow10(100), 0, 456);
    assert Gcd(123, 456) == Gcd(456, 123) == Gcd(123, 87) == Gcd(87, 36) == Gcd(36, 15)
      == Gcd(15, 6) == Gcd(6, 3) == Gcd(3, 0) == 3;
  }

  /** Rational(-789, 1011, 100) is -263 / 337. */
  lemma ConstructMinus789Over1011()
    ensures Construct(-789, 1011, 100) == Ok(Fraction(-1, 263, 337))
  {
    Pow10AtLeast(100);
    DivModUnique(789, Pow10(100), 0, 789);
    DivModUnique(1011, Pow10(100), 0, 1011);
    assert Gcd(789, 1011) == Gcd(1011, 789) == Gcd(789, 222) == Gcd(222, 123) == Gcd(123, 99)
      == Gcd(99, 24) == Gcd(24, 3) == Gcd(3, 0) == 3;
  }

  /** Rational(1, 2) + Rational(1, 3) is 5 / 6. */
  lemma HalfPlusThird()
    ensures Add(Fraction(1, 1, 2), Fraction(1, 1, 3), 100) == Ok(Fraction(1, 5, 6))
  {
    Pow10AtLeast(100);
    DivModUnique(5, Pow10(100), 0, 5);
    DivModUnique(6, Pow10(100), 0, 6);
    assert Gcd(5, 6) == Gcd(6, 5) == Gcd(5, 1) == Gcd(1, 0) == 1;
  }

  /** Rational(1, 2) / Rational(0, 1) is refused as a division by zero. */
  lemma HalfOverZero()
    ensures Div(Fraction(1, 1, 2), Fraction(1, 0, 1), 100) == Err(DivisionByZero)
  {
  }

  /** A divisor stored as 1 / 0 is not refused: 1 / 2 divided by it is 0 / 1. */
  lemma DivByTruncatedDivisor()
    ensures Div(Fraction(1, 1, 2), Fraction(1, 1, 0), 100) == Ok(Fraction(1, 0, 1))
  {
    assert Div(Fraction(1, 1, 2), Fraction(1, 1, 0), 100) == Construct(0, 2, 100);
    ConstructZero(2, 100);
  }

  /** Rational(1, 2) == Rational(2, 4): both reduce to 1 / 2. */
  lemma HalfEqualsTwoQuarters()
    ensures Construct(1, 2, 100).Ok? && Construct(2, 4, 100).Ok?
    ensures Eq(Construct(1, 2, 100).value, Construct(2, 4, 100).value)
  {
    Pow10AtLeast(100);
    DivModUnique(1, Pow10(100), 0, 1);
    DivModUnique(2, Pow10(100), 0, 2);
    DivModUnique(4, Pow10(100), 0, 4);
    assert Gcd(1, 2) == Gcd(2, 1) == Gcd(1, 0) == 1;
    assert Gcd(2, 4) == Gcd(4, 2) == Gcd(2, 0) == 2;
  }

  /** Rational(0, -5) keeps the sign -1 while its value is 0 / 1. */
  lemma NegativeZeroKeepsSign()
    ensures Construct(0, -5, 100) == Ok(Fraction(-1, 0, 1))
    ensures Eq(Construct(0, -5, 100).value, Construct(0, 5, 100).value)
  {
    ConstructZero(-5, 100);
    ConstructZero(5, 100);
  }

  /** Digits past the capacity are dropped: at 1 digit, 1 / 10 is stored with denominator 0. */
  lemma TruncatedDenominator()
    ensures Construct(1, 10, 1) == Ok(Fraction(1, 1, 0))
    ensures Mul(Fraction(1, 1, 2), Fraction(1, 1, 5), 1) == Ok(Fraction(1, 1, 0))
  {
    assert Pow10(1) == 10;
    DivModUnique(1, 10, 0, 1);
    DivModUnique(10, 10, 1, 0);
    assert Gcd(1, 0) == 1;
  }

  /** The demo's r1 + r2, for r1 = Rational(123, 456) and r2 = Rational(-789, 1011): -26159 / 51224. */
  lemma DemoSum()
    ensures Construct(123, 456, 100).Ok? && Construct(-789, 1011, 100).Ok?
    ensures Add(Construct(123, 456, 100).value, Construct(-789, 1011, 100).value, 100)
      == Ok(Fraction(-1, 26159, 51224))
  {
    Construct123Over456();
    ConstructMinus789Over1011();
    assert Add(Fraction(1, 41, 152), Fraction(-1, 263, 337), 100) == Construct(-26159, 51224, 100);
    Pow10AtLeast(100);
    ConstructWithinCapacity(-26159, 51224, 100);
    Coprime26159And51224();
    ReduceCoprime(Fraction(-1, 26159, 51224));
  }

  /** The demo's r1 - r2 is 53793 / 51224. */
  lemma DemoDifference()
    ensures Construct(123, 456, 100).Ok? && Construct(-789, 1011, 100).Ok?
    ensures Sub(Construct(123, 456, 100).value, Construct(-789, 1011, 100).value, 100)
      == Ok(Fraction(1, 53793, 51224))
  {
    Construct123Over456();
    ConstructMinus789Over1011();
    assert Sub(Fraction(1, 41, 152), Fraction(-1, 263, 337), 100) == Construct(53793, 51224, 100);
    Pow10AtLeast(100);
    ConstructWithinCapacity(53793, 51224, 100);
    Coprime53793And51224();
    ReduceCoprime(Fraction(1, 53793, 51224));
  }

  /** The demo's r1 * r2 is -10783 / 51224. */
  lemma DemoProduct()
    ensures Construct(123, 456, 100).Ok? && Construct(-789, 1011, 100).Ok?
    ensures Mul(Construct(123, 456, 100).value, Construct(-789, 1011, 100).value, 100)
      == Ok(Fraction(-1, 10783, 51224))
  {
    Construct123Over456();
    ConstructMinus789Over1011();
    assert Mul(Fraction(1, 41, 152), Fraction(-1, 263, 337), 100) == Construct(-10783, 51224, 100);
    Pow10AtLeast(100);
    ConstructWithinCapacity(-10783, 51224, 100);
    Coprime10783And51224();
    ReduceCoprime(Fraction(-1, 10783, 51224));
  }

  /** The demo's r1 / r2 is -13817 / 39976: the negative denominator's sign moves to the numerator. */
  lemma DemoQuotient()
    ensures Construct(123, 456, 100).Ok? && Construct(-789, 1011, 100).Ok?
    ensures Div(Construct(123, 456, 100).value, Construct(-789, 1011, 100).value, 100)
      == Ok(Fraction(-1, 13817, 39976))
  {
    Construct123Over456();
    ConstructMinus789Over1011();
    assert Div(Fraction(1, 41, 152), Fraction(-1, 263, 337), 100) == Construct(-13817, 39976, 100);
    Pow10AtLeast(100);
    ConstructWithinCapacity(-13817, 39976, 100);
    Coprime13817And39976();
    ReduceCoprime(Fraction(-1, 13817, 39976));
  }

  /** The demo's comparisons: r1 == r2 and r1 < r2 are false, r1 > r2 is true. */
  lemma DemoComparisons()
    ensures Construct(123, 456, 100).Ok? && Construct(-789, 1011, 100).Ok?
    ensures !Eq(Construct(123, 456, 100).value, Construct(-789, 1011, 100).value)
    ensures !Lt(Construct(123, 456, 100).value, Construct(-789, 1011, 100).value)
    ensures Gt(Construct(123, 456, 100).value, Construct(-789, 1011, 100).value)
  {
    Construct123Over456();
    ConstructMinus789Over1011();
  }

  /** Euclid's chain for the demo's sum. */
  lemma Coprime26159And51224()
    ensures Gcd(26159, 51224) == 1
  {
    assert Gcd(26159, 51224) == Gcd(51224, 26159) == Gcd(26159, 25065) == Gcd(25065, 1094) == Gcd(1094, 997)
      == Gcd(997, 97) == Gcd(97, 27) == Gcd(27, 16) == Gcd(16, 11) == Gcd(11, 5)
      == Gcd(5, 1) == Gcd(1, 0) == 1;
  }

  /** Euclid's chain for the demo's difference. */
  lemma Coprime53793And51224()
    ensures Gcd(53793, 51224) == 1
  {
    assert Gcd(53793, 51224) == Gcd(51224, 2569) == Gcd(2569, 2413) == Gcd(2413, 156) == Gcd(156, 73)
      == Gcd(73, 10) == Gcd(10, 3) == Gcd(3, 1) == Gcd(1, 0) == 1;
  }

  /** Euclid's chain for the demo's product. */
  lemma Coprime10783And51224()
    ensures Gcd(10783, 51224) == 1
  {
    assert Gcd(10783, 51224) == Gcd(51224, 10783) == Gcd(10783, 8092) == Gcd(8092, 2691) == Gcd(2691, 19)
      == Gcd(19, 12) == Gcd(12, 7) == Gcd(7, 5) == Gcd(5, 2) == Gcd(2, 1)
      == Gcd(1, 0) == 1;
  }

  /** Euclid's chain for the demo's quotient. */
  lemma Coprime13817And39976()
    ensures Gcd(13817, 39976) == 1
  {
    assert Gcd(13817, 39976) == Gcd(39976, 13817) == Gcd(13817, 12342) == Gcd(12342, 1475) == Gcd(1475, 542)
      == Gcd(542, 391) == Gcd(391, 151) == Gcd(151, 89) == Gcd(89, 62) == Gcd(62, 27)
      == Gcd(27, 8) == Gcd(8, 3) == Gcd(3, 2) == Gcd(2, 1) == Gcd(1, 0) == 1;
  }

  /** A fraction whose magnitudes are already coprime is its own reduction. */
  lemma ReduceCoprime(f: Fraction)
    requires f.num != 0 && Gcd(f.num, f.den) == 1
    ensures Reduce(f) == f
  {
  }
}
