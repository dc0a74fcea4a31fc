/**
 * The `Rational` class itself: a sign and two fixed-capacity digit arrays
 * (least significant digit first) for the numerator and the denominator
 * magnitudes.  Construction encodes the magnitudes digit by digit and then
 * reduces the fraction in place; every operator decodes both operands,
 * combines the integers and constructs a new Rational of the left operand's
 * capacity.  Each method is proved against the functions of `Fractions` on
 * the decoded value `Model()`.
 */
module Rationals {
  import NumberTheory
  import opened Digits
  import opened Fractions

  class Rational {
    /** The digit capacity, min(requested size, MaxDigits). */
    const size: nat
    /** +1 or -1; fixed at construction (a zero may keep -1). */
    const sign: int
    var numerator: array<int>
    var denominator: array<int>

    /** Both digit arrays have exactly `size` decimal digits and the sign is +1 or -1. */
    ghost predicate WellFormed()
      reads this, numerator, denominator
    {
      && 1 <= size <= MaxDigits
      && numerator.Length == size && denominator.Length == size
      && IsDigits(numerator[..]) && IsDigits(denominator[..])
      && (sign == 1 || sign == -1)
    }

    /** The decoded value: sign, numerator magnitude, denominator magnitude. */
    ghost function Model(): Fraction
      reads this, numerator, denominator
      requires WellFormed()
    {
      Fraction(sign, Value(numerator[..]), Value(denominator[..]))
    }

    /** The invariant construction establishes: well-formed and in lowest terms. */
    ghost predicate Valid()
      reads this, numerator, denominator
    {
      WellFormed() && Normal(Model())
    }

    /**
     * The digit encoder: `size` digits of value, least significant first;
     * the loop stops when value runs out or the capacity is reached, so any
     * higher digits are dropped.
     */
    static method IntToDigits(value: nat, size: nat) returns (digits: array<int>)
      ensures fresh(digits)
      ensures digits.Length == size && digits[..] == Encode(value, size)
    {
      digits := new int[size](_ => 0);
      var v: nat := value;
      var idx := 0;
      while v > 0 && idx < size
        invariant 0 <= idx <= size && digits.Length == size
        invariant Encode(value, size) == digits[..idx] + Encode(v, size - idx)
        invariant forall j :: idx <= j < size ==> digits[j] == 0
      {
        ghost var done := digits[..idx];
        EncodeStep(done, v, size - idx);
        digits[idx] := v % 10;
        assert digits[..idx + 1] == done + [v % 10];
        v := v / 10;
        idx := idx + 1;
      }
      if idx < size {
        EncodeZero(size - idx);
        assert digits[idx..] == Encode(0, size - idx);
      }
      assert digits[..] == digits[..idx] + digits[idx..];
    }

    /** The digit decoder: Horner's rule from the most significant position down. */
    static method DigitsToInt(digits: array<int>, size: nat) returns (value: int)
      requires size <= digits.Length
      ensures value == Value(digits[..size])
    {
      value := 0;
      var idx := size;
      while idx > 0
        invariant 0 <= idx <= size
        invariant value == Value(digits[idx..size])
      {
        idx := idx - 1;
        assert digits[idx..size][1..] == digits[idx + 1..size];
        value := value * 10 + digits[idx];
      }
      assert digits[0..size] == digits[..size];
    }

    /** Euclid's algorithm by repeated remainders, with the gcd's defining properties. */
    static method Gcd(a: nat, b: nat) returns (g: nat)
      ensures g == NumberTheory.Gcd(a, b)
      ensures a != 0 || b != 0 ==> g > 0
      ensures NumberTheory.Divides(g, a) && NumberTheory.Divides(g, b)
      ensures forall d: nat :: NumberTheory.Divides(d, a) && NumberTheory.Divides(d, b) ==> NumberTheory.Divides(d, g)
    {
      var x, y := a, b;
      while y != 0
        invariant NumberTheory.Gcd(x, y) == NumberTheory.Gcd(a, b)
        decreases y
      {
        x, y := y, x % y;
      }
      g := x;
      NumberTheory.GcdIsGreatestCommonDivisor(a, b);
    }

    /**
     * Reduction in place: a zero numerator only resets the denominator to 1;
     * otherwise both magnitudes are divided by their gcd and re-encoded.
     */
    method Reduce()
      requires WellFormed()
      modifies this
      ensures Valid()
      ensures Model() == Fractions.Reduce(old(Model()))
      ensures old(Model()).num == 0 ==> numerator == old(numerator) && numerator[..] == old(numerator[..])
    {
      ghost var f := Model();
      var num := DigitsToInt(numerator, size);
      var denom := DigitsToInt(denominator, size);
      assert numerator[..size] == numerator[..] && denominator[..size] == denominator[..];
      if num == 0 {
        var one := new int[size](i => if i == 0 then 1 else 0);
        ValueOfUnit(one[..]);
        denominator := one;
        return;
      }
      var g := Gcd(num, denom);
      NumberTheory.QuotientNonNeg(num, g);
      NumberTheory.QuotientNonNeg(denom, g);
      num := num / g;
      denom := denom / g;
      ReencodeReduced(f, size);
      numerator := IntToDigits(num, size);
      denominator := IntToDigits(denom, size);
    }

    /**
     * Rational(a, b, size) for b != 0: capacity min(size, MaxDigits), the
     * magnitudes of a and b encoded (modulo 10^capacity), the sign -1 exactly
     * when one of a, b is negative, then reduced.
     */
    constructor (a: int := 0, b: int := 1, size: int := 100)
      requires b != 0 && 1 <= size
      ensures Valid() && this.size == Capacity(size)
      ensures Construct(a, b, size) == Ok(Model())
    {
      var cap := Capacity(size);
      var num := IntToDigits(Abs(a), cap);
      var den := IntToDigits(Abs(b), cap);
      this.size := cap;
      numerator := num;
      denominator := den;
      sign := if (a < 0) != (b < 0) then -1 else 1;
      new;
      EncodeValue(Abs(a), cap);
      EncodeValue(Abs(b), cap);
      Reduce();
    }

    /** Construction with the error path: a zero denominator is refused. */
    static method Create(a: int := 0, b: int := 1, size: int := 100) returns (r: Result<Rational>)
      requires 1 <= size
      ensures r.Err? ==> Construct(a, b, size) == Err(r.error)
      ensures r.Ok? ==> fresh(r.value) && r.value.Valid() && r.value.size == Capacity(size)
      ensures r.Ok? ==> Construct(a, b, size) == Ok(r.value.Model())
    {
      if b == 0 {
        return Err(InvalidDenominator);
      }
      var q := new Rational(a, b, size);
      return Ok(q);
    }

    /** The signed numerator and the denominator magnitude, decoded. */
    method Parts() returns (num: int, den: int)
      requires WellFormed()
      ensures num == SignedNum(Model()) && den == Model().den
    {
      var n := DigitsToInt(numerator, size);
      num := sign * n;
      den := DigitsToInt(denominator, size);
      assert numerator[..size] == numerator[..] && denominator[..size] == denominator[..];
    }

    /** self + other, at self's capacity. */
    method Add(other: Rational) returns (r: Result<Rational>)
      requires WellFormed() && other.WellFormed()
      ensures r.Err? ==> Fractions.Add(Model(), other.Model(), size) == Err(r.error)
      ensures r.Ok? ==> fresh(r.value) && r.value.Valid() && r.value.size == size
      ensures r.Ok? ==> Fractions.Add(Model(), other.Model(), size) == Ok(r.value.Model())
    {
      var num1, denom1 := Parts();
      var num2, denom2 := other.Parts();
      var newNum := num1 * denom2 + num2 * denom1;
      var newDen := denom1 * denom2;
      r := Create(newNum, newDen, size);
    }

    /** self - other, at self's capacity. */
    method Sub(other: Rational) returns (r: Result<Rational>)
      requires WellFormed() && other.WellFormed()
      ensures r.Err? ==> Fractions.Sub(Model(), other.Model(), size) == Err(r.error)
      ensures r.Ok? ==> fresh(r.value) && r.value.Valid() && r.value.size == size
      ensures r.Ok? ==> Fractions.Sub(Model(), other.Model(), size) == Ok(r.value.Model())
    {
      var num1, denom1 := Parts();
      var num2, denom2 := other.Parts();
      var newNum := num1 * denom2 - num2 * denom1;
      var newDen := denom1 * denom2;
      r := Create(newNum, newDen, size);
    }

    /** self * other, at self's capacity. */
    method Mul(other: Rational) returns (r: Result<Rational>)
      requires WellFormed() && other.WellFormed()
      ensures r.Err? ==> Fractions.Mul(Model(), other.Model(), size) == Err(r.error)
      ensures r.Ok? ==> fresh(r.value) && r.value.Valid() && r.value.size == size
      ensures r.Ok? ==> Fractions.Mul(Model(), other.Model(), size) == Ok(r.value.Model())
    {
      var num1, denom1 := Parts();
      var num2, denom2 := other.Parts();
      var newNum := num1 * num2;
      var newDen := denom1 * denom2;
      r := Create(newNum, newDen, size);
    }

    /** self / other, at self's capacity; a zero divisor is refused. */
    method Div(other: Rational) returns (r: Result<Rational>)
      requires WellFormed() && other.WellFormed()
      ensures r.Err? ==> Fractions.Div(Model(), other.Model(), size) == Err(r.error)
      ensures r.Ok? ==> fresh(r.value) && r.value.Valid() && r.value.size == size
      ensures r.Ok? ==> Fractions.Div(Model(), other.Model(), size) == Ok(r.value.Model())
    {
      var num1, denom1 := Parts();
      var num2, denom2 := other.Parts();
      if num2 == 0 {
        return Err(DivisionByZero);
      }
      var newNum := num1 * denom2;
      var newDen := denom1 * num2;
      if newDen < 0 {
        newDen := -newDen;
        newNum := -newNum;
      }
      assert Fractions.Div(Model(), other.Model(), size) == Construct(newNum, newDen, size);
      r := Create(newNum, newDen, size);
    }

    /** self == other: equal signed numerators and equal denominators. */
    method Equals(other: Rational) returns (b: bool)
      requires WellFormed() && other.WellFormed()
      ensures b == Fractions.Eq(Model(), other.Model())
    {
      var num1, denom1 := Parts();
      var num2, denom2 := other.Parts();
      b := num1 == num2 && denom1 == denom2;
    }

    /** self < other, by cross-multiplication. */
    method Less(other: Rational) returns (b: bool)
      requires WellFormed() && other.WellFormed()
      ensures b == Fractions.Lt(Model(), other.Model())
    {
      var num1, denom1 := Parts();
      var num2, denom2 := other.Parts();
      b := num1 * denom2 < num2 * denom1;
    }

    /** self <= other, as self == other or self < other. */
    method LessOrEqual(other: Rational) returns (b: bool)
      requires WellFormed() && other.WellFormed()
      ensures b == Fractions.Le(Model(), other.Model())
    {
      b := Equals(other);
      if !b {
        b := Less(other);
      }
    }

    /** self > other, as not self <= other. */
    method Greater(other: Rational) returns (b: bool)
      requires WellFormed() && other.WellFormed()
      ensures b == Fractions.Gt(Model(), other.Model())
    {
      var le := LessOrEqual(other);
      b := !le;
    }

    /** self >= other, as not self < other. */
    method GreaterOrEqual(other: Rational) returns (b: bool)
      requires WellFormed() && other.WellFormed()
      ensures b == Fractions.Ge(Model(), other.Model())
    {
      var lt := Less(other);
      b := !lt;
    }

    /** Truthiness: the numerator magnitude is not zero. */
    method ToBool() returns (b: bool)
      requires WellFormed()
      ensures b == IsNonZero(Model())
    {
      var n := DigitsToInt(numerator, size);
      assert numerator[..size] == numerator[..];
      b := n != 0;
    }
  }

  /**
   * The reduced magnitudes of a nonzero fraction that fits in `size` digits
   * still fit, so re-encoding them loses nothing, and the result is normal.
   */
  lemma ReencodeReduced(f: Fraction, size: nat)
    requires f.num != 0 && f.num < Pow10(size) && f.den < Pow10(size)
    requires f.sign == 1 || f.sign == -1
    ensures Value(Encode(Reduce(f).num, size)) == Reduce(f).num
    ensures Value(Encode(Reduce(f).den, size)) == Reduce(f).den
    ensures Normal(Reduce(f)) && Reduce(f).sign == f.sign
  {
    ReduceShape(f);
    RoundTrip(Reduce(f).num, size);
    RoundTrip(Reduce(f).den, size);
  }
}
