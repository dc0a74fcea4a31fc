# Rational: fixed-capacity decimal-digit fractions

This project models the `Rational` class of `indiv_task2.py`, an exact rational number
stored as a sign (+1 or -1) and two magnitudes. Each magnitude, the numerator and the
denominator, is a fixed-length list of decimal digits, least significant digit first.
The capacity is the requested size clamped to `MAX_DIGITS = 100`.

- Construction refuses a zero denominator. It encodes `|a|` and `|b|` digit by digit,
  takes the sign -1 exactly when one of `a`, `b` is negative, and reduces the fraction
  to lowest terms with Euclid's algorithm.
- The four operators decode both operands, combine the signed integers by the usual
  fraction formulas and construct a new `Rational` at the left operand's capacity.
- The comparisons decode both operands and compare by cross-multiplication.
- Truthiness is "the numerator is not zero".

The project has four modules:

- `NumberTheory` (`gcd.dfy`): Euclid's `Gcd` as a function, proved to be the greatest
  common divisor. It also proves Bezout's identity, Euclid's lemma, and that two fractions
  in lowest terms with equal cross products have the same parts.
- `Digits` (`digits.dfy`): the meaning of a least-significant-first digit list (`Value`)
  and the list the encoder produces (`Encode`), with both round trips.
- `Fractions` (`fractions.dfy`): the decoded state of a `Rational` as a value
  (`Fraction`). It gives construction, reduction, the operators and the comparisons as
  functions on that value, and proves what they mean for exact rational numbers (`Val`).
- `Rationals` (`rational.dfy`): the class `Rational`.
  - Fields: `size` and `sign`, set once; `numerator` and `denominator`, arrays of digits.
  - The encoder, decoder and gcd loops are methods with loop invariants.
  - Reduction reassigns the digit arrays in place.
  - The constructor and every operator and comparison are proved against the functions of
    `Fractions` on the decoded state `Model()`.
  - The encoder and decoder take the capacity as a parameter, where the source reads it
    from `self.size`.

Three behaviours of the code that a reader might not expect:

- **Truncation, not an error.** A magnitude that does not fit is truncated silently: only
  its low `size` digits are kept, so the stored value is `v mod 10^size`. Because of this, a stored denominator can be 0: `Rational(1, 10, 1)` is
  stored as 1/0 (`Fractions.TruncatedDenominator`). So every value lemma asks for a nonzero
  denominator, and the operators can fail with `InvalidDenominator` on such an operand.
- **Zero keeps its sign.** When the numerator is 0, only the denominator is reset to 1 and
  the computed sign is kept: `Rational(0, -5)` has sign -1
  (`Fractions.NegativeZeroKeepsSign`). Equality is unaffected, since it compares signed
  numerators.
- **Exceptions become results.** The `ValueError`s of the source are the `Err` values
  `InvalidDenominator` and `DivisionByZero` of a `Result`. The Dafny constructor itself
  requires `b != 0`; `Rational.Create` is the construction entry point that includes the
  error path.

## Model

| member | source | states |
|---|---|---|
| Fractions.Capacity | indiv_task2.py:10 | the capacity is min(size, 100): the requested size when that is at most 100, exactly 100 above it, and at least 1 |
| Rationals.Rational.constructor | indiv_task2.py:7-14 | a constructed Rational is well formed and in lowest terms, has capacity min(size, 100), and its decoded state is `Construct(a, b, size)` |
| Rationals.Rational.Create | indiv_task2.py:7-14 | a zero denominator yields `InvalidDenominator`; otherwise a fresh valid Rational whose decoded state is `Construct(a, b, size)` |
| Fractions.ConstructShape | indiv_task2.py:7-14 | construction fails exactly when b == 0, with `InvalidDenominator`; otherwise the result is in lowest terms, its sign is -1 exactly when one of a, b is negative, and both magnitudes fit in the capacity |
| Fractions.ConstructWithinCapacity | indiv_task2.py:10-14 | when |a| and |b| fit in the capacity, nothing is truncated: the result is the reduction of |a| / |b| with the sign rule |
| Fractions.ConstructExact | indiv_task2.py:7-14 | when |a| and |b| fit in the capacity, the constructed value is exactly a / b |
| Fractions.ConstructZero | indiv_task2.py:43-45 | a zero numerator gives 0/1 with the sign of the denominator |
| Fractions.ConstructOfNormal | indiv_task2.py:7-14 | constructing from the signed numerator and denominator of a reduced fraction gives it back, except that a zero gets sign +1 |
| Rationals.Rational.IntToDigits | indiv_task2.py:17-24 | the encoder loop returns a fresh array of exactly `size` entries equal to `Encode(value, size)` |
| Digits.Encode | indiv_task2.py:17-24 | an encoding has exactly n entries, each a digit 0..9 |
| Digits.EncodeValue | indiv_task2.py:17-24 | decoding an encoding gives v mod 10^n: digits beyond the capacity are dropped |
| Digits.RoundTrip | indiv_task2.py:17-31 | decode(encode(v)) == v for every v < 10^n |
| Digits.DecodeEncode | indiv_task2.py:17-31 | encode(decode(ds)) == ds for every digit list ds, and its value is non-negative |
| Digits.EncodeZero | indiv_task2.py:18-20 | encoding 0 leaves every position 0 |
| Rationals.Rational.DigitsToInt | indiv_task2.py:27-31 | the decoder loop (most significant digit first, value*10 + digit) returns `Value` of the first `size` digits |
| Digits.Value | indiv_task2.py:27-31 | the value of a digit list of length n lies in 0 .. 10^n - 1 |
| Digits.ValueOfUnit | indiv_task2.py:44 | the list [1, 0, ..., 0] stands for 1 |
| Rationals.Rational.Gcd | indiv_task2.py:34-37 | the remainder loop returns `Gcd(a, b)`: a common divisor of a and b that every common divisor divides, positive unless both are 0 |
| NumberTheory.Gcd | indiv_task2.py:34-37 | Euclid's recursion yields a positive result unless both arguments are 0 |
| NumberTheory.GcdIsGreatestCommonDivisor | indiv_task2.py:34-37 | Gcd(a, b) divides a and b, every common divisor divides it, and it is positive unless a = b = 0 |
| NumberTheory.CoprimeQuotients | indiv_task2.py:47-49 | dividing a nonzero a and b by their gcd leaves coprime quotients |
| NumberTheory.CoprimeCrossEqual | indiv_task2.py:116-120 | two fractions in lowest terms with positive denominators and equal cross products have equal numerators and denominators |
| Rationals.Rational.Reduce | indiv_task2.py:40-50 | reduction in place leaves a well-formed Rational in lowest terms whose decoded state is `Reduce` of the old one; with a zero numerator the numerator array and its digits are untouched |
| Rationals.ReencodeReduced | indiv_task2.py:47-50 | the reduced magnitudes of a fraction that fits still fit, so re-encoding them is lossless, and the reduced fraction is normal |
| Fractions.ReduceShape | indiv_task2.py:40-50 | reduction keeps the sign, yields lowest terms (a zero as 0/1 with the sign kept), does not enlarge the numerator, and enlarges the denominator by at most 1 (a stored 0/0 becomes 0/1) |
| Fractions.ReduceRatio | indiv_task2.py:46-50 | with a nonzero numerator, reduction keeps the ratio (equal cross products), and the denominator is zero after exactly when it was before |
| Fractions.ReduceIdempotent | indiv_task2.py:40-50 | reducing a fraction already in lowest terms changes nothing |
| Rationals.Rational.Parts | indiv_task2.py:66-69 | decoding yields the signed numerator and the denominator of the decoded state |
| Rationals.Rational.Add | indiv_task2.py:63-72 | the result, or error, is `Fractions.Add` of the two decoded states at the left capacity; a result is fresh and valid |
| Rationals.Rational.Sub | indiv_task2.py:75-84 | the result, or error, is `Fractions.Sub` of the two decoded states at the left capacity; a result is fresh and valid |
| Rationals.Rational.Mul | indiv_task2.py:87-96 | the result, or error, is `Fractions.Mul` of the two decoded states at the left capacity; a result is fresh and valid |
| Rationals.Rational.Div | indiv_task2.py:99-113 | the result, or error, is `Fractions.Div` of the two decoded states at the left capacity; a result is fresh and valid |
| Fractions.OperatorErrors | indiv_task2.py:63-113 | Add, Sub and Mul fail exactly when an operand's denominator is 0; Div fails with `DivisionByZero` on a zero divisor, and otherwise fails, with `InvalidDenominator`, exactly when the left operand's denominator is 0 |
| Fractions.AddExact | indiv_task2.py:63-72 | when the raw sum fits in the capacity, the result's value is exactly the sum of the operands' values |
| Fractions.SubExact | indiv_task2.py:75-84 | when the raw difference fits in the capacity, the result's value is exactly the difference |
| Fractions.MulExact | indiv_task2.py:87-96 | when the raw product fits in the capacity, the result's value is exactly the product |
| Fractions.DivExact | indiv_task2.py:99-113 | for a nonzero divisor whose raw quotient fits, the result's value is exactly the quotient |
| Fractions.AddMulCommute | indiv_task2.py:63-96 | addition and multiplication do not depend on the order of the operands |
| Fractions.AddZeroIdentity | indiv_task2.py:63-72 | adding 0/1 to a reduced fraction gives it back (a zero with sign -1 comes back with sign +1), and `==` holds |
| Fractions.MulOneIdentity | indiv_task2.py:87-96 | multiplying a reduced fraction by 1/1 gives it back (a zero gets sign +1), and `==` holds |
| Fractions.MulIsNormal | indiv_task2.py:87-96 | every successful product is in lowest terms |
| Fractions.DivMulInverse | indiv_task2.py:87-113 | (x / y) * y == x whenever every intermediate result fits |
| Rationals.Rational.Equals | indiv_task2.py:116-120 | `==` compares signed numerators and denominators of the decoded states |
| Fractions.EqIffSameValue | indiv_task2.py:116-120 | on reduced fractions, `==` holds exactly when the values are equal |
| Rationals.Rational.Less | indiv_task2.py:123-127 | `<` is the cross-multiplication order of the decoded states |
| Fractions.LtIffLessValue | indiv_task2.py:123-127 | `<` holds exactly when the first value is smaller |
| Fractions.ExactlyOne | indiv_task2.py:116-137 | `==` and `<` never both hold, and exactly one of `<`, `==`, `>` holds |
| Rationals.Rational.LessOrEqual | indiv_task2.py:130-131 | `<=` is `==` or `<` on the decoded states |
| Rationals.Rational.Greater | indiv_task2.py:133-134 | `>` is the negation of `<=` |
| Rationals.Rational.GreaterOrEqual | indiv_task2.py:136-137 | `>=` is the negation of `<` |
| Fractions.MirroredComparisons | indiv_task2.py:130-137 | on reduced fractions, `>` is `<` mirrored, `>=` is `<=` mirrored, and `<=` is the order of the values |
| Rationals.Rational.ToBool | indiv_task2.py:146-147 | truthiness is "the numerator magnitude is nonzero" |
| Fractions.IsNonZeroIffValue | indiv_task2.py:146-147 | on reduced fractions, truthiness holds exactly when the value is not zero |
| Fractions.Construct123Over456 | indiv_task2.py:152 | Rational(123, 456, 100) is 41/152 |
| Fractions.ConstructMinus789Over1011 | indiv_task2.py:154 | Rational(-789, 1011, 100) is -263/337 |
| Fractions.DemoSum | indiv_task2.py:156 | the demo's r1 + r2, with r1 = Rational(123, 456, 100) and r2 = Rational(-789, 1011, 100), is -26159/51224 |
| Fractions.DemoDifference | indiv_task2.py:157 | the demo's r1 - r2 is 53793/51224 |
| Fractions.DemoProduct | indiv_task2.py:158 | the demo's r1 * r2 is -10783/51224 |
| Fractions.DemoQuotient | indiv_task2.py:159 | the demo's r1 / r2 is -13817/39976, the divisor's sign moved to the numerator |
| Fractions.DemoComparisons | indiv_task2.py:160-162 | in the demo, r1 == r2 and r1 < r2 are false and r1 > r2 is true |
| Fractions.HalfPlusThird | indiv_task2.py:63-72 | 1/2 + 1/3 is 5/6 |
| Fractions.HalfOverZero | indiv_task2.py:106-107 | dividing 1/2 by 0/1 fails with `DivisionByZero` |
| Fractions.DivByTruncatedDivisor | indiv_task2.py:102-113 | a divisor stored as 1/0 is not refused: 1/2 divided by it gives 0/1 |
| Fractions.HalfEqualsTwoQuarters | indiv_task2.py:116-120 | Rational(1, 2) == Rational(2, 4) |
| Fractions.NegativeZeroKeepsSign | indiv_task2.py:43-45 | Rational(0, -5) is stored with sign -1 and still equals Rational(0, 5) |
| Fractions.TruncatedDenominator | indiv_task2.py:20 | at capacity 1, Rational(1, 10) and (1/2) * (1/5) are stored as 1/0 |

## Left out

- `__float__` (indiv_task2.py:140-143): floating-point division has no counterpart here. The exact value `Fractions.Val` is a Dafny `real`.
- `__str__` and `__repr__` (indiv_task2.py:53-60): text formatting only.
- The `isinstance` guards of the operators and comparisons (indiv_task2.py:64-65, 76-77, 88-89, 100-101, 117-118, 124-125): Dafny's types rule out a non-`Rational` operand.
- The printing in the `__main__` block (indiv_task2.py:150-162). The values it prints are stated by lemmas: the two constructions by `Construct123Over456` and `ConstructMinus789Over1011`, the four operators by `DemoSum`, `DemoDifference`, `DemoProduct` and `DemoQuotient`, and the three comparisons by `DemoComparisons`.
- indiv_task1.py, the pair and range utility, is not part of this model.
- A requested size below 1: the constructor, `Create` and the operators require `1 <= size`. The source would then keep an empty numerator list, while `_reduce` still sets the denominator to `[1]` (indiv_task2.py:44).
- `IntToDigits` takes a natural number. The source is only ever called with absolute values.
- Fractions.AddExact, SubExact, MulExact, DivExact, DivMulInverse: stated only when the raw result fits in the capacity and the operands have nonzero denominators. Beyond that the source truncates, and `EncodeValue` and `TruncatedDenominator` state what is stored instead.
