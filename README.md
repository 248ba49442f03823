# Fraction — a verified Dafny model

This project models `Fraction`, an exact rational-number value type written in
Python. A fraction is stored as a pair of integers (numerator, denominator).
The constructor refuses a zero denominator and moves the sign onto the
numerator, so a constructed fraction always has a positive denominator.
Nothing is ever reduced to lowest terms: `Fraction(2, 4)` keeps 2 and 4.
The operators `+ - * / **` build a new fraction from closed-form products and
route it through the constructor. The comparisons `== != < <= >`
cross-multiply. A few predicates classify a fraction, and two methods render
it as text.

Modules:

- `Fractions` (`fraction.dfy`): the `Fraction` datatype with its validity
  predicate `Valid()` (denominator > 0), the constructor `Make`, the
  arithmetic operators, the comparisons, `Abs` and the classification
  predicates. The Python properties `numerator` and `denominator` are the
  datatype's fields `num` and `den`. Failures are values of
  `Result<T> = Ok(value) | Err(error)`:
  - `ZeroDenominator` is the constructor's `ValueError`;
  - `ZeroDivisor` is the `ValueError` of `/`;
  - `ZeroDivision` is the `ZeroDivisionError` of `as_mixed_number`.
  `Value(x)` is the exact rational a valid fraction stands for, as a Dafny
  `real`. It serves as the independent reference for every operator.
- `FractionLaws` (`laws.dfy`) holds the laws of the operators. Each operator
  is tied to `Value`: the constructor keeps the value, `Eq` and `Lt` compare
  values, `Add`, `Sub`, `Mul` and `Div` compute the sum, difference,
  product and quotient, `Pow` computes the n-th power (`RealPower`) and `Abs`
  the absolute value. It also proves the inverse round trips
  `(x - y) + y == x` and `(x / y) * y == x`. `Eq` is an equivalence, and `Lt`
  is a strict total order up to `Eq`. `Eq`, `Lt`, `+` and `is_integer` respect
  `Eq` (`LtRespectsEq`, `AddRespectsEq`, `IsIntegerRespectsEq`). `is_unit`,
  `is_adjacent_to` and both texts depend on the stored pair.
- `FractionText` (`text.dfy`) covers `__str__` and `as_mixed_number`. It
  includes Python-style `//` and `%` and decimal rendering of integers. Each
  rendering has a reader, and the round trips are proved.
- `FractionScenarios` (`scenarios.dfy`) restates the unit tests on concrete
  values. It also shows the literal quirks of the class.

The class is modelled literally, quirks included:

- `as_mixed_number` divides the denominator by the numerator, so its text
  stands for den/num, the reciprocal (`MixedIsReciprocal`). 7/2 is rendered
  "0 2/7".
- Its zero guard sits inside a string literal and never runs. That guard
  tests the denominator, so it would matter only for a zero denominator,
  which only assigning to `den` can produce. There the method returns "0"
  (`MixedNumberScenarios`). A zero numerator fails with `ZeroDivision` at
  `den % num`, with or without the guard.
- `is_adjacent_to` is true only when `abs(self - other)` is stored literally
  as 4/16. 3/4 and 1/2 are a quarter apart, yet they are not adjacent
  (`AdjacencyScenarios`).
- `is_unit` looks at the stored numerator only: 2/6 is not a unit fraction,
  although it equals 1/3.

The operators are total over any `Fraction` value, as the Python methods
are over any instance. On valid operands, `Add`, `Sub`, `Mul`, `Pow` and
`Abs` never fail. `Div` fails exactly when the divisor's numerator is 0.

## Model

| member | source | states |
|---|---|---|
| `Fractions.Make` | Fraction.py:3-24 | defaults to num = 0, den = 1; fails with `ZeroDenominator` iff den == 0; otherwise the stored denominator is positive, both signs are flipped exactly when den < 0, and num·den' == num'·den (the value is kept) |
| `Fractions.Add` | Fraction.py:91-93 | fails iff b·d == 0; on valid operands yields exactly (a·d + c·b, b·d), unreduced |
| `Fractions.Sub` | Fraction.py:109-111 | fails iff b·d == 0; on valid operands yields exactly (a·d − c·b, b·d), unreduced |
| `Fractions.Mul` | Fraction.py:124-127 | fails iff b·d == 0; on valid operands yields exactly (a·c, b·d), unreduced |
| `Fractions.Div` | Fraction.py:144-148 | fails with `ZeroDivisor` whenever the divisor's numerator is 0; otherwise, on a valid dividend, yields a valid (a·d, b·c), with the signs flipped when c < 0 |
| `Fractions.PowerPositive` | Fraction.py:163-164 | a positive base raised to a natural power stays positive, so the denominator of `x ** n` is never 0 |
| `Fractions.Pow` | Fraction.py:163-165 | on a valid fraction yields the valid (aⁿ, bⁿ); exponent 0 yields 1/1 |
| `Fractions.Abs` | Fraction.py:342-344 | fails iff den == 0; on a valid fraction keeps den and yields a numerator that is non-negative and equals ±num |
| `Fractions.Value` | Fraction.py:192 | the exact rational num/den of a valid fraction, the quantity `__float__` approximates |
| `Fractions.Power` | Fraction.py:163-164 | Python's integer `**` for a natural exponent: 1 for exponent 0, otherwise base times the power one lower |
| `Fractions.Eq` | Fraction.py:179 | `==` holds iff a·d == c·b: cross-multiplication, no reduction |
| `Fractions.Ne` | Fraction.py:266 | `!=` holds iff a·d != c·b |
| `Fractions.Lt` | Fraction.py:211 | `<` holds iff a·d < c·b |
| `Fractions.Le` | Fraction.py:229 | `<=` holds iff a·d <= c·b |
| `Fractions.Gt` | Fraction.py:247 | `>` holds iff a·d > c·b |
| `Fractions.Ge` | testUnitaire_Fraction.py:72 | `x >= y` is the reflected `y <= x`, since the class defines no `__ge__` |
| `Fractions.IsZero` | Fraction.py:281 | holds iff the stored numerator is 0 |
| `Fractions.IsInteger` | Fraction.py:294 | holds iff den == 1 or den divides num, for a positive den |
| `Fractions.IsProper` | Fraction.py:307 | holds iff \|num\| < \|den\| |
| `Fractions.IsUnit` | Fraction.py:320 | holds iff the stored numerator is 1 |
| `Fractions.IsAdjacentTo` | Fraction.py:335-339 | fails iff b·d == 0; on valid operands is true iff b·d == 16 and a·d − c·b is ±4, so that abs(self − other) is stored as 4/16 |
| `FractionLaws.MakeValue` | Fraction.py:15-24 | the constructor succeeds on a non-zero denominator and keeps the exact value num/den |
| `FractionLaws.MakeScaled` | Fraction.py:177-182 | representation independence: Make(k·a, k·b) equals Make(a, b) for every k ≠ 0 |
| `FractionLaws.EqIffSameValue` | Fraction.py:177-182 | on valid fractions `==` holds iff the exact values are equal |
| `FractionLaws.NeIsNotEq` | Fraction.py:263-269 | `!=` is exactly the negation of `==` |
| `FractionLaws.EqReflexive` | Fraction.py:179 | every fraction equals itself |
| `FractionLaws.EqSymmetric` | Fraction.py:179 | `==` is symmetric |
| `FractionLaws.EqTransitive` | Fraction.py:179 | `==` is transitive on valid fractions |
| `FractionLaws.LtIffSmallerValue` | Fraction.py:211-250 | on valid fractions `<`, `<=`, `>` and the reflected `>=` compare the exact values |
| `FractionLaws.Trichotomy` | Fraction.py:211-250 | exactly one of `<`, `==`, `>` holds |
| `FractionLaws.LeIsLtOrEq` | Fraction.py:229-232 | `<=` is `<` or `==`; `>` is the reflected `<`; `>=` is `>` or `==` |
| `FractionLaws.LtTransitive` | Fraction.py:211-214 | `<` is transitive on valid fractions |
| `FractionLaws.LtRespectsEq` | Fraction.py:211-214 | replacing a fraction by an equal one does not change `<` |
| `FractionLaws.AddValue` | Fraction.py:91-93 | the value of x + y is the sum of the values |
| `FractionLaws.AddCommutes` | Fraction.py:91-93 | x + y and y + x are the same stored pair |
| `FractionLaws.AddRespectsEq` | Fraction.py:91-93 | adding equal fractions gives equal sums |
| `FractionLaws.SubValue` | Fraction.py:109-111 | the value of x − y is the difference of the values |
| `FractionLaws.SubThenAdd` | Fraction.py:109-111 | (x − y) + y equals x |
| `FractionLaws.MulValue` | Fraction.py:125-127 | the value of x · y is the product of the values |
| `FractionLaws.MulCommutes` | Fraction.py:125-127 | x · y and y · x are the same stored pair |
| `FractionLaws.DivValue` | Fraction.py:144-148 | for a non-zero divisor the value of x / y is the quotient of the values |
| `FractionLaws.ReciprocalValue` | Fraction.py:146-148 | 1 / x has the value den/num |
| `FractionLaws.DivThenMul` | Fraction.py:144-148 | (x / y) · y equals x |
| `FractionLaws.PowerAdd` | Fraction.py:163-164 | aᵐ⁺ⁿ == aᵐ · aⁿ for the integer power |
| `FractionLaws.PowAdd` | Fraction.py:163-165 | x ** (m + n) is the stored product of x ** m and x ** n |
| `FractionLaws.PowValue` | Fraction.py:163-165 | the value of x ** n is the n-th power of the value of x |
| `FractionLaws.AbsValue` | Fraction.py:342-344 | abs(x) has the absolute value of x |
| `FractionLaws.IsZeroIffValueZero` | Fraction.py:281-284 | `is_zero` holds iff the value is 0, iff x == 0/1 |
| `FractionLaws.IsIntegerIffWhole` | Fraction.py:294-297 | `is_integer` holds iff den divides num (the den == 1 test adds nothing), iff x equals the whole number num // den |
| `FractionLaws.WholeIsInteger` | Fraction.py:294-297 | a fraction equal to some whole number k/1 is an integer |
| `FractionLaws.IsIntegerRespectsEq` | Fraction.py:294-297 | equal fractions agree on `is_integer` |
| `FractionLaws.IsProperIffBetween` | Fraction.py:307-310 | `is_proper` holds iff −1 < value < 1 |
| `FractionLaws.IsUnitValue` | Fraction.py:320-323 | a fraction with stored numerator 1 has the value 1/den, which lies in (0, 1] |
| `FractionLaws.UnitScaledIsNotUnit` | Fraction.py:313-323 | for every unit fraction 1/den and every k > 1, k/(k·den) equals it yet is not a unit: the stored numerator decides, not the reduced form |
| `FractionLaws.EqualToUnit` | Fraction.py:313-323 | the fractions equal to a unit fraction 1/den are exactly the k/(k·den) with k ≥ 1, and only 1/den itself is a unit |
| `FractionLaws.AdjacentQuarterApart` | Fraction.py:337-339 | adjacent fractions are exactly a quarter apart |
| `FractionLaws.AdjacentSymmetric` | Fraction.py:337-339 | adjacency is symmetric |
| `FractionText.FloorDiv` | Fraction.py:71-72 | Python `//`: the quotient rounded toward minus infinity |
| `FractionText.FloorMod` | Fraction.py:70-72 | Python `%`: a == (a // n)·n + r, with r taking the sign of n and \|r\| < \|n\| |
| `FractionText.IntToString` | Fraction.py:49 | the text of an integer is non-empty, holds no '/' and no ' ', and starts with '-' iff the integer is negative |
| `FractionText.IntRoundTrip` | Fraction.py:49 | reading the text of an integer gives the integer back |
| `FractionText.IntToStringInjective` | Fraction.py:49 | different integers have different texts |
| `FractionText.ToString` | Fraction.py:48-50 | the text holds no '/' iff den == 1 (the numerator alone), and never a space |
| `FractionText.ToStringRoundTrip` | Fraction.py:48-50 | reading "num/den" or "num" back gives the stored pair, unreduced |
| `FractionText.ToStringInjective` | Fraction.py:48-50 | different stored pairs have different texts, even when equal in value |
| `FractionText.AsMixedNumber` | Fraction.py:65-72 | fails with `ZeroDivision` iff num == 0, at `den % num` (the commented-out guard tests den, not num); otherwise the text has a space iff den % num != 0 |
| `FractionText.ParseWhole` | Fraction.py:71 | the quotient rendered alone reads back as that whole number with no fraction part |
| `FractionText.ParseWholeAndFraction` | Fraction.py:72 | "q r/n" reads back as q, r and n |
| `FractionText.MixedTextRoundTrip` | Fraction.py:70-72 | the text reads back as den // num, den % num and divisor num, or as den // num alone when the remainder is 0 |
| `FractionText.QuotientPlusRemainder` | Fraction.py:70-72 | (a // n) + (a % n)/n == a/n with Python's floor semantics |
| `FractionText.MixedNumberValue` | Fraction.py:70-72 | the mixed-number text stands for den/num |
| `FractionText.MixedIsReciprocal` | Fraction.py:70-72 | on a valid non-zero fraction the mixed-number text stands for 1 / value |
| `FractionScenarios.ConstructorScenarios` | testUnitaire_Fraction.py:9-22 | 3/4, −3/4 and 3/−4 are stored as in the tests; 1/0 fails; the defaults give 0/1 and 5/1 |
| `FractionScenarios.ToStringScenarios` | testUnitaire_Fraction.py:26-28 | "3/4", "3", "0" |
| `FractionScenarios.ArithmeticScenarios` | testUnitaire_Fraction.py:30-60 | 1/2+1/3 = 5/6, 1/2−1/3 = 1/6, 1/2·2/3 = 2/6, 1/2 ÷ 3/4 = 4/6 |
| `FractionScenarios.ComparisonScenarios` | testUnitaire_Fraction.py:62-72 | 1/2 == 2/4, 1/2 != 1/3, 1/2 < 3/4, 1/2 <= 2/4, 3/4 > 1/2, 2/4 >= 1/2 |
| `FractionScenarios.PredicateScenarios` | testUnitaire_Fraction.py:74-92 | the `is_zero`, `is_integer`, `is_proper` and `is_unit` cases of the tests |
| `FractionScenarios.AdjacencyScenarios` | testUnitaire_Fraction.py:94-101 | 3/4 is adjacent to 4/4 but not to 1/2, although 3/4 − 1/2 equals 4/16 in value |
| `FractionScenarios.UnitScenarios` | Fraction.py:320-323 | 2/6 equals 1/3, yet only 1/3 is a unit fraction |
| `FractionScenarios.MixedNumberScenarios` | Fraction.py:65-72 | 7/2 renders "0 2/7", 2/4 renders "2", −2/3 renders "-2 -1/-2", 0/1 fails, and a zero denominator gives "0" |

## Left out

- `__float__` (Fraction.py:192) is left out because it uses floating-point division. `Value` gives the exact value it approximates.
- Negative exponents in `__pow__` are left out. Python's `int ** negative int` yields a float, and `0 ** negative` raises. `Pow` takes a natural exponent.
- The `isinstance` checks and their `TypeError`s are left out. In the typed model an operand is always a `Fraction` and an exponent always an integer, so those paths cannot be reached.
- Assigning to `num` or `den` after construction is left out: values are immutable. The operators still accept any `Fraction` value, invalid ones included, and fail where Python's constructor would.
- IsInteger: requires a positive denominator. On a zero denominator, which only assigning to `den` can produce, Python's `%` raises `ZeroDivisionError`, and the model does not give that error path. For every non-zero denominator, whether `num % den == 0` holds does not depend on how `%` rounds.
- The `numerator` and `denominator` properties are the datatype fields `num` and `den`. They have no separate member.
- Integers are unbounded, as in Python, so overflow does not arise.
