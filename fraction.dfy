/** An exact rational value kept as an unreduced pair (numerator, denominator).
    The constructor refuses a zero denominator and moves the sign onto the
    numerator; every operator builds its result through that constructor, and
    comparisons cross-multiply instead of reducing to lowest terms. */
module Fractions {

  /** The failures the class raises. */
  datatype Error =
    | ZeroDenominator   // ValueError from the constructor: den == 0
    | ZeroDivisor       // ValueError from `/`: the divisor's numerator is 0
    | ZeroDivision      // ZeroDivisionError from an unguarded `//` or `%`

  datatype Result<+T> = Ok(value: T) | Err(error: Error)

  /** A stored fraction. Instances built by Make always satisfy Valid(). */
  datatype Fraction = Fraction(num: int, den: int) {
    predicate Valid() { den > 0 }
  }

  /** The exact value a fraction stands for (the quantity `__float__` approximates). */
  function Value(x: Fraction): real
    requires x.Valid()
  {
    x.num as real / x.den as real
  }

  /** The constructor `Fraction(num=0, den=1)`. */
  function Make(num: int := 0, den: int := 1): (r: Result<Fraction>)
    ensures r.Err? <==> den == 0
    ensures r.Err? ==> r.error == ZeroDenominator
    ensures r.Ok? ==> r.value.Valid()
    ensures r.Ok? ==> r.value.den == (if den < 0 then -den else den)
    ensures r.Ok? ==> r.value.num == (if den < 0 then -num else num)
    ensures r.Ok? ==> num * r.value.den == r.value.num * den
  {
    if den == 0 then Err(ZeroDenominator)
    else if den < 0 then Ok(Fraction(-num, -den))
    else Ok(Fraction(num, den))
  }

  /** `x + y`: (a*d + c*b) / (b*d), unreduced. */
  function Add(x: Fraction, y: Fraction): (r: Result<Fraction>)
    ensures r.Err? <==> x.den * y.den == 0
    ensures x.Valid() && y.Valid() ==>
      r == Ok(Fraction(x.num * y.den + y.num * x.den, x.den * y.den))
  {
    Make(x.num * y.den + y.num * x.den, x.den * y.den)
  }

  /** `x - y`: (a*d - c*b) / (b*d), unreduced. */
  function Sub(x: Fraction, y: Fraction): (r: Result<Fraction>)
    ensures r.Err? <==> x.den * y.den == 0
    ensures x.Valid() && y.Valid() ==>
      r == Ok(Fraction(x.num * y.den - y.num * x.den, x.den * y.den))
  {
    Make(x.num * y.den - y.num * x.den, x.den * y.den)
  }

  /** `x * y`: (a*c) / (b*d), unreduced. */
  function Mul(x: Fraction, y: Fraction): (r: Result<Fraction>)
    ensures r.Err? <==> x.den * y.den == 0
    ensures x.Valid() && y.Valid() ==>
      r == Ok(Fraction(x.num * y.num, x.den * y.den))
  {
    Make(x.num * y.num, x.den * y.den)
  }

  /** `x / y`: refuses a zero divisor numerator, otherwise (a*d) / (b*c)
      with the sign of c moved onto the numerator. */
  function Div(x: Fraction, y: Fraction): (r: Result<Fraction>)
    ensures y.num == 0 ==> r == Err(ZeroDivisor)
    ensures x.Valid() && y.num != 0 ==> r.Ok? && r.value.Valid()
    ensures x.Valid() && y.num > 0 ==> r == Ok(Fraction(x.num * y.den, x.den * y.num))
    ensures x.Valid() && y.num < 0 ==> r == Ok(Fraction(-(x.num * y.den), -(x.den * y.num)))
  {
    if y.num == 0 then Err(ZeroDivisor)
    else Make(x.num * y.den, x.den * y.num)
  }

  /** Python's `base ** n` for a natural exponent. */
  function Power(base: int, n: nat): int
  {
    if n == 0 then 1 else base * Power(base, n - 1)
  }

  lemma {:induction false} PowerPositive(base: int, n: nat)
    requires base > 0
    ensures Power(base, n) > 0
  {
    if n > 0 {
      PowerPositive(base, n - 1);
    }
  }

  /** `x ** n` for a natural exponent: (a^n) / (b^n). */
  function Pow(x: Fraction, n: nat): (r: Result<Fraction>)
    ensures x.Valid() ==> r == Ok(Fraction(Power(x.num, n), Power(x.den, n))) && r.value.Valid()
    ensures n == 0 ==> r == Ok(Fraction(1, 1))
  {
    assert x.Valid() ==> Power(x.den, n) > 0 by {
      if x.Valid() { PowerPositive(x.den, n); }
    }
    Make(Power(x.num, n), Power(x.den, n))
  }

  /** `abs(x)`: both components made non-negative. */
  function Abs(x: Fraction): (r: Result<Fraction>)
    ensures r.Err? <==> x.den == 0
    ensures x.Valid() ==> r.Ok? && r.value.Valid() && r.value.den == x.den
    ensures x.Valid() ==> r.value.num >= 0 && (r.value.num == x.num || r.value.num == -x.num)
  {
    Make(if x.num < 0 then -x.num else x.num, if x.den < 0 then -x.den else x.den)
  }

  // Comparisons: cross-multiplication, never a reduction.

  predicate Eq(x: Fraction, y: Fraction) { x.num * y.den == y.num * x.den }

  predicate Ne(x: Fraction, y: Fraction) { x.num * y.den != y.num * x.den }

  predicate Lt(x: Fraction, y: Fraction) { x.num * y.den < y.num * x.den }

  predicate Le(x: Fraction, y: Fraction) { x.num * y.den <= y.num * x.den }

  predicate Gt(x: Fraction, y: Fraction) { x.num * y.den > y.num * x.den }

  /** `x >= y`: the class has no `__ge__`, so Python evaluates the reflected `y <= x`. */
  predicate Ge(x: Fraction, y: Fraction) { Le(y, x) }

  // Classification predicates.

  predicate IsZero(x: Fraction) { x.num == 0 }

  /** `den == 1 or num % den == 0`; for a positive divisor Python's `%` agrees with Dafny's. */
  predicate IsInteger(x: Fraction)
    requires x.Valid()
  {
    x.den == 1 || x.num % x.den == 0
  }

  predicate IsProper(x: Fraction)
  {
    (if x.num < 0 then -x.num else x.num) < (if x.den < 0 then -x.den else x.den)
  }

  /** Looks at the stored numerator only, not at the reduced form. */
  predicate IsUnit(x: Fraction) { x.num == 1 }

  /** `abs(x - y)` stored literally as 4/16. */
  function IsAdjacentTo(x: Fraction, y: Fraction): (r: Result<bool>)
    ensures r.Err? <==> x.den * y.den == 0
    ensures x.Valid() && y.Valid() ==>
      (r == Ok(true) <==>
        x.den * y.den == 16 &&
        (x.num * y.den - y.num * x.den == 4 || x.num * y.den - y.num * x.den == -4))
  {
    match Sub(x, y)
    case Err(e) => Err(e)
    case Ok(d) =>
      match Abs(d)
      case Err(e) => Err(e)
      case Ok(a) => Ok(a.num == 4 && a.den == 16)
  }
}
