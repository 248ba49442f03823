/** What the operators of `Fractions` mean: each is tied to the exact value
    `Value` it stands for, or to its inverse, and the comparisons are shown to
    be an equivalence and an ordering on valid fractions. */
module FractionLaws {
  import opened Fractions

  // ---------- value of a cross-multiplied pair ----------

  lemma ScaleQuotient(a: int, b: int, k: int)
    requires b != 0 && k != 0
    ensures (k * a) as real / (k * b) as real == a as real / b as real
  {
    var q := a as real / b as real;
    assert a as real == q * b as real;
    assert (k * a) as real == q * ((k * b) as real);
  }

  /** Two quotients with positive divisors are equal / ordered exactly as their cross products are. */
  lemma CrossProducts(a: int, b: int, c: int, d: int)
    requires b > 0 && d > 0
    ensures a as real / b as real == c as real / d as real <==> a * d == c * b
    ensures a as real / b as real < c as real / d as real <==> a * d < c * b
  {
    ScaleQuotient(a, b, d);
    ScaleQuotient(c, d, b);
    assert (d * a) as real / (d * b) as real == a as real / b as real;
    assert (b * c) as real / (b * d) as real == c as real / d as real;
    assert d * b == b * d;
    var m := (b * d) as real;
    assert m > 0.0;
    assert (d * a) as real / m < (b * c) as real / m <==> (d * a) as real < (b * c) as real;
  }

  // ---------- the constructor ----------

  /** The constructor keeps the value of num/den. */
  lemma MakeValue(num: int, den: int)
    requires den != 0
    ensures Make(num, den).Ok?
    ensures Value(Make(num, den).value) == num as real / den as real
  {
    if den < 0 {
      ScaleQuotient(num, den, -1);
    }
  }

  /** Representation independence: scaling both parts by k != 0 builds an equal fraction. */
  lemma MakeScaled(a: int, b: int, k: int)
    requires b != 0 && k != 0
    ensures Make(k * a, k * b).Ok? && Make(a, b).Ok?
    ensures Eq(Make(k * a, k * b).value, Make(a, b).value)
  {
    var x, y := Make(k * a, k * b).value, Make(a, b).value;
    MakeValue(k * a, k * b);
    MakeValue(a, b);
    ScaleQuotient(a, b, k);
    CrossProducts(x.num, x.den, y.num, y.den);
  }

  // ---------- comparisons ----------

  lemma EqIffSameValue(x: Fraction, y: Fraction)
    requires x.Valid() && y.Valid()
    ensures Eq(x, y) <==> Value(x) == Value(y)
    ensures Ne(x, y) <==> Value(x) != Value(y)
  {
    CrossProducts(x.num, x.den, y.num, y.den);
  }

  lemma LtIffSmallerValue(x: Fraction, y: Fraction)
    requires x.Valid() && y.Valid()
    ensures Lt(x, y) <==> Value(x) < Value(y)
    ensures Le(x, y) <==> Value(x) <= Value(y)
    ensures Gt(x, y) <==> Value(x) > Value(y)
    ensures Ge(x, y) <==> Value(x) >= Value(y)
  {
    CrossProducts(x.num, x.den, y.num, y.den);
    CrossProducts(y.num, y.den, x.num, x.den);
  }

  lemma NeIsNotEq(x: Fraction, y: Fraction)
    ensures Ne(x, y) <==> !Eq(x, y)
  {
  }

  lemma EqReflexive(x: Fraction)
    ensures Eq(x, x)
  {
  }

  lemma EqSymmetric(x: Fraction, y: Fraction)
    ensures Eq(x, y) <==> Eq(y, x)
  {
  }

  lemma EqTransitive(x: Fraction, y: Fraction, z: Fraction)
    requires x.Valid() && y.Valid() && z.Valid()
    requires Eq(x, y) && Eq(y, z)
    ensures Eq(x, z)
  {
    EqIffSameValue(x, y);
    EqIffSameValue(y, z);
    EqIffSameValue(x, z);
  }

  /** Exactly one of <, == and > holds. */
  lemma Trichotomy(x: Fraction, y: Fraction)
    ensures Lt(x, y) || Eq(x, y) || Gt(x, y)
    ensures !(Lt(x, y) && Eq(x, y)) && !(Lt(x, y) && Gt(x, y)) && !(Eq(x, y) && Gt(x, y))
  {
  }

  lemma LeIsLtOrEq(x: Fraction, y: Fraction)
    ensures Le(x, y) <==> Lt(x, y) || Eq(x, y)
    ensures Gt(x, y) <==> Lt(y, x)
    ensures Ge(x, y) <==> Gt(x, y) || Eq(x, y)
  {
  }

  lemma LtTransitive(x: Fraction, y: Fraction, z: Fraction)
    requires x.Valid() && y.Valid() && z.Valid()
    requires Lt(x, y) && Lt(y, z)
    ensures Lt(x, z)
  {
    LtIffSmallerValue(x, y);
    LtIffSmallerValue(y, z);
    LtIffSmallerValue(x, z);
  }

  /** Comparing equal fractions gives the same answer: the comparisons do not depend on the stored representation. */
  lemma LtRespectsEq(x: Fraction, x': Fraction, y: Fraction)
    requires x.Valid() && x'.Valid() && y.Valid()
    requires Eq(x, x')
    ensures Lt(x, y) <==> Lt(x', y)
    ensures Lt(y, x) <==> Lt(y, x')
  {
    EqIffSameValue(x, x');
    LtIffSmallerValue(x, y);
    LtIffSmallerValue(x', y);
    LtIffSmallerValue(y, x);
    LtIffSmallerValue(y, x');
  }

  // ---------- arithmetic ----------

  lemma AddValue(x: Fraction, y: Fraction)
    requires x.Valid() && y.Valid()
    ensures Add(x, y).Ok? && Value(Add(x, y).value) == Value(x) + Value(y)
  {
    var b, d := x.den as real, y.den as real;
    var p, q := Value(x), Value(y);
    assert x.num as real == p * b;
    assert y.num as real == q * d;
    var s := Add(x, y).value;
    assert s.num as real == (p + q) * (b * d);
  }

  /** Addition is commutative; since nothing is reduced, the stored pairs themselves coincide. */
  lemma AddCommutes(x: Fraction, y: Fraction)
    ensures Add(x, y) == Add(y, x)
  {
  }

  /** Adding equal fractions gives equal sums. */
  lemma AddRespectsEq(x: Fraction, x': Fraction, y: Fraction)
    requires x.Valid() && x'.Valid() && y.Valid()
    requires Eq(x, x')
    ensures Add(x, y).Ok? && Add(x', y).Ok? && Eq(Add(x, y).value, Add(x', y).value)
  {
    EqIffSameValue(x, x');
    AddValue(x, y);
    AddValue(x', y);
    EqIffSameValue(Add(x, y).value, Add(x', y).value);
  }

  lemma SubValue(x: Fraction, y: Fraction)
    requires x.Valid() && y.Valid()
    ensures Sub(x, y).Ok? && Value(Sub(x, y).value) == Value(x) - Value(y)
  {
    var b, d := x.den as real, y.den as real;
    var p, q := Value(x), Value(y);
    assert x.num as real == p * b;
    assert y.num as real == q * d;
    var s := Sub(x, y).value;
    assert s.num as real == (p - q) * (b * d);
  }

  /** Subtraction is undone by addition: (x - y) + y == x. */
  lemma SubThenAdd(x: Fraction, y: Fraction)
    requires x.Valid() && y.Valid()
    ensures Sub(x, y).Ok? && Add(Sub(x, y).value, y).Ok?
    ensures Eq(Add(Sub(x, y).value, y).value, x)
  {
    SubValue(x, y);
    AddValue(Sub(x, y).value, y);
    EqIffSameValue(Add(Sub(x, y).value, y).value, x);
  }

  lemma MulValue(x: Fraction, y: Fraction)
    requires x.Valid() && y.Valid()
    ensures Mul(x, y).Ok? && Value(Mul(x, y).value) == Value(x) * Value(y)
  {
    var b, d := x.den as real, y.den as real;
    var p, q := Value(x), Value(y);
    assert x.num as real == p * b;
    assert y.num as real == q * d;
    var s := Mul(x, y).value;
    assert s.num as real == (p * q) * (b * d);
  }

  lemma MulCommutes(x: Fraction, y: Fraction)
    ensures Mul(x, y) == Mul(y, x)
  {
  }

  lemma DivValue(x: Fraction, y: Fraction)
    requires x.Valid() && y.Valid() && y.num != 0
    ensures Div(x, y).Ok? && Value(y) != 0.0
    ensures Value(Div(x, y).value) == Value(x) / Value(y)
  {
    var b, d := x.den as real, y.den as real;
    var p, q := Value(x), Value(y);
    assert x.num as real == p * b;
    assert y.num as real == q * d;
    assert q != 0.0;
    MakeValue(x.num * y.den, x.den * y.num);
    assert (x.num * y.den) as real == (p / q) * ((x.den * y.num) as real);
  }

  /** The reciprocal of a valid non-zero fraction is den/num. */
  lemma ReciprocalValue(x: Fraction)
    requires x.Valid() && x.num != 0
    ensures Value(x) != 0.0 && 1.0 / Value(x) == x.den as real / x.num as real
  {
    var one := Fraction(1, 1);
    DivValue(one, x);
    MakeValue(x.den, x.num);
    assert Div(one, x) == Make(x.den, x.num);
  }

  /** Division is undone by multiplication: (x / y) * y == x. */
  lemma DivThenMul(x: Fraction, y: Fraction)
    requires x.Valid() && y.Valid() && y.num != 0
    ensures Div(x, y).Ok? && Mul(Div(x, y).value, y).Ok?
    ensures Eq(Mul(Div(x, y).value, y).value, x)
  {
    DivValue(x, y);
    MulValue(Div(x, y).value, y);
    EqIffSameValue(Mul(Div(x, y).value, y).value, x);
  }

  lemma {:induction false} PowerAdd(a: int, m: nat, n: nat)
    ensures Power(a, m + n) == Power(a, m) * Power(a, n)
  {
    if m > 0 {
      PowerAdd(a, m - 1, n);
      assert Power(a, m + n) == a * Power(a, m - 1 + n);
    }
  }

  /** x ** (m + n) is the product of x ** m and x ** n, pair for pair. */
  lemma PowAdd(x: Fraction, m: nat, n: nat)
    requires x.Valid()
    ensures Pow(x, m).Ok? && Pow(x, n).Ok?
    ensures Pow(x, m + n) == Mul(Pow(x, m).value, Pow(x, n).value)
  {
    PowerAdd(x.num, m, n);
    PowerAdd(x.den, m, n);
  }

  /** The n-th power of a real number, the reference for `**`. */
  function RealPower(v: real, n: nat): real
  {
    if n == 0 then 1.0 else RealPower(v, n - 1) * v
  }

  /** The value of x ** n is the n-th power of the value of x. */
  lemma {:induction false} PowValue(x: Fraction, n: nat)
    requires x.Valid()
    ensures Pow(x, n).Ok? && Value(Pow(x, n).value) == RealPower(Value(x), n)
  {
    if n > 0 {
      PowValue(x, n - 1);
      PowAdd(x, n - 1, 1);
      assert Power(x.num, 1) == x.num * Power(x.num, 0);
      assert Power(x.den, 1) == x.den * Power(x.den, 0);
      assert Pow(x, 1) == Ok(x);
      MulValue(Pow(x, n - 1).value, x);
    }
  }

  lemma AbsValue(x: Fraction)
    requires x.Valid()
    ensures Abs(x).Ok?
    ensures Value(Abs(x).value) == if Value(x) < 0.0 then -Value(x) else Value(x)
  {
    CrossProducts(x.num, x.den, 0, 1);
    if x.num < 0 {
      ScaleQuotient(x.num, x.den, -1);
      assert (-1 * x.den) as real / (-1) as real == x.den as real;
    }
  }

  // ---------- classification ----------

  lemma IsZeroIffValueZero(x: Fraction)
    requires x.Valid()
    ensures IsZero(x) <==> Value(x) == 0.0
    ensures IsZero(x) <==> Eq(x, Fraction(0, 1))
  {
    CrossProducts(x.num, x.den, 0, 1);
  }

  /** A fraction is an integer exactly when den divides num, that is when it equals num // den. */
  lemma IsIntegerIffWhole(x: Fraction)
    requires x.Valid()
    ensures IsInteger(x) <==> x.num % x.den == 0
    ensures IsInteger(x) <==> Eq(x, Fraction(x.num / x.den, 1))
  {
  }

  /** A fraction equal to a whole number k/1 is an integer. */
  lemma WholeIsInteger(x: Fraction, k: int)
    requires x.Valid() && Eq(x, Fraction(k, 1))
    ensures IsInteger(x)
  {
    assert x.num == k * x.den;
    ModOfMultiple(k, x.den);
  }

  lemma ModOfMultiple(k: int, d: int)
    requires d > 0
    ensures (k * d) % d == 0 && (k * d) / d == k
  {
    var q, r := (k * d) / d, (k * d) % d;
    var m := k - q;
    assert m * d == r by {
      assert k * d == q * d + r;
      assert m * d == k * d - q * d;
    }
  }

  lemma IsIntegerRespectsEq(x: Fraction, y: Fraction)
    requires x.Valid() && y.Valid() && Eq(x, y)
    ensures IsInteger(x) <==> IsInteger(y)
  {
    IsIntegerIffWhole(x);
    IsIntegerIffWhole(y);
    if IsInteger(x) {
      EqSymmetric(x, y);
      EqTransitive(y, x, Fraction(x.num / x.den, 1));
      WholeIsInteger(y, x.num / x.den);
    }
    if IsInteger(y) {
      EqTransitive(x, y, Fraction(y.num / y.den, 1));
      WholeIsInteger(x, y.num / y.den);
    }
  }

  /** Proper means strictly between -1 and 1. */
  lemma IsProperIffBetween(x: Fraction)
    requires x.Valid()
    ensures IsProper(x) <==> -1.0 < Value(x) < 1.0
    ensures IsProper(x) <==> Lt(Fraction(-1, 1), x) && Lt(x, Fraction(1, 1))
  {
    CrossProducts(-1, 1, x.num, x.den);
    CrossProducts(x.num, x.den, 1, 1);
  }

  /** A unit fraction stands for 1/den, a value in (0, 1]. */
  lemma IsUnitValue(x: Fraction)
    requires x.Valid() && IsUnit(x)
    ensures Value(x) == 1.0 / x.den as real
    ensures 0.0 < Value(x) <= 1.0
  {
    CrossProducts(0, 1, x.num, x.den);
    CrossProducts(x.num, x.den, 1, 1);
  }

  /** `is_unit` reads the stored numerator, not the reduced form: every
      k/(k*den) with k > 1 equals the unit fraction 1/den and is not a unit. */
  lemma UnitScaledIsNotUnit(x: Fraction, k: int)
    requires x.Valid() && IsUnit(x) && k > 1
    ensures Fraction(k, k * x.den).Valid()
    ensures Eq(x, Fraction(k, k * x.den)) && !IsUnit(Fraction(k, k * x.den))
  {
  }

  /** The fractions equal to a unit fraction 1/den are exactly the k/(k*den)
      with k >= 1, and the only one of them that is a unit is 1/den itself. */
  lemma EqualToUnit(x: Fraction, y: Fraction)
    requires x.Valid() && y.Valid() && IsUnit(x) && Eq(x, y)
    ensures y.num >= 1 && y.den == y.num * x.den
    ensures IsUnit(y) <==> y == x
  {
    assert y.den == y.num * x.den;
  }

  /** `abs(x - y)` being stored as 4/16 means x and y are a quarter apart. */
  lemma AdjacentQuarterApart(x: Fraction, y: Fraction)
    requires x.Valid() && y.Valid() && IsAdjacentTo(x, y) == Ok(true)
    ensures Value(x) - Value(y) == 0.25 || Value(y) - Value(x) == 0.25
  {
    SubValue(x, y);
    var d := Sub(x, y).value;
    assert d.den == 16;
    assert d.num == 4 || d.num == -4;
  }

  lemma AdjacentSymmetric(x: Fraction, y: Fraction)
    requires x.Valid() && y.Valid()
    ensures IsAdjacentTo(x, y) == IsAdjacentTo(y, x)
  {
    assert x.den * y.den == y.den * x.den;
  }
}
