/** The scenarios of the unit tests, and the literal quirks of the class,
    stated on concrete fractions. */
module FractionScenarios {
  import opened Fractions
  import opened FractionText

  lemma ConstructorScenarios()
    ensures Make(3, 4) == Ok(Fraction(3, 4))
    ensures Make(-3, 4) == Ok(Fraction(-3, 4))
    ensures Make(3, -4) == Ok(Fraction(-3, 4))
    ensures Make(1, 0) == Err(ZeroDenominator)
    ensures Make() == Ok(Fraction(0, 1))
    ensures Make(5) == Ok(Fraction(5, 1))
  {
  }

  lemma ToStringScenarios()
    ensures ToString(Fraction(3, 4)) == "3/4"
    ensures ToString(Fraction(3, 1)) == "3"
    ensures ToString(Fraction(0, 1)) == "0"
    ensures ToString(Fraction(-3, 4)) == "-3/4"
    ensures ToString(Fraction(2, 4)) == "2/4"
  {
  }

  lemma ArithmeticScenarios()
    ensures Add(Fraction(1, 2), Fraction(1, 3)) == Ok(Fraction(5, 6))
    ensures Sub(Fraction(1, 2), Fraction(1, 3)) == Ok(Fraction(1, 6))
    ensures Mul(Fraction(1, 2), Fraction(2, 3)) == Ok(Fraction(2, 6))
    ensures Div(Fraction(1, 2), Fraction(3, 4)) == Ok(Fraction(4, 6))
    ensures Div(Fraction(1, 2), Fraction(-3, 4)) == Ok(Fraction(-4, 6))
    ensures Div(Fraction(1, 2), Fraction(0, 4)) == Err(ZeroDivisor)
    ensures Pow(Fraction(-1, 2), 3) == Ok(Fraction(-1, 8))
  {
  }

  lemma ComparisonScenarios()
    ensures Eq(Fraction(1, 2), Fraction(2, 4)) && !Ne(Fraction(1, 2), Fraction(2, 4))
    ensures !Eq(Fraction(1, 2), Fraction(1, 3)) && Ne(Fraction(1, 2), Fraction(1, 3))
    ensures Lt(Fraction(1, 2), Fraction(3, 4))
    ensures Le(Fraction(1, 2), Fraction(2, 4))
    ensures Gt(Fraction(3, 4), Fraction(1, 2))
    ensures Ge(Fraction(2, 4), Fraction(1, 2))
  {
  }

  lemma PredicateScenarios()
    ensures IsZero(Fraction(0, 1)) && !IsZero(Fraction(1, 2))
    ensures IsInteger(Fraction(4, 2)) && !IsInteger(Fraction(1, 2))
    ensures IsProper(Fraction(1, 2)) && !IsProper(Fraction(5, 3))
    ensures IsUnit(Fraction(1, 3)) && !IsUnit(Fraction(2, 3))
    ensures Abs(Fraction(-3, 4)) == Ok(Fraction(3, 4))
  {
  }

  /** The unit test is met, but 3/4 and 1/2 are a quarter apart as well:
      only the stored pair 4/16 counts as adjacent. */
  lemma AdjacencyScenarios()
    ensures IsAdjacentTo(Fraction(3, 4), Fraction(4, 4)) == Ok(true)
    ensures IsAdjacentTo(Fraction(3, 4), Fraction(1, 2)) == Ok(false)
    ensures Sub(Fraction(3, 4), Fraction(1, 2)) == Ok(Fraction(2, 8))
    ensures Eq(Fraction(2, 8), Fraction(4, 16))
  {
  }

  /** The stored numerator decides: 2/6 equals 1/3 but is not a unit fraction. */
  lemma UnitScenarios()
    ensures Eq(Fraction(1, 3), Fraction(2, 6))
    ensures IsUnit(Fraction(1, 3)) && !IsUnit(Fraction(2, 6))
  {
  }

  /** 7/2 is rendered "0 2/7" (the mixed form of 2/7), 2/4 as "2", a
      negative numerator takes Python's floor rounding, and a zero denominator
      (reachable only by assigning to `den`) gives "0", since the guard is dead. */
  lemma MixedNumberScenarios()
    ensures AsMixedNumber(Fraction(7, 2)) == Ok("0 2/7")
    ensures AsMixedNumber(Fraction(2, 4)) == Ok("2")
    ensures AsMixedNumber(Fraction(-2, 3)) == Ok("-2 -1/-2")
    ensures AsMixedNumber(Fraction(0, 1)) == Err(ZeroDivision)
    ensures AsMixedNumber(Fraction(5, 0)) == Ok("0")
  {
    assert FloorDiv(2, 7) == 0 && FloorMod(2, 7) == 2;
    assert IntToString(0) == "0" && IntToString(2) == "2" && IntToString(7) == "7";
    assert FloorDiv(3, -2) == -2 && FloorMod(3, -2) == -1;
    assert IntToString(-2) == "-2" && IntToString(-1) == "-1";
    assert "0" + " " + "2" + "/" + "7" == "0 2/7";
    assert "-2" + " " + "-1" + "/" + "-2" == "-2 -1/-2";
  }
}
