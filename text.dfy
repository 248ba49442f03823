/** The two textual forms of a fraction: `__str__` ("num/den", or "num" alone
    when den is 1) and `as_mixed_number`, which divides the denominator by the
    numerator with Python's floor division. Each form comes with a reader that
    recovers what was written, and the round trips are proved. */
module FractionText {
  import opened Fractions
  import FractionLaws

  // ---------- Python's floor division and modulo ----------

  /** Python's `a // n`: the quotient rounded toward minus infinity. */
  function FloorDiv(a: int, n: int): (q: int)
    requires n != 0
    ensures n > 0 ==> q * n <= a < q * n + n
    ensures n < 0 ==> q * n + n < a <= q * n
  {
    if n > 0 then a / n else (-a) / (-n)
  }

  /** Python's `a % n`: the remainder takes the sign of the divisor. */
  function FloorMod(a: int, n: int): (r: int)
    requires n != 0
    ensures a == FloorDiv(a, n) * n + r
    ensures n > 0 ==> 0 <= r < n
    ensures n < 0 ==> n < r <= 0
  {
    a - FloorDiv(a, n) * n
  }

  // ---------- decimal rendering of integers, as f"{i}" does ----------

  predicate IsDigit(c: char) { '0' <= c <= '9' }

  function DigitChar(d: int): (c: char)
    requires 0 <= d < 10
    ensures IsDigit(c)
  {
    ('0' as int + d) as char
  }

  function DigitValue(c: char): (v: int)
    ensures 0 <= v < 10
    ensures IsDigit(c) ==> DigitChar(v) == c
  {
    if IsDigit(c) then c as int - '0' as int else 0
  }

  /** Lacks(s, c): the character c does not occur in s. */
  predicate Lacks(s: string, c: char)
  {
    forall j :: 0 <= j < |s| ==> s[j] != c
  }

  /** Decimal digits of n, most significant first, without leading zeros. */
  function NatToString(n: nat): (s: string)
    ensures |s| > 0
    ensures forall j :: 0 <= j < |s| ==> IsDigit(s[j])
    ensures s[0] == '0' ==> n == 0 && s == "0"
  {
    if n < 10 then [DigitChar(n)] else NatToString(n / 10) + [DigitChar(n % 10)]
  }

  /** `f"{i}"`: a minus sign before the digits of a negative integer. */
  function IntToString(i: int): (s: string)
    ensures |s| > 0 && Lacks(s, '/') && Lacks(s, ' ')
    ensures s[0] == '-' <==> i < 0
  {
    if i < 0 then "-" + NatToString(-i) else NatToString(i)
  }

  function ParseNat(s: string): nat
  {
    if s == [] then 0
    else ParseNat(s[..|s| - 1]) * 10 + DigitValue(s[|s| - 1])
  }

  function ParseInt(s: string): int
  {
    if |s| > 0 && s[0] == '-' then -(ParseNat(s[1..]) as int) else ParseNat(s)
  }

  lemma {:induction false} NatRoundTrip(n: nat)
    ensures ParseNat(NatToString(n)) == n
  {
    var s := NatToString(n);
    if n >= 10 {
      NatRoundTrip(n / 10);
      assert s[..|s| - 1] == NatToString(n / 10);
    }
  }

  /** Reading back a rendered integer gives the integer. */
  lemma IntRoundTrip(i: int)
    ensures ParseInt(IntToString(i)) == i
  {
    if i < 0 {
      NatRoundTrip(-i);
      assert IntToString(i)[1..] == NatToString(-i);
    } else {
      NatRoundTrip(i);
    }
  }

  lemma IntToStringInjective(i: int, j: int)
    requires IntToString(i) == IntToString(j)
    ensures i == j
  {
    IntRoundTrip(i);
    IntRoundTrip(j);
  }

  // ---------- splitting at a separator ----------

  /** Position of the first c in s, or |s| when there is none. */
  function IndexOf(s: string, c: char): (i: nat)
    ensures i <= |s|
    ensures i < |s| ==> s[i] == c
    ensures Lacks(s[..i], c)
  {
    if s == [] then 0
    else if s[0] == c then 0
    else 1 + IndexOf(s[1..], c)
  }

  lemma {:induction false} IndexOfAfter(a: string, b: string, c: char)
    requires Lacks(a, c)
    ensures IndexOf(a + b, c) == |a| + IndexOf(b, c)
  {
    if a != [] {
      assert (a + b)[0] == a[0] != c;
      assert (a + b)[1..] == a[1..] + b;
      assert Lacks(a[1..], c) by {
        forall j | 0 <= j < |a| - 1 ensures a[1..][j] != c {
          assert a[1..][j] == a[j + 1];
        }
      }
      IndexOfAfter(a[1..], b, c);
    } else {
      assert a + b == b;
    }
  }

  // ---------- `__str__` ----------

  /** `str(x)`: the stored numerator alone when den is 1, otherwise "num/den", unreduced. */
  function ToString(x: Fraction): (s: string)
    ensures Lacks(s, '/') <==> x.den == 1
    ensures Lacks(s, ' ')
  {
    if x.den == 1 then IntToString(x.num)
    else
      var s := IntToString(x.num) + "/" + IntToString(x.den);
      assert s[|IntToString(x.num)|] == '/';
      s
  }

  /** Reads "p/q" as Fraction(p, q) and "p" as Fraction(p, 1). */
  function ParseFraction(s: string): Fraction
  {
    var i := IndexOf(s, '/');
    if i == |s| then Fraction(ParseInt(s), 1)
    else Fraction(ParseInt(s[..i]), ParseInt(s[i + 1..]))
  }

  /** The rendering loses nothing: the stored pair is read back, unreduced. */
  lemma ToStringRoundTrip(x: Fraction)
    ensures ParseFraction(ToString(x)) == x
  {
    var n, d := IntToString(x.num), IntToString(x.den);
    IntRoundTrip(x.num);
    IntRoundTrip(x.den);
    if x.den == 1 {
      IndexOfAfter(n, [], '/');
      assert n + [] == n;
    } else {
      var s := n + "/" + d;
      assert s == n + ("/" + d);
      IndexOfAfter(n, "/" + d, '/');
      assert s[..|n|] == n;
      assert s[|n| + 1..] == d;
    }
  }

  /** Different stored pairs are rendered differently, even when their values are equal. */
  lemma ToStringInjective(x: Fraction, y: Fraction)
    requires ToString(x) == ToString(y)
    ensures x == y
  {
    ToStringRoundTrip(x);
    ToStringRoundTrip(y);
  }

  // ---------- `as_mixed_number` ----------

  /** `as_mixed_number()`: `den // num` alone when `den % num == 0`, otherwise
      "q r/num"; num == 0 fails on `%` (the dead guard tests den, not num). */
  function AsMixedNumber(x: Fraction): (r: Result<string>)
    ensures r.Err? <==> x.num == 0
    ensures r.Err? ==> r.error == ZeroDivision
    ensures r.Ok? ==> (Lacks(r.value, ' ') <==> FloorMod(x.den, x.num) == 0)
  {
    if x.num == 0 then Err(ZeroDivision)
    else
      var q, rem := FloorDiv(x.den, x.num), FloorMod(x.den, x.num);
      if rem == 0 then Ok(IntToString(q))
      else
        var s := IntToString(q) + " " + IntToString(rem) + "/" + IntToString(x.num);
        assert s[|IntToString(q)|] == ' ';
        Ok(s)
  }

  /** A mixed number read back from text: whole + rem/divisor. */
  datatype Mixed = Mixed(whole: int, rem: int, divisor: int)

  function ParseMixed(s: string): Mixed
  {
    var i := IndexOf(s, ' ');
    if i == |s| then Mixed(ParseInt(s), 0, 1)
    else var f := ParseFraction(s[i + 1..]); Mixed(ParseInt(s[..i]), f.num, f.den)
  }

  function MixedValue(m: Mixed): real
    requires m.divisor != 0
  {
    m.whole as real + m.rem as real / m.divisor as real
  }

  /** A whole number alone reads back as a mixed number without a fraction part. */
  lemma ParseWhole(q: int)
    ensures ParseMixed(IntToString(q)) == Mixed(q, 0, 1)
  {
    var qs := IntToString(q);
    IntRoundTrip(q);
    IndexOfAfter(qs, [], ' ');
    assert qs + [] == qs;
  }

  /** "q r/n" reads back as q, r and n. */
  lemma ParseWholeAndFraction(q: int, f: Fraction)
    requires f.den != 1
    ensures ParseMixed(IntToString(q) + " " + ToString(f)) == Mixed(q, f.num, f.den)
  {
    var qs, fs := IntToString(q), ToString(f);
    var s := qs + " " + fs;
    IntRoundTrip(q);
    assert s == qs + (" " + fs);
    IndexOfAfter(qs, " " + fs, ' ');
    assert s[..|qs|] == qs;
    assert s[|qs| + 1..] == fs;
    ToStringRoundTrip(f);
  }

  /** The text of a mixed number reads back as the quotient and remainder it was built from. */
  lemma MixedTextRoundTrip(x: Fraction)
    requires x.num != 0
    ensures AsMixedNumber(x).Ok?
    ensures ParseMixed(AsMixedNumber(x).value) ==
      var rem := FloorMod(x.den, x.num);
      Mixed(FloorDiv(x.den, x.num), rem, if rem == 0 then 1 else x.num)
  {
    var q, rem := FloorDiv(x.den, x.num), FloorMod(x.den, x.num);
    if rem == 0 {
      ParseWhole(q);
    } else {
      var f := Fraction(rem, x.num);
      assert x.num != 1 by {
        assert x.num > 0 ==> 0 <= rem < x.num;
      }
      assert AsMixedNumber(x).value == IntToString(q) + " " + ToString(f);
      ParseWholeAndFraction(q, f);
    }
  }

  lemma QuotientPlusRemainder(a: int, n: int)
    requires n != 0
    ensures FloorDiv(a, n) as real + FloorMod(a, n) as real / n as real == a as real / n as real
  {
    var q, r, m := FloorDiv(a, n) as real, FloorMod(a, n) as real, n as real;
    assert a as real == q * m + r;
    assert (q * m + r) / m == q + r / m;
  }

  /** The mixed number's text stands for den/num: `den // num` and `den % num` make up den/num. */
  lemma MixedNumberValue(x: Fraction)
    requires x.num != 0
    ensures AsMixedNumber(x).Ok? && ParseMixed(AsMixedNumber(x).value).divisor != 0
    ensures MixedValue(ParseMixed(AsMixedNumber(x).value)) == x.den as real / x.num as real
  {
    MixedTextRoundTrip(x);
    QuotientPlusRemainder(x.den, x.num);
  }

  /** On a valid fraction the mixed-number text stands for 1 / value, not for the value. */
  lemma MixedIsReciprocal(x: Fraction)
    requires x.Valid() && x.num != 0
    ensures AsMixedNumber(x).Ok? && Value(x) != 0.0
    ensures ParseMixed(AsMixedNumber(x).value).divisor != 0
    ensures MixedValue(ParseMixed(AsMixedNumber(x).value)) == 1.0 / Value(x)
  {
    MixedNumberValue(x);
    FractionLaws.ReciprocalValue(x);
  }
}
