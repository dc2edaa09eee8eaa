/**
  The part of java.math.BigDecimal that the account service relies on.

  A BigDecimal is an unscaled integer together with a 32-bit scale: it denotes
  unscaled × 10^(-scale). The scale may be negative (1E+3 has scale -3).
  Addition and subtraction are exact and give the larger of the two scales;
  compareTo compares the denoted numbers, ignoring the scale (1.0 and 1.00
  compare equal). The real number a decimal denotes, Value, is the reference
  meaning every operation here is proved against.
*/
module Decimals {

  datatype Decimal = Decimal(unscaled: int, scale: int)

  /** BigDecimal.ZERO: unscaled 0 at scale 0. */
  const Zero: Decimal := Decimal(0, 0)

  function Max(a: int, b: int): (m: int)
    ensures m >= a && m >= b && (m == a || m == b)
  {
    if a >= b then a else b
  }

  function Pow10(n: nat): (r: nat)
    ensures r >= 1
  {
    if n == 0 then 1 else 10 * Pow10(n - 1)
  }

  lemma {:induction false} Pow10Add(m: nat, n: nat)
    ensures Pow10(m + n) == Pow10(m) * Pow10(n)
  {
    if m > 0 {
      Pow10Add(m - 1, n);
      assert Pow10(m + n) == 10 * Pow10(m - 1 + n);
      assert 10 * (Pow10(m - 1) * Pow10(n)) == (10 * Pow10(m - 1)) * Pow10(n);
    }
  }

  lemma Pow10AddReal(m: nat, n: nat)
    ensures Pow10(m + n) as real == (Pow10(m) as real) * (Pow10(n) as real)
  {
    Pow10Add(m, n);
    ProductAsReal(Pow10(m), Pow10(n));
  }

  lemma ProductAsReal(x: int, y: int)
    ensures (x * y) as real == (x as real) * (y as real)
  {
  }

  /** 10 raised to an integer power, as a real number. */
  ghost function Ten(e: int): (r: real)
    ensures r > 0.0
  {
    if e >= 0 then Pow10(e) as real else 1.0 / (Pow10(-e) as real)
  }

  lemma TenAdd(a: int, b: int)
    ensures Ten(a + b) == Ten(a) * Ten(b)
  {
    if a >= 0 && b >= 0 {
      Pow10AddReal(a, b);
    } else if a < 0 && b < 0 {
      TenBothNegative(a, b);
    } else if a >= 0 && a + b >= 0 {
      TenMixedNonNegative(a, b);
    } else if a >= 0 {
      TenMixedNegative(a, b);
    } else if a + b >= 0 {
      TenMixedNonNegative(b, a);
    } else {
      TenMixedNegative(b, a);
    }
  }

  lemma TenBothNegative(a: int, b: int)
    requires a < 0 && b < 0
    ensures Ten(a + b) == Ten(a) * Ten(b)
  {
    var x, y, z := Pow10(-a) as real, Pow10(-b) as real, Pow10(-(a + b)) as real;
    assert z == x * y by {
      Pow10AddReal(-a, -b);
      assert -a + -b == -(a + b);
    }
    assert 1.0 / z == (1.0 / x) * (1.0 / y) by {
      ReciprocalOfProduct(x, y);
    }
  }

  lemma TenMixedNonNegative(a: int, b: int)
    requires a >= 0 && b < 0 && a + b >= 0
    ensures Ten(a + b) == Ten(a) * Ten(b)
  {
    var p, q := Pow10(-b) as real, Pow10(a + b) as real;
    calc {
      Ten(a) * Ten(b);
      == { assert a + b + -b == a; Pow10AddReal(a + b, -b); }
      (q * p) * (1.0 / p);
      == { CancelReciprocal(q, p); }
      q;
    }
  }

  lemma TenMixedNegative(a: int, b: int)
    requires a >= 0 && b < 0 && a + b < 0
    ensures Ten(a + b) == Ten(a) * Ten(b)
  {
    var s, q := Pow10(a) as real, Pow10(-(a + b)) as real;
    assert Ten(b) == 1.0 / (s * q) by {
      assert a + -(a + b) == -b;
      Pow10AddReal(a, -(a + b));
    }
    calc {
      Ten(a) * Ten(b);
      ==
      s * Ten(b);
      ==
      s * (1.0 / (s * q));
      == { CancelFactor(s, q); }
      1.0 / q;
    }
  }

  lemma ReciprocalOfProduct(x: real, y: real)
    requires x > 0.0 && y > 0.0
    ensures 1.0 / (x * y) == (1.0 / x) * (1.0 / y)
  {
  }

  lemma CancelReciprocal(q: real, p: real)
    requires p > 0.0
    ensures (q * p) * (1.0 / p) == q
  {
  }

  lemma CancelFactor(s: real, q: real)
    requires s > 0.0 && q > 0.0
    ensures s * (1.0 / (s * q)) == 1.0 / q
  {
  }

  /** The number a decimal denotes. */
  ghost function Value(d: Decimal): real
  {
    (d.unscaled as real) * Ten(-d.scale)
  }

  /** The same number written at a scale no smaller than its own. */
  function Align(d: Decimal, s: int): (r: Decimal)
    requires d.scale <= s
    ensures r.scale == s
    ensures Value(r) == Value(d)
  {
    var k := s - d.scale;
    TenAdd(k, -s);
    ProductAsReal(d.unscaled, Pow10(k));
    Decimal(d.unscaled * Pow10(k), s)
  }

  /** Two decimals at one scale are ordered as their unscaled parts are. */
  lemma SameScaleOrder(a: Decimal, b: Decimal)
    requires a.scale == b.scale
    ensures Value(a) < Value(b) <==> a.unscaled < b.unscaled
    ensures Value(a) == Value(b) <==> a.unscaled == b.unscaled
  {
    var t := Ten(-a.scale);
    var x, y := a.unscaled as real, b.unscaled as real;
    assert Value(b) - Value(a) == (y - x) * t;
    if a.unscaled < b.unscaled {
      assert (y - x) * t > 0.0;
    } else if a.unscaled > b.unscaled {
      assert (x - y) * t > 0.0;
    }
  }

  /** BigDecimal.compareTo: the sign of a - b, whatever the two scales. */
  function CompareTo(a: Decimal, b: Decimal): (r: int)
    ensures -1 <= r <= 1
    ensures r < 0 <==> Value(a) < Value(b)
    ensures r == 0 <==> Value(a) == Value(b)
    ensures r > 0 <==> Value(a) > Value(b)
  {
    var s := Max(a.scale, b.scale);
    var x, y := Align(a, s), Align(b, s);
    SameScaleOrder(x, y);
    if x.unscaled < y.unscaled then -1
    else if x.unscaled == y.unscaled then 0
    else 1
  }

  /** BigDecimal.add: exact, at the larger scale. */
  function Add(a: Decimal, b: Decimal): (r: Decimal)
    ensures r.scale == Max(a.scale, b.scale)
    ensures Value(r) == Value(a) + Value(b)
  {
    var s := Max(a.scale, b.scale);
    var x, y := Align(a, s), Align(b, s);
    SumAtScale(x.unscaled, y.unscaled, s);
    Decimal(x.unscaled + y.unscaled, s)
  }

  /** BigDecimal.subtract: exact, at the larger scale. */
  function Subtract(a: Decimal, b: Decimal): (r: Decimal)
    ensures r.scale == Max(a.scale, b.scale)
    ensures Value(r) == Value(a) - Value(b)
  {
    var s := Max(a.scale, b.scale);
    var x, y := Align(a, s), Align(b, s);
    DifferenceAtScale(x.unscaled, y.unscaled, s);
    Decimal(x.unscaled - y.unscaled, s)
  }

  lemma SumAtScale(x: int, y: int, s: int)
    ensures Value(Decimal(x + y, s)) == Value(Decimal(x, s)) + Value(Decimal(y, s))
  {
  }

  lemma DifferenceAtScale(x: int, y: int, s: int)
    ensures Value(Decimal(x - y, s)) == Value(Decimal(x, s)) - Value(Decimal(y, s))
  {
  }

  /**
    Adding and then subtracting the same decimal gives back the first one,
    written at the larger of the two scales; so it is the very same decimal
    whenever its scale is already the larger one.
  */
  lemma {:induction false} AddThenSubtract(b: Decimal, a: Decimal)
    ensures Subtract(Add(b, a), a) == Align(b, Max(b.scale, a.scale))
    ensures b.scale >= a.scale ==> Subtract(Add(b, a), a) == b
    ensures Value(Subtract(Add(b, a), a)) == Value(b)
  {
    var s := Max(b.scale, a.scale);
    var sum := Add(b, a);
    assert sum.scale == s;
    assert Align(sum, s) == sum;
    assert Subtract(sum, a).unscaled == sum.unscaled - Align(a, s).unscaled;
  }
}
