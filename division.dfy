/** Long division of Integer.hh: divideWithRemainder with its binary search
    for each quotient digit, and the / and % operators built on it. Quotients
    truncate toward zero and remainders take the sign of the dividend. */
module DivisionOps {
  import opened Digits
  import opened Integers

  function Abs(x: int): nat {
    if x < 0 then -x else x
  }

  /** Quotient truncated toward zero: the magnitude quotient, negated when the
      signs differ. */
  function TruncDiv(a: int, b: int): int
    requires b != 0
  {
    var q := Abs(a) / Abs(b);
    if (a < 0) != (b < 0) then -q else q
  }

  /** Remainder of truncated division: the magnitude remainder with the
      dividend's sign. */
  function TruncMod(a: int, b: int): int
    requires b != 0
  {
    var m := Abs(a) % Abs(b);
    if a < 0 then -m else m
  }

  // ---------------------------------------------------------------------------
  // Arithmetic facts

  /** x * d strictly between -d and d forces x == 0. */
  lemma MultipleBetween(x: int, d: int)
    requires d > 0 && -d < x * d < d
    ensures x == 0
  {
    if x >= 1 {
      MulMonotone(d, 1, x);
      assert false;
    } else if x <= -1 {
      MulMonotone(d, 1, -x);
      assert false;
    }
  }

  /** Euclidean division by a positive divisor has exactly one quotient and remainder. */
  lemma DivModUnique(n: int, d: int, q: int, r: int)
    requires d > 0 && 0 <= r < d && n == q * d + r
    ensures q == n / d && r == n % d
  {
    var q0, r0 := n / d, n % d;
    assert n == q0 * d + r0 && 0 <= r0 < d;
    assert (q - q0) * d == r0 - r;
    MultipleBetween(q - q0, d);
  }

  /** Truncated division: the quotient times the divisor plus the remainder is
      the dividend, the remainder is smaller than the divisor in magnitude, and
      a non-zero remainder has the dividend's sign. */
  lemma TruncDivMod(a: int, b: int)
    requires b != 0
    ensures a == TruncDiv(a, b) * b + TruncMod(a, b)
    ensures Abs(TruncMod(a, b)) < Abs(b)
    ensures TruncMod(a, b) != 0 ==> (TruncMod(a, b) < 0 <==> a < 0)
  {
    var q, m := Abs(a) / Abs(b), Abs(a) % Abs(b);
    assert Abs(a) == q * Abs(b) + m;
    if b < 0 {
      assert q * Abs(b) == -(q * b);
    } else {
      assert q * Abs(b) == q * b;
    }
    if (a < 0) != (b < 0) {
      assert -q * b == -(q * b);
    }
  }

  /** The truncated quotient is zero exactly when the dividend is smaller in
      magnitude, and otherwise negative exactly when the signs differ. */
  lemma TruncQuotientSign(a: int, b: int)
    requires b != 0
    ensures TruncDiv(a, b) == 0 <==> Abs(a) < Abs(b)
    ensures TruncDiv(a, b) != 0 ==> (TruncDiv(a, b) < 0 <==> (a < 0) != (b < 0))
  {
    QuotientZero(Abs(a), Abs(b));
  }

  lemma QuotientZero(n: nat, d: nat)
    requires d > 0
    ensures n / d == 0 <==> n < d
  {
    if n < d {
      DivModUnique(n, d, 0, n);
    } else {
      assert n == (n / d) * d + n % d;
    }
  }

  /** The truncated quotient and remainder are the only pair with those properties. */
  lemma TruncUnique(a: int, b: int, q: int, r: int)
    requires b != 0 && a == q * b + r && Abs(r) < Abs(b)
    requires r != 0 ==> (r < 0 <==> a < 0)
    ensures q == TruncDiv(a, b) && r == TruncMod(a, b)
  {
    if a >= 0 && b > 0 {
      DivModUnique(a, b, q, r);
    } else if a >= 0 {
      assert a == (-q) * (-b) + r;
      DivModUnique(a, -b, -q, r);
    } else if b > 0 {
      assert -a == (-q) * b + (-r);
      DivModUnique(-a, b, -q, -r);
    } else {
      assert -a == q * (-b) + (-r);
      DivModUnique(-a, -b, q, -r);
    }
  }

  // ---------------------------------------------------------------------------
  // Long division

  /** What one probe of the binary search learns: whether middle * d fits. */
  lemma ProbeOutcome(p: int, d: int, middle: int, r: int)
    requires p == d * middle
    ensures p <= r ==> middle * d <= r
    ensures !(p <= r) ==> r < ((middle - 1) + 1) * d
  {
  }

  /** The binary search for one quotient digit: the largest digit whose multiple
      of the divisor does not exceed the running remainder. */
  method QuotientDigit(divisor: Integer, remainder: Integer) returns (digit: int)
    requires divisor.Valid() && remainder.Valid()
    requires divisor.ToInt() > 0 && remainder.ToInt() >= 0
    ensures 0 <= digit <= 9
    ensures digit * divisor.ToInt() <= remainder.ToInt()
    ensures digit < 9 ==> remainder.ToInt() < (digit + 1) * divisor.ToInt()
  {
    ghost var d, r := divisor.ToInt(), remainder.ToInt();
    var low, high := 0, 9;
    digit := 0;
    while low <= high
      invariant 0 <= low <= high + 1 <= 10
      invariant 0 <= digit <= 9 && digit * d <= r
      invariant low > 0 ==> digit == low - 1
      invariant high < 9 ==> r < (high + 1) * d
      decreases high - low
    {
      var middle := (low + high) / 2;
      var factor := FromLongLong(middle);
      var product := Multiply(divisor, factor);
      var fits := LessOrEqual(product, remainder);
      ProbeOutcome(product.ToInt(), d, middle, r);
      if fits {
        digit := middle;
        low := middle + 1;
      } else {
        high := middle - 1;
      }
    }
  }

  /** The arithmetic of one step of long division: bringing down digit ai and
      subtracting digit times d keeps rest == quotient * d + remainder. */
  lemma LongDivisionArith(n: int, nRest: int, ai: int, q: int, qNew: int, d: int,
                          r: int, r1: int, r2: int, digit: int)
    requires nRest == q * d + r && n == ai + 10 * nRest
    requires r1 == ai + 10 * r && r2 == r1 - digit * d && qNew == digit + 10 * q
    ensures n == qNew * d + r2
  {
    calc {
      qNew * d + r2;
      == (digit + 10 * q) * d + r1 - digit * d;
      == { Distribute(d, digit, 10 * q); }
      digit * d + (10 * q) * d + r1 - digit * d;
      == 10 * (q * d) + ai + 10 * r;
      == ai + 10 * (q * d + r);
    }
  }

  /** One step of long division keeps the remainder below the divisor. */
  lemma RemainderBound(r1: int, d: int, digit: int)
    requires d > 0 && 0 <= digit <= 9 && digit * d <= r1 && r1 < 10 * d
    requires digit < 9 ==> r1 < (digit + 1) * d
    ensures 0 <= r1 - digit * d < d
  {
    Distribute(d, digit, 1);
  }

  /** The invariant of the long-division loop: the dividend's digits above
      index are the quotient digits above index times the divisor, plus the
      running remainder. */
  ghost predicate DivisionInvariant(a: seq<int>, quotient: seq<int>, index: int, d: int, r: int)
    requires -1 <= index < |a| && |quotient| == |a|
  {
    Value(a[index + 1..]) == Value(quotient[index + 1..]) * d + r
  }

  /** One iteration of the long-division loop keeps its invariant. */
  lemma DivisionStep(a: seq<int>, quotient: seq<int>, index: nat, d: int, r: int, r1: int, digit: int, r2: int)
    requires index < |a| && |quotient| == |a|
    requires DivisionInvariant(a, quotient, index, d, r)
    requires r1 == a[index] + 10 * r && r2 == r1 - digit * d
    ensures DivisionInvariant(a, quotient[index := digit], index - 1, d, r2)
  {
    var updated := quotient[index := digit];
    assert updated[index + 1..] == quotient[index + 1..];
    ValueDrop(a, index);
    ValueDrop(updated, index);
    LongDivisionArith(Value(a[index..]), Value(a[index + 1..]), a[index], Value(quotient[index + 1..]),
                      Value(updated[index..]), d, r, r1, r2, digit);
  }

  /** Bringing down the next dividend digit: the remainder with one more digit at the bottom. */
  method BringDown(remainder: Integer, digit: int) returns (r: Integer)
    requires remainder.Valid() && !remainder.negative && 0 <= digit <= 9
    ensures r.Valid() && !r.negative && r.ToInt() == digit + 10 * remainder.ToInt()
  {
    var shifted := [0] + remainder.digits;
    shifted := shifted[0 := digit];
    assert shifted == [digit] + remainder.digits;
    ValueCons(digit, remainder.digits);
    r := RemoveLeadingZeros(Integer(shifted, false));
  }

  /** The long-division loop of divideWithRemainder: from the top digit of the
      dividend magnitude a down, bring the digit into the running remainder,
      find the quotient digit by binary search, and subtract. */
  method LongDivision(a: seq<int>, divisor: Integer) returns (quotient: seq<int>, remainder: Integer)
    requires IsDigits(a) && divisor.Valid() && divisor.ToInt() > 0
    ensures |quotient| == |a| && IsDigits(quotient)
    ensures remainder.Valid() && !remainder.negative && 0 <= remainder.ToInt() < divisor.ToInt()
    ensures Value(a) == Value(quotient) * divisor.ToInt() + remainder.ToInt()
  {
    ghost var d := divisor.ToInt();
    quotient := Zeros(|a|);
    remainder := Zero();
    var index := |a| - 1;
    assert a[index + 1..] == [] && quotient[index + 1..] == [];
    while index >= 0
      invariant -1 <= index < |a| && |quotient| == |a| && IsDigits(quotient)
      invariant remainder.Valid() && !remainder.negative && 0 <= remainder.ToInt() < d
      invariant DivisionInvariant(a, quotient, index, d, remainder.ToInt())
    {
      var brought := BringDown(remainder, a[index]);
      var digit := QuotientDigit(divisor, brought);
      var factor := FromLongLong(digit);
      var product := Multiply(divisor, factor);
      var next := Subtract(brought, product);
      RemainderBound(brought.ToInt(), d, digit);
      DivisionStep(a, quotient, index, d, remainder.ToInt(), brought.ToInt(), digit, next.ToInt());
      NegativeIff(next);
      quotient := quotient[index := digit];
      remainder := next;
      index := index - 1;
    }
    assert a[0..] == a && quotient[0..] == quotient;
  }

  /** divideWithRemainder: fails on a zero divisor; returns (0, dividend) when
      the dividend is smaller in magnitude; otherwise long division of the
      magnitudes, one quotient digit per dividend digit from the top. */
  method DivideWithRemainder(dividend: Integer, divisor: Integer) returns (r: Result<(Integer, Integer)>)
    requires dividend.Valid() && divisor.Valid()
    ensures r.Failure? <==> divisor.ToInt() == 0
    ensures r.Failure? ==> r.error == DivisionByZero
    ensures r.Success? ==>
              && r.value.0.Valid() && r.value.1.Valid()
              && r.value.0.ToInt() == TruncDiv(dividend.ToInt(), divisor.ToInt())
              && r.value.1.ToInt() == TruncMod(dividend.ToInt(), divisor.ToInt())
    ensures r.Success? && Abs(dividend.ToInt()) < Abs(divisor.ToInt()) ==>
              r.value.0 == Zero() && r.value.1 == dividend
  {
    ZeroIff(divisor);
    if divisor.IsZero() {
      return Failure(DivisionByZero);
    }
    var absoluteDividend := Absolute(dividend);
    var absoluteDivisor := Absolute(divisor);
    var smaller := Less(absoluteDividend, absoluteDivisor);
    if smaller {
      var zero := FromLongLong(0);
      TruncUnique(dividend.ToInt(), divisor.ToInt(), 0, dividend.ToInt());
      CanonicalUnique(zero, Zero());
      return Success((zero, dividend));
    }
    var quotient, remainder := LongDivision(absoluteDividend.digits, absoluteDivisor);
    assert absoluteDividend.digits == dividend.digits;
    ghost var dv := absoluteDivisor.ToInt();
    assert dv == Value(divisor.digits);
    var q := RemoveLeadingZeros(Integer(quotient, dividend.negative != divisor.negative));
    var m := RemoveLeadingZeros(remainder.(negative := dividend.negative));
    DivisionResult(dividend, divisor, quotient, remainder.ToInt(), q, m);
    r := Success((q, m));
  }

  /** The signs of divideWithRemainder's results turn the magnitude division
      into truncated division. */
  lemma DivisionResult(dividend: Integer, divisor: Integer, quotient: seq<int>, rem: int, q: Integer, m: Integer)
    requires dividend.Valid() && divisor.Valid() && divisor.ToInt() != 0
    requires Value(dividend.digits) == Value(quotient) * Value(divisor.digits) + rem
    requires 0 <= rem < Value(divisor.digits)
    requires q.ToInt() == Integer(quotient, dividend.negative != divisor.negative).ToInt()
    requires m.ToInt() == (if dividend.negative then -rem else rem)
    ensures q.ToInt() == TruncDiv(dividend.ToInt(), divisor.ToInt())
    ensures m.ToInt() == TruncMod(dividend.ToInt(), divisor.ToInt())
  {
    var a, b := dividend.ToInt(), divisor.ToInt();
    NegativeIff(dividend);
    NegativeIff(divisor);
    DivModUnique(Abs(a), Abs(b), Value(quotient), rem);
  }

  /** operator/: the quotient of divideWithRemainder. */
  method Divide(a: Integer, b: Integer) returns (r: Result<Integer>)
    requires a.Valid() && b.Valid()
    ensures r.Failure? <==> b.ToInt() == 0
    ensures r.Failure? ==> r.error == DivisionByZero
    ensures r.Success? ==> r.value.Valid() && r.value.ToInt() == TruncDiv(a.ToInt(), b.ToInt())
  {
    var division := DivideWithRemainder(a, b);
    if division.Failure? {
      return Failure(division.error);
    }
    r := Success(division.value.0);
  }

  /** operator%: the remainder of divideWithRemainder. */
  method Modulo(a: Integer, b: Integer) returns (r: Result<Integer>)
    requires a.Valid() && b.Valid()
    ensures r.Failure? <==> b.ToInt() == 0
    ensures r.Failure? ==> r.error == DivisionByZero
    ensures r.Success? ==> r.value.Valid() && r.value.ToInt() == TruncMod(a.ToInt(), b.ToInt())
  {
    var division := DivideWithRemainder(a, b);
    if division.Failure? {
      return Failure(division.error);
    }
    r := Success(division.value.1);
  }
}
