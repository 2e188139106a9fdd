/** The free functions of Integer.hh built on the Integer operations: power,
    factorial, gcd, lcm and the primality test, each proved against a
    reference definition over Dafny's unbounded integers. */
module NumberTheory {
  import opened Digits
  import opened DecimalText
  import opened Integers
  import opened DivisionOps

  // ---------------------------------------------------------------------------
  // Reference definitions

  function Pow(b: int, e: nat): int {
    if e == 0 then 1 else b * Pow(b, e - 1)
  }

  function Fact(n: nat): nat {
    if n == 0 then 1 else n * Fact(n - 1)
  }

  /** k divides n (only 0 is a multiple of 0). */
  predicate Divides(k: int, n: int) {
    if k == 0 then n == 0 else n % k == 0
  }

  /** Euclid's algorithm on naturals. */
  function GcdOf(x: nat, y: nat): nat
    decreases y
  {
    if y == 0 then x else GcdOf(y, x % y)
  }

  /** n is a prime: at least 2, and no k with 2 <= k < n divides it. */
  predicate Prime(n: int) {
    n >= 2 && forall k :: 2 <= k < n ==> !Divides(k, n)
  }

  // ---------------------------------------------------------------------------
  // Divisibility

  /** A multiple of g leaves no remainder. */
  lemma MultipleMod(m: int, g: int)
    requires g > 0
    ensures (m * g) % g == 0
  {
    DivModUnique(m * g, g, m, 0);
  }

  /** A combination c * u + v of two multiples of g is a multiple of g. */
  lemma DividesLinear(g: int, u: int, v: int, c: int)
    requires g > 0 && u % g == 0 && v % g == 0
    ensures (c * u + v) % g == 0
  {
    var qu := u / g;
    var qv := v / g;
    assert u == qu * g;
    assert v == qv * g;
    assert c * u + v == (c * qu + qv) * g;
    MultipleMod(c * qu + qv, g);
  }

  /** GcdOf(x, y) divides both x and y. */
  lemma {:induction false} GcdDivides(x: nat, y: nat)
    ensures Divides(GcdOf(x, y), x) && Divides(GcdOf(x, y), y)
    decreases y
  {
    if y == 0 {
      if x > 0 {
        MultipleMod(1, x);
      }
    } else {
      var g := GcdOf(y, x % y);
      GcdDivides(y, x % y);
      assert g > 0;
      EuclidStep(x, y, g);
    }
  }

  /** A divisor of y and of x % y divides x = (x / y) * y + x % y. */
  lemma EuclidStep(x: nat, y: nat, g: int)
    requires y > 0 && g > 0 && y % g == 0 && (x % y) % g == 0
    ensures x % g == 0
  {
    DividesLinear(g, y, x % y, x / y);
    assert (x / y) * y + x % y == x;
  }

  /** Every positive common divisor of x and y divides GcdOf(x, y). */
  lemma {:induction false} GcdGreatest(x: nat, y: nat, k: int)
    requires k > 0 && Divides(k, x) && Divides(k, y)
    ensures Divides(k, GcdOf(x, y))
    decreases y
  {
    if y > 0 {
      // x % y = x - (x / y) * y
      DividesLinear(k, y, x, -(x / y));
      assert -(x / y) * y + x == x % y;
      GcdGreatest(y, x % y, k);
    }
  }

  /** The gcd is zero only when both arguments are. */
  lemma GcdPositive(x: nat, y: nat)
    requires x > 0 || y > 0
    ensures GcdOf(x, y) > 0
  {
    GcdDivides(x, y);
  }

  /** Equal multiples of a positive g have equal factors. */
  lemma Cancel(g: int, p: int, q: int)
    requires g > 0 && p * g == q * g
    ensures p == q
  {
    if p < q {
      MulMonotone(g, p + 1, q);
      Distribute(g, p, 1);
    } else if q < p {
      MulMonotone(g, q + 1, p);
      Distribute(g, q, 1);
    }
  }

  /** Scaling both operands of % by t > 0 scales the remainder by t. */
  lemma ModScale(a: nat, b: nat, t: nat)
    requires b > 0 && t > 0
    ensures (a * t) % (b * t) == (a % b) * t
  {
    var q, m := a / b, a % b;
    assert a == q * b + m;
    assert a * t == q * (b * t) + m * t;
    MulMonotone(t, m, b - 1);
    assert t * (b - 1) == b * t - t;
    DivModUnique(a * t, b * t, q, m * t);
  }

  /** Euclid's gcd commutes with scaling: gcd(a*t, b*t) = t * gcd(a, b). */
  lemma {:induction false} GcdScale(a: nat, b: nat, t: nat)
    ensures GcdOf(a * t, b * t) == t * GcdOf(a, b)
    decreases b
  {
    if b == 0 {
      assert b * t == 0;
    } else if t == 0 {
      assert a * t == 0 && b * t == 0;
    } else {
      assert b * t > 0;
      ModScale(a, b, t);
      GcdScale(b, a % b, t);
    }
  }

  lemma DivExact(n: int, d: int)
    requires d > 0 && n % d == 0
    ensures n == (n / d) * d
  {
  }

  lemma Regroup(p: int, q: int, r: int)
    ensures p * (q * r) == (q * p) * r
  {
  }

  /** Dividing positive x and y by their gcd leaves coprime parts. */
  lemma ReducedCoprime(x: nat, y: nat)
    requires x > 0 && y > 0
    ensures GcdOf(x, y) > 0 && x % GcdOf(x, y) == 0 && y % GcdOf(x, y) == 0
    ensures GcdOf(x / GcdOf(x, y), y / GcdOf(x, y)) == 1
  {
    var g := GcdOf(x, y);
    GcdDivides(x, y);
    GcdPositive(x, y);
    var a, b := x / g, y / g;
    DivExact(x, g);
    DivExact(y, g);
    ScaledGcd(a, b, g, x, y);
    Cancel(g, GcdOf(a, b), 1);
  }

  lemma ScaledGcd(a: nat, b: nat, g: nat, x: nat, y: nat)
    requires x == a * g && y == b * g
    ensures GcdOf(x, y) == GcdOf(a, b) * g
  {
    GcdScale(a, b, g);
  }

  /** If a is coprime to b and a * s = b * t, then a divides t. */
  lemma CoprimeDivides(a: nat, b: nat, s: nat, t: nat)
    requires a > 0 && GcdOf(a, b) == 1 && a * s == b * t
    ensures t % a == 0
  {
    var at, bt := a * t, b * t;
    MultipleMod(t, a);
    MultipleMod(s, a);
    Regroup(1, t, a);
    Regroup(1, s, a);
    GcdGreatest(at, bt, a);
    ScaledGcd(a, b, t, at, bt);
  }

  /** Every common multiple m of positive x and y is a multiple of x / gcd * y. */
  lemma LcmLeast(x: nat, y: nat, m: nat)
    requires x > 0 && y > 0 && Divides(x, m) && Divides(y, m)
    ensures GcdOf(x, y) > 0 && Divides(x / GcdOf(x, y) * y, m)
  {
    ReducedCoprime(x, y);
    var g := GcdOf(x, y);
    var a, b := x / g, y / g;
    DivExact(x, g);
    DivExact(y, g);
    DivExact(m, x);
    DivExact(m, y);
    LcmLeastParts(x, y, m, g, a, b, m / x, m / y);
  }

  /** The leastness argument on the parts x = a * g, y = b * g, m = s * x = t * y:
      a * s = b * t and gcd(a, b) = 1, so a divides t and a * y divides m. */
  lemma LcmLeastParts(x: nat, y: nat, m: nat, g: nat, a: nat, b: nat, s: nat, t: nat)
    requires g > 0 && a > 0 && y > 0 && x == a * g && y == b * g && GcdOf(a, b) == 1
    requires m == s * x && m == t * y
    ensures m % (a * y) == 0
  {
    CofactorsMatch(g, a, b, s, t, m);
    CoprimeDivides(a, b, s, t);
    DivExact(t, a);
    ScaledMultiple(m, t / a, a, y);
  }

  /** m = s * (a * g) = t * (b * g) with g > 0 gives a * s = b * t. */
  lemma CofactorsMatch(g: int, a: int, b: int, s: int, t: int, m: int)
    requires g > 0 && m == s * (a * g) && m == t * (b * g)
    ensures a * s == b * t
  {
    Regroup(s, a, g);
    Regroup(t, b, g);
    Cancel(g, a * s, b * t);
  }

  /** m = (u * a) * y is a multiple of a * y > 0. */
  lemma ScaledMultiple(m: int, u: int, a: int, y: int)
    requires a > 0 && y > 0 && m == (u * a) * y
    ensures m % (a * y) == 0
  {
    Regroup(u, a, y);
    MultipleMod(u, a * y);
  }

  // ---------------------------------------------------------------------------
  // Powers and factorials

  /** The exponent law b^(m+n) = b^m * b^n. */
  lemma {:induction false} PowAdd(b: int, m: nat, n: nat)
    ensures Pow(b, m + n) == Pow(b, m) * Pow(b, n)
  {
    if m > 0 {
      PowAdd(b, m - 1, n);
      calc {
        Pow(b, m + n);
        b * Pow(b, m - 1 + n);
        b * (Pow(b, m - 1) * Pow(b, n));
        (b * Pow(b, m - 1)) * Pow(b, n);
      }
    }
  }

  /** (b*b)^k = b^(2k). */
  lemma {:induction false} PowSquare(b: int, k: nat)
    ensures Pow(b * b, k) == Pow(b, 2 * k)
  {
    if k > 0 {
      PowSquare(b, k - 1);
      calc {
        Pow(b * b, k);
        (b * b) * Pow(b * b, k - 1);
        (b * b) * Pow(b, 2 * k - 2);
        b * (b * Pow(b, 2 * k - 2));
        b * Pow(b, 2 * k - 1);
        Pow(b, 2 * k);
      }
    }
  }

  /** One square-and-multiply step: b^e = (b if e is odd else 1) * (b*b)^(e/2). */
  lemma PowHalf(b: int, e: nat)
    ensures Pow(b, e) == (if e % 2 == 1 then b else 1) * Pow(b * b, e / 2)
  {
    PowAdd(b, e % 2, 2 * (e / 2));
    PowSquare(b, e / 2);
    assert e % 2 + 2 * (e / 2) == e;
    assert Pow(b, 1) == b;
  }

  lemma PowerStep(res: int, cur: int, e: nat, res2: int, cur2: int)
    requires res2 == (if e % 2 == 1 then res * cur else res) && cur2 == cur * cur
    ensures res2 * Pow(cur2, e / 2) == res * Pow(cur, e)
  {
    PowHalf(cur, e);
    if e % 2 == 1 {
      assert res2 * Pow(cur2, e / 2) == res * (cur * Pow(cur2, e / 2));
    }
  }

  lemma Pow10Values()
    ensures Pow10(5) == 100000 && Pow10(7) == 10000000 && Pow10(12) == 1000000000000
  {
    assert Pow10(1) == 10;
    assert Pow10(2) == 100;
    assert Pow10(3) == 1000;
    assert Pow10(4) == 10000;
    assert Pow10(5) == 100000;
    assert Pow10(6) == 1000000;
    assert Pow10(7) == 10000000;
    assert Pow10(8) == 100000000;
    assert Pow10(9) == 1000000000;
    assert Pow10(10) == 10000000000;
    assert Pow10(11) == 100000000000;
  }

  /** A non-negative Integer has more than k >= 1 digits exactly when it is at least 10^k. */
  lemma DigitCount(x: Integer, k: nat)
    requires x.Valid() && !x.negative && k >= 1
    ensures |x.digits| > k <==> x.ToInt() >= Pow10(k)
  {
    if |x.digits| > k {
      TrimmedLowerBound(x.digits);
      Pow10Monotone(k, |x.digits| - 1);
    } else {
      ValueBounds(x.digits);
      Pow10Monotone(|x.digits|, k);
    }
  }

  /** power(base, exponent): a negative exponent and one above 10000 are
      refused; otherwise base raised to exponent, by square-and-multiply. */
  method Power(base: Integer, exponent: Integer) returns (r: Result<Integer>)
    requires base.Valid() && exponent.Valid()
    ensures r.Failure? <==> exponent.ToInt() < 0 || exponent.ToInt() > 10000
    ensures r.Failure? ==> r.error == (if exponent.ToInt() < 0 then NegativeArgument else TooLarge)
    ensures r.Success? ==>
      && 0 <= exponent.ToInt()
      && r.value.Valid()
      && r.value.ToInt() == Pow(base.ToInt(), exponent.ToInt())
  {
    NegativeIff(exponent);
    ZeroIff(exponent);
    if exponent.IsNegative() {
      return Failure(NegativeArgument);
    }
    if exponent.IsZero() {
      var one := FromLongLong(1);
      return Success(one);
    }
    var exponentString := ToString(exponent);
    assert |exponentString| == |exponent.digits|;
    if |exponentString| > 7 {
      DigitCount(exponent, 7);
      Pow10Values();
      return Failure(TooLarge);
    }
    var exponentValue := SignedDecimal(exponentString);
    if exponentValue > 10000 {
      return Failure(TooLarge);
    }
    var result := FromLongLong(1);
    var current := base;
    var e: nat := exponentValue;
    while e > 0
      invariant result.Valid() && current.Valid()
      invariant result.ToInt() * Pow(current.ToInt(), e) == Pow(base.ToInt(), exponentValue)
      decreases e
    {
      var before := result;
      var previous := current;
      if e % 2 == 1 {
        result := Multiply(result, current);
      }
      current := Multiply(current, current);
      PowerStep(before.ToInt(), previous.ToInt(), e, result.ToInt(), current.ToInt());
      e := e / 2;
    }
    return Success(result);
  }

  /** factorial(number): a negative number and one above 10000 are refused;
      otherwise number!, multiplied up from 2. */
  method Factorial(number: Integer) returns (r: Result<Integer>)
    requires number.Valid()
    ensures r.Failure? <==> number.ToInt() < 0 || number.ToInt() > 10000
    ensures r.Failure? ==> r.error == (if number.ToInt() < 0 then NegativeArgument else TooLarge)
    ensures r.Success? ==>
      && 0 <= number.ToInt()
      && r.value.Valid()
      && r.value.ToInt() == Fact(number.ToInt())
  {
    NegativeIff(number);
    if number.IsNegative() {
      return Failure(NegativeArgument);
    }
    var numberString := ToString(number);
    assert |numberString| == |number.digits|;
    if |numberString| > 5 {
      DigitCount(number, 5);
      Pow10Values();
      return Failure(TooLarge);
    }
    var value := SignedDecimal(numberString);
    if value > 10000 {
      return Failure(TooLarge);
    }
    var result := MultiplyUpTo(value);
    return Success(result);
  }

  /** The loop of factorial: the product 2 * 3 * ... * value. */
  method MultiplyUpTo(value: nat) returns (result: Integer)
    ensures result.Valid() && result.ToInt() == Fact(value)
  {
    result := FromLongLong(1);
    var i := 2;
    while i <= value
      invariant 2 <= i && (value >= 1 ==> i <= value + 1) && (value < 1 ==> i == 2)
      invariant result.Valid() && result.ToInt() == Fact(i - 1)
    {
      var factor := FromLongLong(i);
      ghost var before := result.ToInt();
      result := Multiply(result, factor);
      FactStep(i, before, result.ToInt());
      i := i + 1;
    }
    assert Fact(1) == 1;
  }

  lemma FactStep(i: nat, before: int, after: int)
    requires i >= 1 && before == Fact(i - 1) && after == before * i
    ensures after == Fact(i)
  {
  }

  /** gcd(first, second): Euclid's algorithm on the absolute values, with %. */
  method Gcd(first: Integer, second: Integer) returns (r: Integer)
    requires first.Valid() && second.Valid()
    ensures r.Valid() && r.ToInt() == GcdOf(Abs(first.ToInt()), Abs(second.ToInt()))
  {
    var x := Absolute(first);
    var y := Absolute(second);
    while !y.IsZero()
      invariant x.Valid() && y.Valid() && x.ToInt() >= 0 && y.ToInt() >= 0
      invariant GcdOf(x.ToInt(), y.ToInt()) == GcdOf(Abs(first.ToInt()), Abs(second.ToInt()))
      decreases y.ToInt()
    {
      ZeroIff(y);
      var temporary := Modulo(x, y);
      x := y;
      y := temporary.value;
    }
    ZeroIff(y);
    return x;
  }

  lemma LcmArith(x: int, y: int, g: int, q: int, l: int)
    requires x > 0 && y > 0 && g > 0 && x % g == 0 && y % g == 0
    requires q == x / g && l == q * y
    ensures l > 0 && l * g == x * y && l % x == 0 && l % y == 0
  {
    assert x == q * g;
    var qy := y / g;
    assert y == qy * g;
    assert q > 0;
    MulMonotone(y, 1, q);
    assert l * g == x * y;
    assert l == x * qy by {
      assert l * g == (x * qy) * g;
    }
    MultipleMod(qy, x);
    MultipleMod(q, y);
  }

  /** lcm(first, second): 0 when either is 0, otherwise |first| / gcd * |second|,
      the common multiple whose product with the gcd is |first| * |second|. */
  method Lcm(first: Integer, second: Integer) returns (r: Integer)
    requires first.Valid() && second.Valid()
    ensures r.Valid() && r.ToInt() >= 0
    ensures first.ToInt() == 0 || second.ToInt() == 0 ==> r.ToInt() == 0
    ensures first.ToInt() != 0 && second.ToInt() != 0 ==> r.ToInt() > 0
    ensures r.ToInt() * GcdOf(Abs(first.ToInt()), Abs(second.ToInt())) == Abs(first.ToInt()) * Abs(second.ToInt())
    ensures Divides(Abs(first.ToInt()), r.ToInt()) && Divides(Abs(second.ToInt()), r.ToInt())
    ensures forall m: nat :: Divides(Abs(first.ToInt()), m) && Divides(Abs(second.ToInt()), m) ==> Divides(r.ToInt(), m)
  {
    ZeroIff(first);
    ZeroIff(second);
    if first.IsZero() || second.IsZero() {
      r := FromLongLong(0);
      if Abs(first.ToInt()) > 0 {
        MultipleMod(0, Abs(first.ToInt()));
      }
      if Abs(second.ToInt()) > 0 {
        MultipleMod(0, Abs(second.ToInt()));
      }
      return;
    }
    var x := Abs(first.ToInt());
    var y := Abs(second.ToInt());
    var g := Gcd(first, second);
    GcdDivides(x, y);
    GcdPositive(x, y);
    var absoluteFirst := Absolute(first);
    var quotient := Divide(absoluteFirst, g);
    var absoluteSecond := Absolute(second);
    r := Multiply(quotient.value, absoluteSecond);
    LcmArith(x, y, g.ToInt(), quotient.value.ToInt(), r.ToInt());
    forall m: nat | Divides(x, m) && Divides(y, m)
      ensures Divides(r.ToInt(), m)
    {
      LcmLeast(x, y, m);
    }
  }

  // ---------------------------------------------------------------------------
  // Primality

  /** No k with 2 <= k < i divides n. */
  ghost predicate NoDivisorBelow(n: int, i: int) {
    forall k :: 2 <= k < i ==> !Divides(k, n)
  }

  /** An even number does not divide an odd one. */
  lemma EvenNotDivisor(n: int, k: int)
    requires n % 2 == 1 && k >= 2 && k % 2 == 0
    ensures !Divides(k, n)
  {
    if n % k == 0 {
      var c := n / k;
      assert n == (c * (k / 2)) * 2;
      MultipleMod(c * (k / 2), 2);
    }
  }

  /** The trial-division loop advances from odd i to i + 2. */
  lemma OddStep(n: int, i: int)
    requires n % 2 == 1 && i >= 3 && i % 2 == 1
    requires NoDivisorBelow(n, i) && !Divides(i, n)
    ensures NoDivisorBelow(n, i + 2)
  {
    EvenNotDivisor(n, i + 1);
  }

  /** Once i * i exceeds n, a divisor of n below n would have a co-divisor below i. */
  lemma NoLargeDivisor(n: int, i: int)
    requires n >= 2 && i >= 2 && i * i > n && NoDivisorBelow(n, i)
    ensures Prime(n)
  {
    forall k | 2 <= k < n
      ensures !Divides(k, n)
    {
      if k >= i && Divides(k, n) {
        var c := n / k;
        assert n == c * k;
        assert c >= 1;
        if c >= i {
          MulMonotone(k, i, c);
          MulMonotone(i, i, k);
          assert false;
        }
        assert c >= 2;
        MultipleMod(k, c);
        assert Divides(c, n);
        assert false;
      }
    }
  }

  /** isPrime(number): false below 2, true for 2 and 3, false for other even
      numbers, refuses odd numbers of more than 12 digits, and otherwise
      tries the odd divisors i with i * i <= number. */
  method IsPrime(number: Integer) returns (r: Result<bool>)
    requires number.Valid()
    ensures r.Failure? <==> number.ToInt() >= 1000000000000 && number.ToInt() % 2 == 1
    ensures r.Failure? ==> r.error == TooLarge
    ensures r.Success? ==> (r.value <==> Prime(number.ToInt()))
  {
    NegativeIff(number);
    var one := FromLongLong(1);
    var atMostOne := LessOrEqual(number, one);
    if number.IsNegative() || atMostOne {
      return Success(false);
    }
    var two := FromLongLong(2);
    var three := FromLongLong(3);
    if Equal(number, two) || Equal(number, three) {
      assert !Divides(2, 3);
      return Success(true);
    }
    var parity := Modulo(number, two);
    ZeroIff(parity.value);
    if parity.value.IsZero() {
      assert Divides(2, number.ToInt());
      return Success(false);
    }
    var numberString := ToString(number);
    assert |numberString| == |number.digits|;
    DigitCount(number, 12);
    Pow10Values();
    if |numberString| > 12 {
      return Failure(TooLarge);
    }
    var value := SignedDecimal(numberString);
    var i := 3;
    EvenNotDivisor(value, 2);
    while i * i <= value
      invariant 3 <= i && i % 2 == 1
      invariant NoDivisorBelow(value, i)
      decreases value - i
    {
      MulMonotone(i, 3, i);
      if value % i == 0 {
        assert Divides(i, value);
        return Success(false);
      }
      OddStep(value, i);
      i := i + 2;
    }
    NoLargeDivisor(value, i);
    return Success(true);
  }
}
