/** The signed decimal integer of Integer.hh: a digit sequence (least-significant
    digit first) with a sign flag, its canonical form, the magnitude helpers, the
    two constructors, rendering, comparison, addition, subtraction and
    multiplication. Values are immutable: every operation builds a fresh digit
    buffer and returns a new Integer. */
module Integers {
  import opened Digits
  import opened DecimalText

  /** The exceptions the engine throws, as tags. */
  datatype Error =
    | InvalidCharacter   // a character other than a digit in the text constructor
    | DivisionByZero     // a zero divisor in divideWithRemainder
    | NegativeArgument   // a negative exponent in power or a negative factorial argument
    | TooLarge           // an exponent, factorial argument or primality candidate over its cap

  datatype Result<T> = Success(value: T) | Failure(error: Error)

  datatype Integer = Integer(digits: seq<int>, negative: bool) {

    /** The canonical form: non-empty decimal digits without a redundant high
        zero, and no negative zero. */
    predicate Valid() {
      IsTrimmed(digits) && (digits == [0] ==> !negative)
    }

    /** The absolute value the digits denote. */
    function Magnitude(): int {
      Value(digits)
    }

    /** The signed value this Integer denotes. */
    function ToInt(): int {
      if negative then -Value(digits) else Value(digits)
    }

    predicate IsZero() {
      |digits| == 1 && digits[0] == 0
    }

    predicate IsNegative() {
      negative
    }
  }

  /** The default-constructed Integer. */
  function Zero(): (z: Integer)
    ensures z.Valid() && z.ToInt() == 0
  {
    Integer([0], false)
  }

  // ---------------------------------------------------------------------------
  // Facts about the canonical form

  lemma ZeroIff(x: Integer)
    requires x.Valid()
    ensures x.IsZero() <==> x.ToInt() == 0
  {
    if !x.IsZero() {
      TrimmedPositive(x.digits);
    } else {
      assert x.digits == [0];
      ValueSingle(0);
    }
  }

  lemma NegativeIff(x: Integer)
    requires x.Valid()
    ensures x.IsNegative() <==> x.ToInt() < 0
  {
    if x.digits != [0] {
      TrimmedPositive(x.digits);
    } else {
      ValueSingle(0);
    }
  }

  /** Canonical Integers are a unique representation of the integers. */
  lemma CanonicalUnique(a: Integer, b: Integer)
    requires a.Valid() && b.Valid() && a.ToInt() == b.ToInt()
    ensures a == b
  {
    NegativeIff(a);
    NegativeIff(b);
    TrimmedUnique(a.digits, b.digits);
  }

  // ---------------------------------------------------------------------------
  // Canonicalisation and magnitude helpers

  /** Drops high zero digits and forces a zero result non-negative. */
  method RemoveLeadingZeros(x: Integer) returns (r: Integer)
    requires |x.digits| >= 1 && IsDigits(x.digits)
    ensures r.Valid() && r.ToInt() == x.ToInt()
    ensures 1 <= |r.digits| <= |x.digits| && r.digits == x.digits[..|r.digits|]
    ensures r.negative == (x.negative && r.digits != [0])
    ensures IsTrimmed(x.digits) ==> r.digits == x.digits
  {
    var digits := x.digits;
    while |digits| > 1 && digits[|digits| - 1] == 0
      invariant 1 <= |digits| <= |x.digits|
      invariant digits == x.digits[..|digits|]
      invariant Value(digits) == Value(x.digits)
      invariant IsTrimmed(x.digits) ==> digits == x.digits
    {
      assert digits == digits[..|digits| - 1] + [0];
      ValueAppend(digits[..|digits| - 1], 0);
      digits := digits[..|digits| - 1];
    }
    var negative := x.negative;
    if |digits| == 1 && digits[0] == 0 {
      assert digits == [0];
      negative := false;
    }
    r := Integer(digits, negative);
  }

  /** -1, 0 or 1 as the magnitude of first is below, equal to or above that of second. */
  method CompareAbsolute(first: Integer, second: Integer) returns (r: int)
    requires IsTrimmed(first.digits) && IsTrimmed(second.digits)
    ensures r == -1 <==> first.Magnitude() < second.Magnitude()
    ensures r == 0 <==> first.Magnitude() == second.Magnitude()
    ensures r == 1 <==> first.Magnitude() > second.Magnitude()
  {
    var a, b := first.digits, second.digits;
    if |a| != |b| {
      if |a| < |b| {
        ShorterIsSmaller(a, b);
        r := -1;
      } else {
        ShorterIsSmaller(b, a);
        r := 1;
      }
      return;
    }
    var index := |a| - 1;
    while index >= 0
      invariant -1 <= index < |a|
      invariant forall k :: index < k < |a| ==> a[k] == b[k]
    {
      if a[index] != b[index] {
        assert a[index + 1..] == b[index + 1..];
        if a[index] < b[index] {
          CompareAt(a, b, index);
          r := -1;
        } else {
          CompareAt(b, a, index);
          r := 1;
        }
        return;
      }
      index := index - 1;
    }
    assert a == b;
    r := 0;
  }

  /** One step of a carry (or borrow) loop: writing digit v at weight p and
      passing c2 on to weight 10 * p accounts for the incoming c and delta. */
  lemma DigitStep(low: int, c: int, p: int, v: int, c2: int, target: int, delta: int)
    requires low + c * p == target
    requires v + 10 * c2 == c + delta
    ensures low + v * p + c2 * (10 * p) == target + delta * p
  {
    calc {
      v * p + c2 * (10 * p);
      == (v + 10 * c2) * p;
      == (c + delta) * p;
      == c * p + delta * p;
    }
  }

  /** The arithmetic of one carry step: the digit v written at weight p and the
      carry c2 passed to weight p1 = 10 * p account for the two incoming digits. */
  lemma CarryArith(lowNew: int, low: int, v: int, p: int, p1: int, c: int, c2: int,
                   taNew: int, ta: int, da: int, tbNew: int, tb: int, db: int)
    requires lowNew == low + v * p && p1 == 10 * p
    requires low + c * p == ta + tb
    requires v + 10 * c2 == c + da + db
    requires taNew == ta + da * p && tbNew == tb + db * p
    ensures lowNew + c2 * p1 == taNew + tbNew
  {
    calc {
      lowNew + c2 * p1;
      == low + v * p + (10 * c2) * p;
      == low + (v + 10 * c2) * p;
      == low + (c + da + db) * p;
      == low + c * p + da * p + db * p;
    }
  }

  /** The invariant of the carry loop of AddAbsolute: the low index digits written
      so far, plus the pending carry at weight 10^index, are the sum of the low
      index digits of a and b. */
  ghost predicate CarryInvariant(digits: seq<int>, a: seq<int>, b: seq<int>, index: nat, carry: int)
    requires index <= |digits|
  {
    Value(digits[..index]) + carry * Pow10(index) == Value(Take(a, index)) + Value(Take(b, index))
  }

  /** One iteration of the carry loop of AddAbsolute keeps its invariant. */
  lemma AddStep(digits: seq<int>, a: seq<int>, b: seq<int>, index: nat, carry: int, sum: int)
    requires index < |digits|
    requires CarryInvariant(digits, a, b, index, carry)
    requires sum == carry + DigitAt(a, index) + DigitAt(b, index)
    ensures CarryInvariant(digits[index := sum % 10], a, b, index + 1, sum / 10)
  {
    var low := digits[..index];
    assert digits[index := sum % 10][..index + 1] == low + [sum % 10];
    ValueAppend(low, sum % 10);
    TakeStep(a, index);
    TakeStep(b, index);
    CarryArith(Value(low + [sum % 10]), Value(low), sum % 10, Pow10(index), Pow10(index + 1), carry, sum / 10,
               Value(Take(a, index + 1)), Value(Take(a, index)), DigitAt(a, index),
               Value(Take(b, index + 1)), Value(Take(b, index)), DigitAt(b, index));
  }

  /** The carry out of the top position of AddAbsolute's buffer is zero. */
  lemma NoCarryOut(vd: int, va: int, vb: int, c: int, p: int, q: int)
    requires 0 <= vd && 0 <= va < q && 0 <= vb < q && p == 10 * q && 0 <= c
    requires vd + c * p == va + vb
    ensures c == 0 && vd == va + vb
  {
    SmallFactor(c, p, va + vb - vd);
  }

  /** The carry invariant over the whole buffer. */
  lemma CarryInvariantAll(digits: seq<int>, a: seq<int>, b: seq<int>, carry: int)
    requires |a| < |digits| && |b| < |digits| && CarryInvariant(digits, a, b, |digits|, carry)
    ensures Value(digits) + carry * Pow10(|digits|) == Value(a) + Value(b)
  {
    var n := |digits|;
    assert digits[..n] == digits && Take(a, n) == a && Take(b, n) == b;
  }

  /** Both summands stay below a tenth of the buffer's capacity. */
  lemma AddBounds(digits: seq<int>, a: seq<int>, b: seq<int>)
    requires IsDigits(digits) && IsDigits(a) && IsDigits(b) && |a| < |digits| && |b| < |digits|
    ensures 0 <= Value(digits) && 0 <= Value(a) < Pow10(|digits| - 1) && 0 <= Value(b) < Pow10(|digits| - 1)
    ensures Pow10(|digits|) == 10 * Pow10(|digits| - 1)
  {
    ValueBounds(a);
    ValueBounds(b);
    ValueBounds(digits);
    Pow10Monotone(|a|, |digits| - 1);
    Pow10Monotone(|b|, |digits| - 1);
  }

  lemma AddFinalCarry(digits: seq<int>, a: seq<int>, b: seq<int>, carry: int)
    requires IsDigits(digits) && IsDigits(a) && IsDigits(b) && |a| < |digits| && |b| < |digits|
    requires 0 <= carry <= 1
    requires CarryInvariant(digits, a, b, |digits|, carry)
    ensures carry == 0 && Value(digits) == Value(a) + Value(b)
  {
    CarryInvariantAll(digits, a, b, carry);
    AddBounds(digits, a, b);
    NoCarryOut(Value(digits), Value(a), Value(b), carry, Pow10(|digits|), Pow10(|digits| - 1));
  }

  /** Positional sum with carry; the result is the sum of the magnitudes. */
  method AddAbsolute(first: Integer, second: Integer) returns (r: Integer)
    requires IsTrimmed(first.digits) && IsTrimmed(second.digits)
    ensures r.Valid() && !r.negative
    ensures r.ToInt() == first.Magnitude() + second.Magnitude()
  {
    var a, b := first.digits, second.digits;
    var n := (if |a| < |b| then |b| else |a|) + 1;
    var digits := Zeros(n);
    var carry := 0;
    var index := 0;
    while index < n
      invariant 0 <= index <= n && |digits| == n && IsDigits(digits)
      invariant 0 <= carry <= 1
      invariant CarryInvariant(digits, a, b, index, carry)
    {
      var sum := carry;
      if index < |a| {
        sum := sum + a[index];
      }
      if index < |b| {
        sum := sum + b[index];
      }
      AddStep(digits, a, b, index, carry, sum);
      digits := digits[index := sum % 10];
      carry := sum / 10;
      index := index + 1;
    }
    AddFinalCarry(digits, a, b, carry);
    r := RemoveLeadingZeros(Integer(digits, false));
  }

  /** The arithmetic of one borrow step: the digit v written at weight p and the
      borrow c2 taken from weight p1 = 10 * p account for the digits da - db. */
  lemma BorrowArith(lowNew: int, low: int, v: int, p: int, p1: int, c: int, c2: int,
                    taNew: int, ta: int, da: int, tbNew: int, tb: int, db: int)
    requires lowNew == low + v * p && p1 == 10 * p
    requires low == ta - tb + c * p
    requires v - 10 * c2 == da - db - c
    requires taNew == ta + da * p && tbNew == tb + db * p
    ensures lowNew == taNew - tbNew + c2 * p1
  {
    calc {
      lowNew;
      == ta - tb + c * p + v * p;
      == ta - tb + (c + v) * p;
      == ta - tb + (da - db + 10 * c2) * p;
      == ta - tb + da * p - db * p + (10 * c2) * p;
    }
  }

  /** The invariant of the borrow loop of SubtractAbsolute: the low index digits
      written so far, less the pending borrow at weight 10^index, are the
      difference of the low index digits of a and b. */
  ghost predicate BorrowInvariant(digits: seq<int>, a: seq<int>, b: seq<int>, index: nat, borrow: int)
    requires index <= |digits| && index <= |a|
  {
    Value(digits[..index]) == Value(a[..index]) - Value(Take(b, index)) + borrow * Pow10(index)
  }

  /** One iteration of the borrow loop of SubtractAbsolute keeps its invariant. */
  lemma SubtractStep(digits: seq<int>, a: seq<int>, b: seq<int>, index: nat, borrow: int, value: int, borrow2: int)
    requires index < |digits| && index < |a|
    requires BorrowInvariant(digits, a, b, index, borrow)
    requires value - 10 * borrow2 == a[index] - DigitAt(b, index) - borrow
    ensures BorrowInvariant(digits[index := value], a, b, index + 1, borrow2)
  {
    var low := digits[..index];
    assert digits[index := value][..index + 1] == low + [value];
    ValueAppend(low, value);
    ValuePrefix(a, index);
    TakeStep(b, index);
    BorrowArith(Value(low + [value]), Value(low), value, Pow10(index), Pow10(index + 1), borrow, borrow2,
                Value(a[..index + 1]), Value(a[..index]), a[index],
                Value(Take(b, index + 1)), Value(Take(b, index)), DigitAt(b, index));
  }

  /** The borrow out of the top position of SubtractAbsolute is zero. */
  lemma NoBorrowOut(vd: int, va: int, vb: int, c: int, p: int)
    requires 0 <= vd < p && vb <= va && 0 <= c
    requires vd == va - vb + c * p
    ensures c == 0 && vd == va - vb
  {
    SmallFactor(c, p, vd - va + vb);
  }

  /** The borrow invariant over the whole buffer. */
  lemma BorrowInvariantAll(digits: seq<int>, a: seq<int>, b: seq<int>, borrow: int)
    requires |a| == |digits| && |b| <= |a| && BorrowInvariant(digits, a, b, |digits|, borrow)
    ensures Value(digits) == Value(a) - Value(b) + borrow * Pow10(|digits|)
  {
    var n := |digits|;
    assert digits[..n] == digits && a[..n] == a && Take(b, n) == b;
  }

  lemma SubtractFinalBorrow(digits: seq<int>, a: seq<int>, b: seq<int>, borrow: int)
    requires IsDigits(digits) && Value(a) >= Value(b)
    requires 0 <= borrow <= 1
    requires |a| == |digits| && |b| <= |a| && BorrowInvariant(digits, a, b, |digits|, borrow)
    ensures borrow == 0 && Value(digits) == Value(a) - Value(b)
  {
    BorrowInvariantAll(digits, a, b, borrow);
    ValueBounds(digits);
    NoBorrowOut(Value(digits), Value(a), Value(b), borrow, Pow10(|digits|));
  }

  /** Positional difference with borrow; needs |first| >= |second|. */
  method SubtractAbsolute(first: Integer, second: Integer) returns (r: Integer)
    requires IsTrimmed(first.digits) && IsTrimmed(second.digits)
    requires first.Magnitude() >= second.Magnitude()
    ensures r.Valid() && !r.negative
    ensures r.ToInt() == first.Magnitude() - second.Magnitude()
  {
    var a, b := first.digits, second.digits;
    assert |b| <= |a| by {
      if |b| > |a| {
        ShorterIsSmaller(a, b);
      }
    }
    var digits := Zeros(|a|);
    var borrow := 0;
    var index := 0;
    while index < |a|
      invariant 0 <= index <= |a| && |digits| == |a| && IsDigits(digits)
      invariant 0 <= borrow <= 1
      invariant BorrowInvariant(digits, a, b, index, borrow)
    {
      var value := a[index] - borrow - (if index < |b| then b[index] else 0);
      var incoming := borrow;
      if value < 0 {
        value := value + 10;
        borrow := 1;
      } else {
        borrow := 0;
      }
      SubtractStep(digits, a, b, index, incoming, value, borrow);
      digits := digits[index := value];
      index := index + 1;
    }
    SubtractFinalBorrow(digits, a, b, borrow);
    r := RemoveLeadingZeros(Integer(digits, false));
  }

  // ---------------------------------------------------------------------------
  // Constructors and rendering

  lemma LowDigitArith(v: int, v1: int, p: int, p1: int, absolute: int, d: int, q: int)
    requires v1 == v + d * p && p1 == 10 * p && absolute == d + 10 * q
    ensures v1 + p1 * q == v + p * absolute
  {
    calc {
      v1 + p1 * q;
      == v + d * p + (10 * p) * q;
      == { Shift10(p, q); }
      v + p * d + p * (10 * q);
      == { Distribute(p, d, 10 * q); }
      v + p * (d + 10 * q);
    }
  }

  /** Peeling the lowest decimal digit d off a number d + 10 * q in the native constructor. */
  lemma LowDigitStep(digits: seq<int>, absolute: int, d: int, q: int)
    requires absolute == d + 10 * q
    ensures Value(digits + [d]) + Pow10(|digits| + 1) * q == Value(digits) + Pow10(|digits|) * absolute
  {
    ValueAppend(digits, d);
    LowDigitArith(Value(digits), Value(digits + [d]), Pow10(|digits|), Pow10(|digits| + 1), absolute, d, q);
  }

  /** The constructor from a native integer: its decimal digits and its sign. */
  method FromLongLong(value: int) returns (r: Integer)
    ensures r.Valid() && r.ToInt() == value
  {
    var negative := value < 0;
    var absolute := if value < 0 then -value else value;
    if absolute == 0 {
      return Integer([0], false);
    }
    var digits: seq<int> := [];
    while absolute != 0
      invariant absolute >= 0 && IsDigits(digits)
      invariant Value(digits) + Pow10(|digits|) * absolute == (if value < 0 then -value else value)
      invariant absolute == 0 ==> |digits| >= 1 && digits[|digits| - 1] != 0
      decreases absolute
    {
      LowDigitStep(digits, absolute, absolute % 10, absolute / 10);
      digits := digits + [absolute % 10];
      absolute := absolute / 10;
    }
    r := Integer(digits, negative);
  }

  /** The text toString produces for x: a '-' when negative, then the digits
      from the most significant down. */
  function Rendered(x: Integer): string
    requires IsDigits(x.digits)
  {
    (if x.negative then "-" else "") + Render(x.digits)
  }

  /** The rendering of a canonical Integer is canonical text denoting its value. */
  lemma RenderedCanonical(x: Integer)
    requires x.Valid()
    ensures CanonicalText(Rendered(x)) && SignedDecimal(Rendered(x)) == x.ToInt()
  {
    var body, s := Render(x.digits), Rendered(x);
    RenderFirst(x.digits);
    assert s[SignLength(s)..] == body;
    if |body| > 1 {
      assert x.digits[|x.digits| - 1] != 0;
      assert CharValue(body[0]) != 0;
    }
    if body == "0" {
      DigitsOfRender(x.digits);
      assert DigitsOf("0") == [0];
    }
    DecimalOfRender(x.digits);
  }

  /** The constructor from text: an optional '-' or '+', then digits; any other
      character fails with InvalidCharacter; empty text and a lone sign give zero. */
  method FromString(text: string) returns (r: Result<Integer>)
    ensures r.Failure? <==> !AllDigitChars(text[SignLength(text)..])
    ensures r.Failure? ==> r.error == InvalidCharacter
    ensures r.Success? ==> r.value.Valid() && r.value.ToInt() == SignedDecimal(text)
    ensures CanonicalText(text) ==>
              && r.Success?
              && r.value.negative == (text[0] == '-')
              && r.value.digits == DigitsOf(text[SignLength(text)..])
  {
    if |text| == 0 {
      return Success(Integer([0], false));
    }
    var negative := false;
    var start := 0;
    if text[0] == '-' {
      negative := true;
      start := 1;
    } else if text[0] == '+' {
      start := 1;
    }
    start := SkipLeadingZeros(text, start);
    var read := ReadDigits(text, start);
    if read.Failure? {
      return Failure(read.error);
    }
    var digits := read.value;
    if |digits| == 0 {
      digits := [0];
    }
    ParseResult(text, start, negative, read.value, digits);
    var x := RemoveLeadingZeros(Integer(digits, negative));
    r := Success(x);
  }

  /** The zero-skipping loop of the text constructor: steps over '0's from
      position from, but never past the last character. */
  method SkipLeadingZeros(text: string, from: nat) returns (start: nat)
    requires from <= |text|
    ensures from <= start <= |text|
    ensures DecimalValue(text[start..]) == DecimalValue(text[from..])
    ensures AllDigitChars(text[start..]) <==> AllDigitChars(text[from..])
    ensures start > from ==> |text| - from > 1 && text[from] == '0'
    ensures from < |text| ==> start < |text|
  {
    start := from;
    while start < |text| - 1 && text[start] == '0'
      invariant from <= start <= |text|
      invariant DecimalValue(text[start..]) == DecimalValue(text[from..])
      invariant AllDigitChars(text[start..]) <==> AllDigitChars(text[from..])
      invariant start > from ==> |text| - from > 1 && text[from] == '0'
      invariant from < |text| ==> start < |text|
    {
      SkipZero(text, start);
      start := start + 1;
    }
  }

  /** The digit loop of the text constructor: walks text[start..] from its end,
      pushing one digit per character, and fails on the first non-digit. */
  method ReadDigits(text: string, start: nat) returns (r: Result<seq<int>>)
    requires start <= |text|
    ensures r.Failure? <==> !AllDigitChars(text[start..])
    ensures r.Failure? ==> r.error == InvalidCharacter
    ensures r.Success? ==> r.value == DigitsOf(text[start..])
  {
    var digits: seq<int> := [];
    var index := |text|;
    while index > start
      invariant start <= index <= |text|
      invariant AllDigitChars(text[index..])
      invariant digits == DigitsOf(text[index..])
    {
      var character := text[index - 1];
      if character < '0' || character > '9' {
        assert text[start..][index - 1 - start] == character;
        return Failure(InvalidCharacter);
      }
      ParseStep(text, index);
      digits := digits + [CharValue(character)];
      index := index - 1;
    }
    r := Success(digits);
  }

  /** What the text constructor has once both loops are done: the digits read
      from text[start..], or [0] when there were none, denote the text. */
  lemma ParseResult(text: string, start: nat, negative: bool, read: seq<int>, digits: seq<int>)
    requires |text| > 0 && negative == (text[0] == '-')
    requires SignLength(text) <= start <= |text|
    requires DecimalValue(text[start..]) == DecimalValue(text[SignLength(text)..])
    requires AllDigitChars(text[start..]) <==> AllDigitChars(text[SignLength(text)..])
    requires start > SignLength(text) ==> |text| - SignLength(text) > 1 && text[SignLength(text)] == '0'
    requires AllDigitChars(text[start..]) && read == DigitsOf(text[start..])
    requires digits == if read == [] then [0] else read
    ensures AllDigitChars(text[SignLength(text)..])
    ensures |digits| >= 1 && IsDigits(digits)
    ensures Integer(digits, negative).ToInt() == SignedDecimal(text)
    ensures CanonicalText(text) ==>
              IsTrimmed(digits) && digits == DigitsOf(text[SignLength(text)..]) && (negative ==> digits != [0])
  {
    ValueOfDigits(text[start..]);
    if read == [] {
      ValueSingle(0);
    }
    if CanonicalText(text) {
      var body := text[SignLength(text)..];
      assert body[0] == text[SignLength(text)];
      assert text[start..] == body;
      RenderDigitsOf(body);
      assert Render([0]) == "0";
    }
  }

  /** Skipping one leading '0' changes neither the value nor the digit check. */
  lemma SkipZero(text: string, start: nat)
    requires start < |text| && text[start] == '0'
    ensures DecimalValue(text[start..]) == DecimalValue(text[start + 1..])
    ensures AllDigitChars(text[start..]) <==> AllDigitChars(text[start + 1..])
  {
    assert text[start..][1..] == text[start + 1..];
    assert CharValue(text[start]) == 0;
    assert text[start..] == [text[start]] + text[start + 1..];
    AllDigitCharsCons(text[start], text[start + 1..]);
  }

  /** One step of the digit loop of the text constructor. */
  lemma ParseStep(text: string, index: nat)
    requires 0 < index <= |text| && IsDigitChar(text[index - 1]) && AllDigitChars(text[index..])
    ensures AllDigitChars(text[index - 1..])
    ensures DigitsOf(text[index - 1..]) == DigitsOf(text[index..]) + [CharValue(text[index - 1])]
  {
    assert text[index - 1..][1..] == text[index..];
    assert text[index - 1..] == [text[index - 1]] + text[index..];
    AllDigitCharsCons(text[index - 1], text[index..]);
  }

  /** Renders the sign (when negative) and the digits, most significant first. */
  method ToString(x: Integer) returns (s: string)
    requires x.Valid()
    ensures s == Rendered(x)
    ensures CanonicalText(s) && SignedDecimal(s) == x.ToInt()
  {
    s := "";
    if x.negative {
      s := s + "-";
    }
    var index := |x.digits| - 1;
    assert x.digits[index + 1..] == [];
    while index >= 0
      invariant -1 <= index < |x.digits|
      invariant IsDigits(x.digits[index + 1..])
      invariant s == (if x.negative then "-" else "") + Render(x.digits[index + 1..])
    {
      RenderDrop(x.digits, index);
      s := s + [DigitChar(x.digits[index])];
      index := index - 1;
    }
    assert x.digits[0..] == x.digits;
    assert s == Rendered(x);
    RenderedCanonical(x);
  }

  // ---------------------------------------------------------------------------
  // Sign-aware layer

  /** Unary minus: flips the sign of a non-zero value. */
  function Negate(x: Integer): (r: Integer)
    requires x.Valid()
    ensures r.Valid() && r.ToInt() == -x.ToInt()
  {
    ZeroIff(x);
    if x.IsZero() then x else Integer(x.digits, !x.negative)
  }

  function Absolute(x: Integer): (r: Integer)
    requires x.Valid()
    ensures r.Valid() && r.ToInt() == if x.ToInt() < 0 then -x.ToInt() else x.ToInt()
  {
    NegativeIff(x);
    Integer(x.digits, false)
  }

  /** operator==: same sign and same digits, which for canonical values is equality of the integers. */
  function Equal(a: Integer, b: Integer): (r: bool)
    requires a.Valid() && b.Valid()
    ensures r <==> a.ToInt() == b.ToInt()
  {
    SameIffEqualValue(a, b);
    a.negative == b.negative && a.digits == b.digits
  }

  /** Canonical Integers are the same representation exactly when they denote the same number. */
  lemma SameIffEqualValue(a: Integer, b: Integer)
    requires a.Valid() && b.Valid()
    ensures (a.negative == b.negative && a.digits == b.digits) <==> a.ToInt() == b.ToInt()
  {
    if a.ToInt() == b.ToInt() {
      CanonicalUnique(a, b);
    }
  }

  function NotEqual(a: Integer, b: Integer): (r: bool)
    requires a.Valid() && b.Valid()
    ensures r <==> a.ToInt() != b.ToInt()
  {
    !Equal(a, b)
  }

  /** operator<: signs first, then magnitudes, inverted when both are negative. */
  method Less(a: Integer, b: Integer) returns (r: bool)
    requires a.Valid() && b.Valid()
    ensures r <==> a.ToInt() < b.ToInt()
  {
    NegativeIff(a);
    NegativeIff(b);
    if a.negative != b.negative {
      return a.negative;
    }
    var comparison := CompareAbsolute(a, b);
    r := if a.negative then comparison > 0 else comparison < 0;
  }

  method Greater(a: Integer, b: Integer) returns (r: bool)
    requires a.Valid() && b.Valid()
    ensures r <==> a.ToInt() > b.ToInt()
  {
    r := Less(b, a);
  }

  method LessOrEqual(a: Integer, b: Integer) returns (r: bool)
    requires a.Valid() && b.Valid()
    ensures r <==> a.ToInt() <= b.ToInt()
  {
    var greater := Less(b, a);
    r := !greater;
  }

  method GreaterOrEqual(a: Integer, b: Integer) returns (r: bool)
    requires a.Valid() && b.Valid()
    ensures r <==> a.ToInt() >= b.ToInt()
  {
    var less := Less(a, b);
    r := !less;
  }

  /** operator+: add magnitudes on equal signs, otherwise subtract the smaller
      magnitude from the larger and keep the larger one's sign. */
  method Add(a: Integer, b: Integer) returns (r: Integer)
    requires a.Valid() && b.Valid()
    ensures r.Valid() && r.ToInt() == a.ToInt() + b.ToInt()
  {
    if a.negative == b.negative {
      var sum := AddAbsolute(a, b);
      r := RemoveLeadingZeros(sum.(negative := a.negative));
      return;
    }
    var comparison := CompareAbsolute(a, b);
    if comparison == 0 {
      r := FromLongLong(0);
      return;
    }
    if comparison > 0 {
      var difference := SubtractAbsolute(a, b);
      r := RemoveLeadingZeros(difference.(negative := a.negative));
      return;
    }
    var difference := SubtractAbsolute(b, a);
    r := RemoveLeadingZeros(difference.(negative := b.negative));
  }

  /** Binary minus: a + (-b). */
  method Subtract(a: Integer, b: Integer) returns (r: Integer)
    requires a.Valid() && b.Valid()
    ensures r.Valid() && r.ToInt() == a.ToInt() - b.ToInt()
  {
    r := Add(a, Negate(b));
  }

  lemma DigitProduct(x: int, y: int)
    requires 0 <= x <= 9 && 0 <= y <= 9
    ensures 0 <= x * y <= 81
  {
    MulMonotone(x, y, 9);
    MulMonotone(9, x, 9);
  }

  /** The invariant of the inner loop of Multiply: the buffer plus the pending
      carry at weight 10^(i + j) is the product of the low i digits of a by b,
      plus a[i] times the low j digits of b at weight 10^i. */
  ghost predicate RowInvariant(digits: seq<int>, a: seq<int>, b: seq<int>, i: nat, j: nat, carry: int, bv: int)
    requires i < |a|
  {
    Value(digits) + carry * Pow10(i + j) == Value(a[..i]) * bv + a[i] * Value(Take(b, j)) * Pow10(i)
  }

  /** The arithmetic of one inner step of Multiply: the digit d at weight p is
      replaced by w, the carry c2 moves to weight p1 = 10 * p, and the row gains
      ai * dj at weight p = pi * pj. */
  lemma MultiplyArith(vNew: int, v: int, d: int, w: int, p: int, p1: int, c: int, c2: int,
                      base: int, ai: int, t: int, t1: int, dj: int, pi: int, pj: int)
    requires vNew == v + (w - d) * p && p1 == 10 * p && p == pi * pj
    requires v + c * p == base + ai * t * pi
    requires w + 10 * c2 == d + c + ai * dj
    requires t1 == t + dj * pj
    ensures vNew + c2 * p1 == base + ai * t1 * pi
  {
    calc {
      vNew + c2 * p1;
      == v + (w - d) * p + (10 * c2) * p;
      == { Distribute(p, w - d, 10 * c2); }
      v + (w - d + 10 * c2) * p;
      == v + (c + ai * dj) * p;
      == { Distribute(p, c, ai * dj); }
      v + c * p + (ai * dj) * p;
      == base + ai * t * pi + (ai * dj) * (pi * pj);
      == { assert (ai * dj) * (pi * pj) == ai * (dj * pj) * pi; }
      base + ai * t * pi + ai * (dj * pj) * pi;
      == { assert ai * t * pi + ai * (dj * pj) * pi == ai * (t + dj * pj) * pi; }
      base + ai * t1 * pi;
    }
  }

  /** One iteration of the inner loop of Multiply keeps its invariant. */
  lemma MultiplyStep(digits: seq<int>, a: seq<int>, b: seq<int>, i: nat, j: nat, carry: int, bv: int, w: int, c2: int)
    requires i < |a| && i + j < |digits|
    requires RowInvariant(digits, a, b, i, j, carry, bv)
    requires w + 10 * c2 == digits[i + j] + carry + a[i] * DigitAt(b, j)
    ensures RowInvariant(digits[i + j := w], a, b, i, j + 1, c2, bv)
  {
    ValueUpdate(digits, i + j, w);
    TakeStep(b, j);
    Pow10Add(i, j);
    MultiplyArith(Value(digits[i + j := w]), Value(digits), digits[i + j], w, Pow10(i + j), Pow10(i + j + 1),
                  carry, c2, Value(a[..i]) * bv, a[i], Value(Take(b, j)), Value(Take(b, j + 1)),
                  DigitAt(b, j), Pow10(i), Pow10(j));
  }

  /** Row i starts from the product of the rows below it and no carry. */
  lemma RowStart(digits: seq<int>, a: seq<int>, b: seq<int>, i: nat, bv: int)
    requires i < |a| && Value(digits) == Value(a[..i]) * bv
    ensures RowInvariant(digits, a, b, i, 0, 0, bv)
  {
    assert Take(b, 0) == [];
    assert a[i] * Value(Take(b, 0)) * Pow10(i) == 0;
  }

  lemma RowEndArith(v: int, x: int, ai: int, bv: int, pi: int, x1: int)
    requires v == x * bv + ai * bv * pi && x1 == x + ai * pi
    ensures v == x1 * bv
  {
    calc {
      x1 * bv;
      == (x + ai * pi) * bv;
      == { Distribute(bv, x, ai * pi); }
      x * bv + (ai * pi) * bv;
    }
  }

  /** A finished row i adds a[i] * b * 10^i to the product of the lower digits. */
  lemma RowEnd(digits: seq<int>, a: seq<int>, b: seq<int>, i: nat, j: nat, bv: int)
    requires i < |a| && j >= |b| && bv == Value(b) && RowInvariant(digits, a, b, i, j, 0, bv)
    ensures Value(digits) == Value(a[..i + 1]) * bv
  {
    assert Take(b, j) == b;
    assert Value(digits) == Value(a[..i]) * bv + a[i] * bv * Pow10(i);
    ValuePrefix(a, i);
    RowEndArith(Value(digits), Value(a[..i]), a[i], bv, Pow10(i), Value(a[..i + 1]));
  }

  /** The low i + 1 digits of a times b stay below 10^(i + |b| + 1). */
  lemma RowBound(a: seq<int>, b: seq<int>, i: nat)
    requires IsDigits(a) && IsDigits(b) && i < |a|
    ensures 0 <= Value(a[..i + 1]) * Value(b) < Pow10(i + |b| + 1)
  {
    assert IsDigits(a[..i + 1]);
    ValueBounds(a[..i + 1]);
    ValueBounds(b);
    MulStrict(Value(a[..i + 1]), Pow10(i + 1), Value(b), Pow10(|b|));
    Pow10Add(i + 1, |b|);
    MulMonotone(Value(b), 0, Value(a[..i + 1]));
  }

  /** A row's carry never passes position i + |b|. */
  lemma RowCarryEnds(digits: seq<int>, a: seq<int>, b: seq<int>, i: nat, carry: int, bv: int)
    requires IsDigits(a) && IsDigits(b) && IsDigits(digits) && i < |a| && bv == Value(b) && carry >= 0
    requires RowInvariant(digits, a, b, i, |b| + 1, carry, bv)
    ensures carry == 0
  {
    assert Take(b, |b| + 1) == b;
    var p := Pow10(i + |b| + 1);
    assert Value(digits) + carry * p == Value(a[..i]) * bv + a[i] * bv * Pow10(i);
    ValuePrefix(a, i);
    RowEndArith(Value(digits) + carry * p, Value(a[..i]), a[i], bv, Pow10(i), Value(a[..i + 1]));
    RowBound(a, b, i);
    ValueBounds(digits);
    SmallFactor(carry, p, Value(a[..i + 1]) * bv - Value(digits));
  }

  /** The sign rule of a product. */
  lemma SignedProduct(x: int, y: int, sx: bool, sy: bool)
    ensures (if sx then -x else x) * (if sy then -y else y) == if sx != sy then -(x * y) else x * y
  {
    if sx {
      assert (-x) * (if sy then -y else y) == -(x * (if sy then -y else y));
    }
    if sy {
      assert x * (-y) == -(x * y);
    }
  }

  /** Schoolbook multiplication into a buffer of |a| + |b| digits, with the sign
      of the product cleared when it is zero. */
  method Multiply(first: Integer, second: Integer) returns (r: Integer)
    requires first.Valid() && second.Valid()
    ensures r.Valid() && r.ToInt() == first.ToInt() * second.ToInt()
    ensures r.negative == (first.negative != second.negative && !r.IsZero())
  {
    var a, b := first.digits, second.digits;
    var n, m := |a|, |b|;
    ghost var bv := Value(b);
    var digits := Zeros(n + m);
    var i := 0;
    while i < n
      invariant 0 <= i <= n && |digits| == n + m && IsDigits(digits)
      invariant Value(digits) == Value(a[..i]) * bv
    {
      var carry := 0;
      var j := 0;
      RowStart(digits, a, b, i, bv);
      while j < m || carry != 0
        invariant 0 <= j <= m + 1 && |digits| == n + m && IsDigits(digits)
        invariant 0 <= carry <= 9
        invariant j > m ==> carry == 0
        invariant RowInvariant(digits, a, b, i, j, carry, bv)
        decreases m + 1 - j
      {
        var product := if j < m then a[i] * b[j] else 0;
        DigitProduct(a[i], DigitAt(b, j));
        var current := digits[i + j] + carry + product;
        MultiplyStep(digits, a, b, i, j, carry, bv, current % 10, current / 10);
        digits := digits[i + j := current % 10];
        carry := current / 10;
        j := j + 1;
        if j > m {
          RowCarryEnds(digits, a, b, i, carry, bv);
        }
      }
      RowEnd(digits, a, b, i, j, bv);
      i := i + 1;
    }
    assert a[..n] == a;
    SignedProduct(Value(a), bv, first.negative, second.negative);
    r := RemoveLeadingZeros(Integer(digits, first.negative != second.negative));
    assert r.IsZero() <==> r.digits == [0];
  }
}
