# Arbitrary-precision decimal integers, verified

This project models the arbitrary-precision signed integer engine of
`Integer.hh` in Dafny and proves it correct against Dafny's unbounded
`int`.

An `Integer` is a value: a sequence of decimal digits, least significant
first, plus a `negative` flag. Its canonical form is:

- at least one digit, each in 0..9;
- no high zero digit unless the number is `[0]`;
- no negative zero.

The value type is the datatype `Integers.Integer`. `ToInt()` gives the
number it denotes and `Valid()` is the canonical form.

The source operations that work by loops are methods with those loops and
their invariants. This covers the digit-vector operations
(`removeLeadingZeros`, `compareAbsolute`, `addAbsolute`,
`subtractAbsolute`), both constructors, `toString`, `*`,
`divideWithRemainder`, `power`, `factorial`, `gcd` and `isPrime`. Each
method is proved against `ToInt()`. So are the methods that call them
(the comparisons, `+`, `-`, `/`, `%`, `lcm`). The loop-free members
(`isZero`, `isNegative`, unary `-`, `absolute`, `==`, `!=`) are functions.

Each operation has a reference definition to be proved against:

- digit-sequence values (`Digits.Value`);
- the value a decimal text denotes (`DecimalText.SignedDecimal`);
- the digits of a text and the text of some digits (`DecimalText.DigitsOf`,
  `DecimalText.Render`), which are proved inverse to each other;
- truncated division (`DivisionOps.TruncDiv`, `DivisionOps.TruncMod`);
- powers, factorials, Euclid's gcd, divisibility and primality
  (`NumberTheory.Pow`, `Fact`, `GcdOf`, `Divides`, `Prime`).

Each `throw` of the source is a `Failure` of a `Result` with one of four
error tags:

- `InvalidCharacter` for `std::invalid_argument`;
- `DivisionByZero`;
- `NegativeArgument` for a negative exponent or factorial argument;
- `TooLarge` for the magnitude guards.

Files and modules:

| file | module | contents |
|---|---|---|
| digits.dfy | Digits | digit sequences, `Value`, `Pow10`, trimmed sequences |
| text.dfy | DecimalText | digit characters, decimal text, `DigitsOf`, `Render` |
| integers.dfy | Integers | the `Integer` value, canonicalisation, comparison, `+`, `-`, `*`, both constructors, `toString` |
| division.dfy | DivisionOps | truncated division, the quotient-digit binary search, `divideWithRemainder`, `/`, `%` |
| numbertheory.dfy | NumberTheory | `power`, `factorial`, `gcd`, `lcm`, `isPrime` |
| laws.dfy | Laws | text round trips and the algebraic laws of `+` and `*` |

The text constructor accepts the empty text and a lone sign and gives zero
for them (Integer.hh:84-87, 103-104). `Integers.FromString` does the same:
it succeeds on `""`, `"-"` and `"+"`, with value 0.

## Model

| member | source | states |
|---|---|---|
| Integers.Zero | Integer.hh:67 | the default-constructed Integer `[0]` is canonical and denotes 0 |
| Integers.ZeroIff | Integer.hh:117 | for a canonical Integer, isZero holds exactly when the value is 0 |
| Integers.NegativeIff | Integer.hh:118 | for a canonical Integer, isNegative holds exactly when the value is below 0 |
| Integers.CanonicalUnique | Integer.hh:133-135 | two canonical Integers with the same value are the same representation, so digit-wise `==` is value equality |
| Integers.SameIffEqualValue | Integer.hh:133-135 | for canonical Integers, equal sign and equal digits hold exactly when the values are equal |
| Integers.RemoveLeadingZeros | Integer.hh:13-18 | the result is canonical with the same value; it is a non-empty prefix of the input digits; it is negative only if the input was and the result is not `[0]`; an already trimmed input keeps its digits |
| Integers.CompareAbsolute | Integer.hh:20-28 | returns -1, 0 or 1 exactly as the first magnitude is below, equal to or above the second |
| Digits.CompareAt | Integer.hh:23-26 | with equal length and equal higher digits, a smaller digit at position i gives a smaller magnitude |
| Digits.ShorterIsSmaller | Integer.hh:21-22 | a trimmed sequence with fewer digits has a smaller magnitude |
| Digits.TrimmedUnique | Integer.hh:13-18 | trimmed digit sequences with equal values are equal |
| Digits.ValueBounds | Integer.hh:10 | n decimal digits denote a number in [0, 10^n) |
| Integers.AddStep | Integer.hh:36-42 | one carry step keeps the carry invariant: the low digits plus carry * 10^index equal the two low parts summed |
| Integers.AddFinalCarry | Integer.hh:35-43 | after the last position the carry is 0 and the buffer holds the sum of the magnitudes |
| Integers.AddAbsolute | Integer.hh:30-46 | canonical, non-negative, value equal to the sum of the magnitudes; the loop keeps the carry in {0,1} |
| Integers.SubtractStep | Integer.hh:53-60 | one borrow step keeps the borrow invariant: the low digits equal the low part of a minus that of b plus borrow * 10^index |
| Integers.SubtractFinalBorrow | Integer.hh:52-61 | for a >= b, after the last position the borrow is 0 and the buffer holds a - b |
| Integers.SubtractAbsolute | Integer.hh:48-64 | for a first magnitude at least the second, canonical, non-negative, value equal to the difference; the loop keeps the borrow in {0,1} |
| Integers.LowDigitStep | Integer.hh:77-80 | pushing absolute % 10 and dividing by 10 keeps the digits pushed plus 10^k times what is left equal to the original value |
| Integers.FromLongLong | Integer.hh:69-81 | the native constructor gives a canonical Integer denoting the given value, with 0 as `[0]` |
| DecimalText.DigitsOf | Integer.hh:97-102 | the digits pushed while the text is walked from its end: one per character, the first character last, all in 0..9 for digit text |
| DecimalText.ValueOfDigits | Integer.hh:97-102 | the digits read from a text denote the number the text denotes |
| DecimalText.Render | Integer.hh:112-113 | the characters appended from the top digit down: one per digit, all digit characters |
| DecimalText.DecimalOfRender | Integer.hh:112-113 | the rendered text denotes the number the digits denote |
| DecimalText.DigitsOfRender | Integer.hh:97-102 | reading back a rendered digit sequence gives the sequence |
| DecimalText.RenderDigitsOf | Integer.hh:112-113 | rendering the digits read from a digit text gives the text |
| DecimalText.RenderFirst | Integer.hh:112-113 | the first rendered character is the most significant digit |
| DecimalText.AllDigitCharsCons | Integer.hh:99-100 | a text is all digits exactly when its first character is a digit and the rest is all digits |
| Integers.SkipLeadingZeros | Integer.hh:95-96 | skips zeros but never the last character; the value the rest denotes is unchanged, and so is whether it is all digits |
| Integers.SkipZero | Integer.hh:95-96 | dropping one leading '0' changes neither the value denoted nor whether the text is all digits |
| Integers.ReadDigits | Integer.hh:97-102 | fails with InvalidCharacter exactly when a non-digit appears, otherwise returns the digits of the text, least significant first |
| Integers.ParseStep | Integer.hh:98-101 | reading one more digit character from the end extends the digit sequence by its value |
| Integers.ParseResult | Integer.hh:83-105 | after sign, zero skip and digit loop, the digits (or `[0]` if none) with the sign denote the signed decimal value; on canonical text they are exactly the text's digits |
| Integers.FromString | Integer.hh:83-106 | fails with InvalidCharacter exactly when something after the optional sign is not a digit; otherwise canonical and equal to the signed decimal reading of the text, so `""`, `"-"` and `"+"` give 0; on canonical text the sign and digits are the text's |
| Integers.RenderedCanonical | Integer.hh:108-115 | the rendering of a canonical Integer is canonical text denoting its value |
| Integers.ToString | Integer.hh:108-115 | returns '-' for a negative value followed by the digits from the most significant down; the text is canonical and denotes the value |
| Integers.Negate | Integer.hh:120-125 | canonical, denoting the negated value, so zero is left non-negative |
| Integers.Absolute | Integer.hh:127-131 | canonical, denoting the absolute value |
| Integers.Equal | Integer.hh:133-135 | true exactly when the values are equal |
| Integers.NotEqual | Integer.hh:136 | true exactly when the values differ |
| Integers.Less | Integer.hh:137-142 | true exactly when the first value is below the second, the total order on values |
| Integers.Greater | Integer.hh:143 | true exactly when the first value is above the second |
| Integers.LessOrEqual | Integer.hh:144 | true exactly when the first value is at most the second |
| Integers.GreaterOrEqual | Integer.hh:145 | true exactly when the first value is at least the second |
| Integers.Add | Integer.hh:147-167 | canonical and equal to the sum, so equal magnitudes with opposite signs give exactly `[0]` |
| Integers.Subtract | Integer.hh:169 | canonical and equal to the difference |
| Integers.DigitProduct | Integer.hh:177-181 | a digit product is at most 81 |
| Integers.MultiplyStep | Integer.hh:176-184 | one inner step keeps the row invariant: buffer plus pending carry equals the earlier rows plus a[i] times the low j digits of b |
| Integers.RowStart | Integer.hh:175 | a row starts with carry 0 from a buffer holding the earlier rows' product |
| Integers.RowEnd | Integer.hh:176-184 | at the end of row i the buffer holds the low i+1 digits of a times b |
| Integers.RowBound | Integer.hh:173 | the partial product after row i fits in i + |b| + 1 digits |
| Integers.RowCarryEnds | Integer.hh:176 | one position past b the carry is 0, so every write stays in the |a| + |b| buffer and the inner loop ends |
| Integers.SignedProduct | Integer.hh:186 | the product of the signed values has the XOR sign of the magnitudes' product |
| Integers.Multiply | Integer.hh:171-189 | canonical and equal to the product; negative exactly when the signs differ and the product is not zero; carries stay in 0..9 |
| DivisionOps.TruncDivMod | Integer.hh:236-242 | dividend == quotient * divisor + remainder, with the remainder smaller than the divisor in magnitude and, if non-zero, of the dividend's sign |
| DivisionOps.TruncQuotientSign | Integer.hh:236 | the quotient is 0 exactly when the dividend is smaller in magnitude, and otherwise negative exactly when the signs differ |
| DivisionOps.TruncUnique | Integer.hh:209-210 | any pair meeting those properties is the truncated quotient and remainder |
| DivisionOps.DivModUnique | Integer.hh:214-234 | the Euclidean quotient and remainder of naturals are unique |
| DivisionOps.QuotientDigit | Integer.hh:221-231 | the binary search returns the largest d in 0..9 with divisor * d <= remainder |
| DivisionOps.BringDown | Integer.hh:217-219 | prepending a dividend digit gives a canonical remainder worth digit + 10 * remainder |
| DivisionOps.RemainderBound | Integer.hh:232-233 | subtracting divisor * d leaves a remainder in [0, divisor) |
| DivisionOps.DivisionStep | Integer.hh:214-234 | one long-division step keeps: the high digits of the dividend equal the quotient digits so far times the divisor plus the remainder |
| DivisionOps.LongDivision | Integer.hh:212-235 | one quotient digit per dividend digit from the top; the dividend magnitude equals quotient * divisor + remainder, with the remainder canonical and in [0, divisor) |
| DivisionOps.DivisionResult | Integer.hh:236-241 | the sign assignment turns the magnitude division into truncated division |
| DivisionOps.DivideWithRemainder | Integer.hh:202-242 | fails with DivisionByZero exactly on a zero divisor; otherwise canonical quotient and remainder of truncated division, and exactly (0, dividend) when the dividend is smaller in magnitude |
| DivisionOps.Divide | Integer.hh:193-195 | fails exactly on a zero divisor; otherwise the truncated quotient |
| DivisionOps.Modulo | Integer.hh:196-198 | fails exactly on a zero divisor; otherwise the remainder with the dividend's sign |
| NumberTheory.PowAdd | Integer.hh:256-261 | b^(m+n) = b^m * b^n |
| NumberTheory.PowSquare | Integer.hh:259 | (b*b)^k = b^(2k) |
| NumberTheory.PowHalf | Integer.hh:256-261 | b^e = (b if e is odd else 1) * (b*b)^(e/2) |
| NumberTheory.PowerStep | Integer.hh:256-261 | one square-and-multiply step keeps result * current^e unchanged |
| NumberTheory.DigitCount | Integer.hh:250 | a non-negative Integer has more than k digits exactly when it is at least 10^k |
| NumberTheory.Pow10Values | Integer.hh:250 | 10^5, 10^7 and 10^12, the digit-count guards as numbers |
| NumberTheory.Power | Integer.hh:244-263 | fails with NegativeArgument on a negative exponent and with TooLarge on one above 10000, and exactly then; otherwise base^exponent, so 1 for exponent 0 |
| NumberTheory.FactStep | Integer.hh:276-277 | multiplying (i-1)! by i gives i! |
| NumberTheory.MultiplyUpTo | Integer.hh:275-277 | the product 2 * ... * value is value! (1 for 0 and 1) |
| NumberTheory.Factorial | Integer.hh:265-278 | fails with NegativeArgument on a negative argument and with TooLarge on one above 10000, and exactly then; otherwise n! |
| NumberTheory.GcdDivides | Integer.hh:280-288 | Euclid's result divides both arguments |
| NumberTheory.GcdGreatest | Integer.hh:280-288 | every positive common divisor divides Euclid's result |
| NumberTheory.GcdPositive | Integer.hh:280-288 | the gcd is 0 only when both arguments are 0 |
| NumberTheory.EuclidStep | Integer.hh:283-285 | a divisor of y and of x % y divides x |
| NumberTheory.Gcd | Integer.hh:280-288 | canonical and equal to Euclid's gcd of the absolute values, so gcd(a, 0) = abs(a) |
| NumberTheory.LcmArith | Integer.hh:293 | for positive x, y, x / gcd * y is a positive common multiple whose product with the gcd is x * y |
| NumberTheory.ModScale | Integer.hh:293 | scaling both operands of % by t > 0 scales the remainder by t |
| NumberTheory.GcdScale | Integer.hh:280-288 | Euclid's gcd commutes with scaling: gcd(a*t, b*t) = t * gcd(a, b) |
| NumberTheory.ReducedCoprime | Integer.hh:293 | dividing two positive numbers by their gcd leaves parts whose gcd is 1 |
| NumberTheory.CoprimeDivides | Integer.hh:293 | if a is coprime to b and a * s = b * t, then a divides t |
| NumberTheory.LcmLeast | Integer.hh:293 | every common multiple of positive x and y is a multiple of x / gcd * y |
| NumberTheory.Lcm | Integer.hh:290-294 | 0 if either argument is 0, otherwise positive; a common multiple of both absolute values that divides every other non-negative common multiple; times the gcd it is their product |
| NumberTheory.EvenNotDivisor | Integer.hh:301-302 | an even number does not divide an odd one, so trial division may skip even divisors |
| NumberTheory.OddStep | Integer.hh:307-309 | stepping the trial divisor by 2 keeps all divisors below it excluded |
| NumberTheory.NoLargeDivisor | Integer.hh:307-310 | once i * i exceeds n with no divisor below i, n is prime |
| NumberTheory.IsPrime | Integer.hh:296-311 | fails with TooLarge exactly for odd numbers of at least 10^12; otherwise true exactly when the number is prime, false below 2, true for 2 and 3, false for other even numbers |
| Laws.RenderedDigits | Integer.hh:108-115 | a rendering starts with '-' exactly for negative values, and its digits read back are the Integer's digits |
| Laws.ParsedRenders | Integer.hh:83-115 | a canonical text is the rendering of the Integer its sign and digits describe |
| Laws.RenderThenParse | Integer.hh:83-115 | the text constructor applied to toString gives back the same Integer |
| Laws.ParseThenRender | Integer.hh:83-115 | toString of the text constructor's result reproduces every canonical text |
| Laws.NegateZero | Integer.hh:120-125 | unary minus leaves zero unchanged |
| Laws.AddNegation | Integer.hh:147-169 | a + (-a) is the canonical zero |
| Laws.SubtractIsAddNegation | Integer.hh:169 | a - b and a + (-b) are the same Integer |
| Laws.AddCommutative | Integer.hh:147-167 | a + b and b + a are the same Integer |
| Laws.MultiplyCommutative | Integer.hh:171-189 | a * b and b * a are the same Integer |

## Left out

- The `long long` width of the native constructor is not modelled. `Integers.FromLongLong` takes an unbounded `int`, so the special handling of the most negative value (Integer.hh:70-72) has nothing to do.
- `std::stoll` in `power`, `factorial` and `isPrime` is not modelled as a library call. It stands for the value the guarded decimal text denotes (`DecimalText.SignedDecimal`), which the digit-count guards keep in range.
- NumberTheory.IsPrime: the trial-division loop runs on unbounded integers. The 64-bit width of `i * i` and `value` is not modelled, and the 12-digit guard keeps it in range.
- Int width in the digit loops: carries, borrows and digit products are unbounded integers. The invariants bound them by 1, 1 and 81 plus a carry of 9.
- Exceptions are `Failure` results, not unwinding. The message strings of the exceptions are not modelled.
- Comparisons, `+`, `-`, `/`, `%` and `lcm` are methods, not functions, because they call the loops of `compareAbsolute`, `addAbsolute`, `subtractAbsolute`, `*` and `divideWithRemainder`.
- Some source loops are in helper methods of their own: the zero skip and the digit loop of the text constructor (`Integers.SkipLeadingZeros`, `Integers.ReadDigits`), the main loop of `divideWithRemainder` (`DivisionOps.LongDivision`), its bring-down step (`DivisionOps.BringDown`) and binary search (`DivisionOps.QuotientDigit`), and the product loop of `factorial` (`NumberTheory.MultiplyUpTo`). The digit buffers that the source mutates in place are local sequences that the loops reassign.
- Running time and the reason for the magnitude caps are not modelled. The caps are modelled as exact error conditions.
- The Qt user interface (`MainWindow.cc`, `MainWindow.hh`) is not part of this model: dialogs, clipboard, history list and input clean-up.
