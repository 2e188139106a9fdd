/** Magnitudes as sequences of decimal digits, least-significant digit first,
    and the facts about their numeric value that the digit loops rely on. */
module Digits {

  /** Every element is a decimal digit. */
  predicate IsDigits(s: seq<int>) {
    forall i :: 0 <= i < |s| ==> 0 <= s[i] <= 9
  }

  /** A magnitude without redundant high zeros: non-empty, all digits, and the
      most significant (last) digit is non-zero unless the sequence is a single digit. */
  predicate IsTrimmed(s: seq<int>) {
    |s| >= 1 && IsDigits(s) && (|s| == 1 || s[|s| - 1] != 0)
  }

  function Pow10(n: nat): (p: nat)
    ensures p >= 1
  {
    if n == 0 then 1 else 10 * Pow10(n - 1)
  }

  /** The number a least-significant-first digit sequence denotes. */
  function Value(s: seq<int>): int {
    if s == [] then 0 else s[0] + 10 * Value(s[1..])
  }

  /** The digit at position i, reading missing positions as 0. */
  function DigitAt(s: seq<int>, i: nat): int {
    if i < |s| then s[i] else 0
  }

  /** The lowest n digits (all of s when it is shorter). */
  function Take(s: seq<int>, n: nat): seq<int> {
    if n <= |s| then s[..n] else s
  }

  // ---------------------------------------------------------------------------
  // Arithmetic helpers

  lemma Distribute(p: int, x: int, y: int)
    ensures p * (x + y) == p * x + p * y
  {
  }

  lemma Shift10(p: int, q: int)
    ensures p * (10 * q) == (10 * p) * q
  {
  }

  lemma MulMonotone(p: int, a: int, b: int)
    requires p >= 0 && a <= b
    ensures p * a <= p * b
  {
    assert p * b - p * a == p * (b - a);
  }

  lemma MulStrict(x: int, p: int, y: int, q: int)
    requires 0 <= x < p && 0 <= y < q
    ensures x * y < p * q
  {
    MulMonotone(y, x, p);
    MulMonotone(p, y, q - 1);
    assert p * (q - 1) == p * q - p;
  }

  /** A non-negative multiple c * p of p >= 1 that stays below p has c == 0. */
  lemma SmallFactor(c: int, p: int, x: int)
    requires p >= 1 && c >= 0 && x == c * p && x < p
    ensures c == 0
  {
  }

  lemma Pow10Add(a: nat, b: nat)
    ensures Pow10(a + b) == Pow10(a) * Pow10(b)
    decreases a
  {
    if a > 0 {
      Pow10Add(a - 1, b);
      assert Pow10(a + b) == 10 * Pow10(a - 1 + b);
    }
  }

  lemma Pow10Monotone(a: nat, b: nat)
    requires a <= b
    ensures Pow10(a) <= Pow10(b)
    decreases b - a
  {
    if a < b {
      Pow10Monotone(a, b - 1);
    }
  }

  // ---------------------------------------------------------------------------
  // Value of digit sequences

  /** A digit sequence of length n denotes a number in [0, 10^n). */
  lemma {:induction false} ValueBounds(s: seq<int>)
    requires IsDigits(s)
    ensures 0 <= Value(s) < Pow10(|s|)
  {
    if s != [] {
      assert IsDigits(s[1..]) by {
        forall i | 0 <= i < |s[1..]| ensures 0 <= s[1..][i] <= 9 {
          assert s[1..][i] == s[i + 1];
        }
      }
      ValueBounds(s[1..]);
    }
  }

  /** Appending a high digit d adds d * 10^|s|. */
  lemma {:induction false} ValueAppend(s: seq<int>, d: int)
    ensures Value(s + [d]) == Value(s) + d * Pow10(|s|)
  {
    if s == [] {
      assert [] + [d] == [d];
      assert [d][1..] == [];
    } else {
      assert (s + [d])[1..] == s[1..] + [d];
      ValueAppend(s[1..], d);
      assert 10 * (d * Pow10(|s| - 1)) == d * Pow10(|s|);
    }
  }

  lemma ValuePrefix(s: seq<int>, i: nat)
    requires i < |s|
    ensures Value(s[..i + 1]) == Value(s[..i]) + s[i] * Pow10(i)
  {
    assert s[..i + 1] == s[..i] + [s[i]];
    ValueAppend(s[..i], s[i]);
  }

  lemma TakeStep(s: seq<int>, i: nat)
    ensures Value(Take(s, i + 1)) == Value(Take(s, i)) + DigitAt(s, i) * Pow10(i)
  {
    if i < |s| {
      ValuePrefix(s, i);
    } else {
      assert s[..|s|] == s;
    }
  }

  /** Splitting at position k: the low k digits plus 10^k times the rest. */
  lemma {:induction false} ValueSplit(s: seq<int>, k: nat)
    requires k <= |s|
    ensures Value(s) == Value(s[..k]) + Pow10(k) * Value(s[k..])
  {
    if k == 0 {
      assert s[..0] == [];
      assert s[0..] == s;
    } else {
      ValueSplit(s[1..], k - 1);
      assert s[1..][..k - 1] == s[..k][1..];
      assert s[1..][k - 1..] == s[k..];
      assert 10 * (Pow10(k - 1) * Value(s[k..])) == Pow10(k) * Value(s[k..]);
    }
  }

  /** Overwriting the digit at position k changes the value by the difference times 10^k. */
  lemma {:induction false} ValueUpdate(s: seq<int>, k: nat, v: int)
    requires k < |s|
    ensures Value(s[k := v]) == Value(s) + (v - s[k]) * Pow10(k)
  {
    if k == 0 {
      assert s[0 := v][1..] == s[1..];
    } else {
      assert s[k := v][1..] == s[1..][k - 1 := v];
      ValueUpdate(s[1..], k - 1, v);
      assert 10 * ((v - s[k]) * Pow10(k - 1)) == (v - s[k]) * Pow10(k);
    }
  }

  lemma ValueSingle(d: int)
    ensures Value([d]) == d
  {
    assert [d][1..] == [];
  }

  /** A buffer of n zero digits, as a freshly resized digit vector. */
  function Zeros(n: nat): (z: seq<int>)
    ensures |z| == n && IsDigits(z) && Value(z) == 0
  {
    if n == 0 then [] else [0] + Zeros(n - 1)
  }

  /** Value of a sequence with one more digit at the bottom. */
  lemma ValueCons(d: int, s: seq<int>)
    ensures Value([d] + s) == d + 10 * Value(s)
  {
    assert ([d] + s)[1..] == s;
  }

  lemma ValueDrop(s: seq<int>, k: nat)
    requires k < |s|
    ensures Value(s[k..]) == s[k] + 10 * Value(s[k + 1..])
  {
    assert s[k..][1..] == s[k + 1..];
  }

  // ---------------------------------------------------------------------------
  // Trimmed sequences

  /** A trimmed sequence of n >= 2 digits denotes at least 10^(n-1). */
  lemma TrimmedLowerBound(s: seq<int>)
    requires IsTrimmed(s) && |s| >= 2
    ensures Value(s) >= Pow10(|s| - 1)
  {
    var n := |s|;
    ValueSplit(s, n - 1);
    ValueBounds(s[..n - 1]);
    assert s[n - 1..] == [s[n - 1]];
    assert Value([s[n - 1]]) == s[n - 1] by {
      assert [s[n - 1]][1..] == [];
    }
    MulMonotone(Pow10(n - 1), 1, s[n - 1]);
  }

  /** Only [0] denotes zero among trimmed sequences. */
  lemma TrimmedPositive(s: seq<int>)
    requires IsTrimmed(s) && s != [0]
    ensures Value(s) > 0
  {
    if |s| >= 2 {
      TrimmedLowerBound(s);
    } else {
      assert s == [s[0]];
      assert s[1..] == [];
    }
  }

  /** A trimmed sequence with fewer digits denotes a smaller number. */
  lemma ShorterIsSmaller(s: seq<int>, t: seq<int>)
    requires IsTrimmed(s) && IsTrimmed(t) && |s| < |t|
    ensures Value(s) < Value(t)
  {
    ValueBounds(s);
    Pow10Monotone(|s|, |t| - 1);
    TrimmedLowerBound(t);
  }

  lemma DigitSplit(a: int, x: int, b: int, y: int)
    requires 0 <= a <= 9 && 0 <= b <= 9 && a + 10 * x == b + 10 * y
    ensures a == b && x == y
  {
  }

  /** Trimmed sequences are a unique representation: equal values mean equal sequences. */
  lemma {:induction false} TrimmedUnique(s: seq<int>, t: seq<int>)
    requires IsTrimmed(s) && IsTrimmed(t) && Value(s) == Value(t)
    ensures s == t
  {
    if |s| < |t| {
      ShorterIsSmaller(s, t);
      assert false;
    } else if |t| < |s| {
      ShorterIsSmaller(t, s);
      assert false;
    } else if |s| == 1 {
      assert s[1..] == [] && t[1..] == [];
      assert s == [s[0]] && t == [t[0]];
    } else {
      ValueBounds(s[1..]);
      DigitSplit(s[0], Value(s[1..]), t[0], Value(t[1..]));
      assert s[1..][|s| - 2] == s[|s| - 1];
      assert t[1..][|t| - 2] == t[|t| - 1];
      TrimmedUnique(s[1..], t[1..]);
      assert s == [s[0]] + s[1..];
      assert t == [t[0]] + t[1..];
    }
  }

  lemma ShiftedLess(ls: int, lt: int, p: int, x: int, y: int)
    requires 0 <= ls < p && 0 <= lt && x < y
    ensures ls + p * x < lt + p * y
  {
    MulMonotone(p, x + 1, y);
    Distribute(p, x, 1);
  }

  /** Equal high parts and a smaller digit at position i give a smaller value. */
  lemma CompareAt(s: seq<int>, t: seq<int>, i: nat)
    requires IsDigits(s) && IsDigits(t) && |s| == |t| && i < |s|
    requires s[i + 1..] == t[i + 1..] && s[i] < t[i]
    ensures Value(s) < Value(t)
  {
    ValueSplit(s, i);
    ValueSplit(t, i);
    assert IsDigits(s[..i]);
    assert IsDigits(t[..i]);
    ValueBounds(s[..i]);
    ValueBounds(t[..i]);
    ValueDrop(s, i);
    ValueDrop(t, i);
    ShiftedLess(Value(s[..i]), Value(t[..i]), Pow10(i), Value(s[i..]), Value(t[i..]));
  }
}
