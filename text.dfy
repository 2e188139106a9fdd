/** Decimal text: digit characters, the value a digit string denotes, and the
    two conversions between digit strings (most significant first) and digit
    sequences (least significant first) that the text constructor and
    toString of Integer.hh perform. */
module DecimalText {
  import opened Digits

  predicate IsDigitChar(c: char) {
    '0' <= c <= '9'
  }

  predicate AllDigitChars(s: string) {
    forall i :: 0 <= i < |s| ==> IsDigitChar(s[i])
  }

  /** The digit a character stands for (meaningful for '0'..'9'). */
  function CharValue(c: char): int {
    c as int - '0' as int
  }

  function DigitChar(d: int): (c: char)
    requires 0 <= d <= 9
    ensures IsDigitChar(c) && CharValue(c) == d
  {
    ('0' as int + d) as char
  }

  lemma CharRoundTrip(c: char)
    requires IsDigitChar(c)
    ensures 0 <= CharValue(c) <= 9 && DigitChar(CharValue(c)) == c
  {
  }

  /** 1 when the text starts with a sign character, else 0. */
  function SignLength(text: string): (n: nat)
    ensures n <= 1 && (n == 1 <==> |text| > 0 && (text[0] == '-' || text[0] == '+'))
  {
    if |text| > 0 && (text[0] == '-' || text[0] == '+') then 1 else 0
  }

  lemma AllDigitCharsCons(c: char, t: string)
    ensures AllDigitChars([c] + t) <==> IsDigitChar(c) && AllDigitChars(t)
  {
    if IsDigitChar(c) && AllDigitChars(t) {
      forall i | 0 <= i < |[c] + t|
        ensures IsDigitChar(([c] + t)[i])
      {
        if i > 0 {
          assert ([c] + t)[i] == t[i - 1];
        }
      }
    }
    if AllDigitChars([c] + t) {
      assert ([c] + t)[0] == c;
      forall i | 0 <= i < |t|
        ensures IsDigitChar(t[i])
      {
        assert ([c] + t)[i + 1] == t[i];
      }
    }
  }

  /** The number a string of digit characters denotes, most significant first. */
  function DecimalValue(s: string): int {
    if s == [] then 0 else CharValue(s[0]) * Pow10(|s| - 1) + DecimalValue(s[1..])
  }

  /** The signed reading of a text: an optional sign, then digits. */
  function SignedDecimal(text: string): int {
    var v := DecimalValue(text[SignLength(text)..]);
    if |text| > 0 && text[0] == '-' then -v else v
  }

  /** The texts toString produces: an optional '-', then digits without a
      redundant leading zero, and never "-0". */
  predicate CanonicalText(text: string) {
    && |text| >= 1
    && text[0] != '+'
    && var body := text[SignLength(text)..];
       && |body| >= 1
       && AllDigitChars(body)
       && (|body| > 1 ==> body[0] != '0')
       && (body == "0" ==> text == "0")
  }

  /** The digits of a digit string, least significant first: what the text
      constructor pushes while it walks the string from its end. */
  function DigitsOf(s: string): (ds: seq<int>)
    ensures |ds| == |s|
    ensures |s| > 0 ==> ds[|s| - 1] == CharValue(s[0])
    ensures AllDigitChars(s) ==> IsDigits(ds)
  {
    if s == [] then [] else DigitsOf(s[1..]) + [CharValue(s[0])]
  }

  /** The digit string of a digit sequence, most significant first: what
      toString appends while it walks the digits from the top. */
  function Render(ds: seq<int>): (s: string)
    requires IsDigits(ds)
    ensures |s| == |ds| && AllDigitChars(s)
  {
    if ds == [] then "" else Render(ds[1..]) + [DigitChar(ds[0])]
  }

  // ---------------------------------------------------------------------------
  // Lemmas

  lemma {:induction false} DecimalAppend(s: string, c: char)
    ensures DecimalValue(s + [c]) == 10 * DecimalValue(s) + CharValue(c)
  {
    if s == [] {
      assert [] + [c] == [c];
      assert [c][1..] == [];
    } else {
      assert (s + [c])[1..] == s[1..] + [c];
      DecimalAppend(s[1..], c);
      Shift10(CharValue(s[0]), Pow10(|s| - 1));
    }
  }

  /** The digits of a string denote the number the string denotes. */
  lemma {:induction false} ValueOfDigits(s: string)
    ensures Value(DigitsOf(s)) == DecimalValue(s)
  {
    if s != [] {
      ValueOfDigits(s[1..]);
      ValueAppend(DigitsOf(s[1..]), CharValue(s[0]));
    }
  }

  /** The rendered string denotes the number the digits denote. */
  lemma {:induction false} DecimalOfRender(ds: seq<int>)
    requires IsDigits(ds)
    ensures DecimalValue(Render(ds)) == Value(ds)
  {
    if ds != [] {
      assert IsDigits(ds[1..]);
      DecimalOfRender(ds[1..]);
      DecimalAppend(Render(ds[1..]), DigitChar(ds[0]));
    }
  }

  /** Rendering a sequence with one more high digit puts its character in front. */
  lemma {:induction false} RenderAppend(ds: seq<int>, d: int)
    requires IsDigits(ds) && 0 <= d <= 9
    ensures IsDigits(ds + [d]) && Render(ds + [d]) == [DigitChar(d)] + Render(ds)
  {
    if ds == [] {
      assert [] + [d] == [d];
      assert [d][1..] == [];
    } else {
      assert (ds + [d])[1..] == ds[1..] + [d];
      assert IsDigits(ds[1..]);
      RenderAppend(ds[1..], d);
    }
  }

  /** The digits of a string with one more character at its end. */
  lemma {:induction false} DigitsOfAppend(s: string, c: char)
    ensures DigitsOf(s + [c]) == [CharValue(c)] + DigitsOf(s)
  {
    if s == [] {
      assert [] + [c] == [c];
      assert [c][1..] == [];
    } else {
      assert (s + [c])[1..] == s[1..] + [c];
      DigitsOfAppend(s[1..], c);
    }
  }

  /** Reading back a rendered sequence gives the sequence. */
  lemma {:induction false} DigitsOfRender(ds: seq<int>)
    requires IsDigits(ds)
    ensures DigitsOf(Render(ds)) == ds
  {
    if ds != [] {
      assert IsDigits(ds[1..]);
      DigitsOfRender(ds[1..]);
      DigitsOfAppend(Render(ds[1..]), DigitChar(ds[0]));
      assert ds == [ds[0]] + ds[1..];
    }
  }

  /** Rendering the digits of a digit string gives the string. */
  lemma {:induction false} RenderDigitsOf(s: string)
    requires AllDigitChars(s)
    ensures Render(DigitsOf(s)) == s
  {
    if s != [] {
      assert AllDigitChars(s[1..]);
      RenderDigitsOf(s[1..]);
      CharRoundTrip(s[0]);
      RenderAppend(DigitsOf(s[1..]), CharValue(s[0]));
      assert s == [s[0]] + s[1..];
    }
  }

  /** Rendering from position k: the digit at k comes after the higher ones. */
  lemma RenderDrop(ds: seq<int>, k: nat)
    requires IsDigits(ds) && k < |ds|
    ensures IsDigits(ds[k..]) && IsDigits(ds[k + 1..])
    ensures Render(ds[k..]) == Render(ds[k + 1..]) + [DigitChar(ds[k])]
  {
    assert ds[k..][1..] == ds[k + 1..];
    assert IsDigits(ds[k..]);
  }

  /** The first character of a rendering is the most significant digit. */
  lemma {:induction false} RenderFirst(ds: seq<int>)
    requires IsDigits(ds) && |ds| >= 1
    ensures Render(ds)[0] == DigitChar(ds[|ds| - 1])
  {
    var rest := ds[1..];
    assert IsDigits(rest);
    if |ds| > 1 {
      RenderFirst(rest);
      assert rest[|rest| - 1] == ds[|ds| - 1];
    }
  }
}
