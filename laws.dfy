/** Laws that relate several operations of Integer.hh: the text round trips
    between the string constructor and toString, and the algebra of + and *. */
module Laws {
  import opened Digits
  import opened DecimalText
  import opened Integers

  /** The rendering of a canonical Integer has its sign as its first character
      and its digits, read back, after the sign. */
  lemma RenderedDigits(x: Integer)
    requires x.Valid()
    ensures |Rendered(x)| >= 1 && ((Rendered(x)[0] == '-') <==> x.negative)
    ensures DigitsOf(Rendered(x)[SignLength(Rendered(x))..]) == x.digits
  {
    var s := Rendered(x);
    var body := Render(x.digits);
    RenderFirst(x.digits);
    CharRoundTrip(body[0]);
    DigitsOfRender(x.digits);
    if x.negative {
      assert s == "-" + body && s[1..] == body;
    } else {
      assert s == body && s[0..] == body;
    }
  }

  /** A canonical text is the rendering of the Integer its sign and digits describe. */
  lemma ParsedRenders(text: string)
    requires CanonicalText(text)
    ensures IsDigits(DigitsOf(text[SignLength(text)..]))
    ensures Rendered(Integer(DigitsOf(text[SignLength(text)..]), text[0] == '-')) == text
  {
    var body := text[SignLength(text)..];
    RenderDigitsOf(body);
    if text[0] == '-' {
      assert text == "-" + body;
    } else {
      assert body == text;
    }
  }

  /** toString, then the string constructor, gives back the same Integer. */
  method RenderThenParse(x: Integer) returns (r: Result<Integer>)
    requires x.Valid()
    ensures r == Success(x)
  {
    var s := ToString(x);
    RenderedCanonical(x);
    RenderedDigits(x);
    r := FromString(s);
  }

  /** The string constructor, then toString, reproduces every canonical text:
      no sign but '-', no redundant leading zero, and not "-0". */
  method ParseThenRender(text: string) returns (s: string)
    requires CanonicalText(text)
    ensures s == text
  {
    var r := FromString(text);
    ParsedRenders(text);
    s := ToString(r.value);
  }

  /** Unary minus leaves zero unchanged. */
  lemma NegateZero(x: Integer)
    requires x.Valid() && x.IsZero()
    ensures Negate(x) == x
  {
    CanonicalUnique(Negate(x), x);
  }

  /** a + (-a) is the canonical zero. */
  method AddNegation(a: Integer) returns (s: Integer)
    requires a.Valid()
    ensures s == Zero()
  {
    s := Add(a, Negate(a));
    CanonicalUnique(s, Zero());
  }

  /** a - b and a + (-b) give the same Integer. */
  method SubtractIsAddNegation(a: Integer, b: Integer) returns (difference: Integer, sum: Integer)
    requires a.Valid() && b.Valid()
    ensures difference == sum
  {
    difference := Subtract(a, b);
    sum := Add(a, Negate(b));
    CanonicalUnique(difference, sum);
  }

  /** + is commutative on the canonical representation itself. */
  method AddCommutative(a: Integer, b: Integer) returns (ab: Integer, ba: Integer)
    requires a.Valid() && b.Valid()
    ensures ab == ba
  {
    ab := Add(a, b);
    ba := Add(b, a);
    CanonicalUnique(ab, ba);
  }

  /** * is commutative on the canonical representation itself. */
  method MultiplyCommutative(a: Integer, b: Integer) returns (ab: Integer, ba: Integer)
    requires a.Valid() && b.Valid()
    ensures ab == ba
  {
    ab := Multiply(a, b);
    ba := Multiply(b, a);
    CanonicalUnique(ab, ba);
  }
}
