/** Python's `float(text)` for decimal literals: optional surrounding
    whitespace, an optional sign, digits with at most one decimal point, and
    an optional exponent `e`/`E` with its own optional sign. */
module FloatText {
  import opened Wrappers
  import Text

  predicate IsDigit(c: char) {
    '0' <= c <= '9'
  }

  predicate AllDigits(s: string) {
    forall k :: 0 <= k < |s| ==> IsDigit(s[k])
  }

  function DigitValue(c: char): (d: nat)
    requires IsDigit(c)
    ensures d < 10
  {
    c as int - '0' as int
  }

  /** The number a string of decimal digits denotes, most significant first. */
  function DigitsValue(s: string): nat
    requires AllDigits(s)
  {
    if |s| == 0 then 0 else 10 * DigitsValue(s[..|s| - 1]) + DigitValue(s[|s| - 1])
  }

  function Pow10(e: nat): (p: real)
    ensures p >= 1.0
  {
    if e == 0 then 1.0 else 10.0 * Pow10(e - 1)
  }

  /** `m` times ten to the power `e`, for an exponent of either sign. */
  function Scale(m: real, e: int): real {
    if e >= 0 then m * Pow10(e) else m / Pow10(-e)
  }

  /** Index of the first `a` or `b` in `s`, or `|s|` when there is none. */
  function FindFirst(s: string, a: char, b: char): (k: nat)
    ensures k <= |s| && (k < |s| ==> s[k] == a || s[k] == b)
    ensures forall j :: 0 <= j < k ==> s[j] != a && s[j] != b
  {
    if |s| == 0 || s[0] == a || s[0] == b then 0
    else
      var k := 1 + FindFirst(s[1..], a, b);
      assert forall j :: 1 <= j < k ==> s[j] == s[1..][j - 1];
      k
  }

  /** A leading `+` or `-` taken off: whether it was `-`, and the rest. */
  function TakeSign(s: string): (r: (bool, string))
    ensures |s| > 0 && (s[0] == '+' || s[0] == '-') ==> r == (s[0] == '-', s[1..])
    ensures !(|s| > 0 && (s[0] == '+' || s[0] == '-')) ==> r == (false, s)
  {
    if |s| > 0 && (s[0] == '+' || s[0] == '-') then (s[0] == '-', s[1..]) else (false, s)
  }

  /** The digits before the exponent: an integer part and a fraction,
      either of them empty but not both. Gives the value of all the digits
      together and the number of fraction digits. */
  function ParseMantissa(m: string): Option<(nat, nat)> {
    var dot := FindFirst(m, '.', '.');
    if dot == |m| then
      if |m| >= 1 && AllDigits(m) then Some((DigitsValue(m), 0)) else None
    else
      var a, b := m[..dot], m[dot + 1..];
      if |a| + |b| >= 1 && AllDigits(a) && AllDigits(b) then Some((DigitsValue(a + b), |b|))
      else None
  }

  /** The text after `e`: an optional sign and at least one digit. */
  function ParseExponent(e: string): Option<int> {
    var (neg, d) := TakeSign(e);
    if |d| >= 1 && AllDigits(d) then Some(if neg then -(DigitsValue(d) as int) else DigitsValue(d))
    else None
  }

  /** An unsigned literal: a mantissa, then optionally `e` or `E` and an
      exponent. */
  function ParseUnsigned(body: string): Option<real> {
    var k := FindFirst(body, 'e', 'E');
    var mantissa := ParseMantissa(body[..k]);
    if mantissa.None? then None
    else
      var (m, f) := mantissa.value;
      if k == |body| then Some(Scale(m as real, -(f as int)))
      else
        var exponent := ParseExponent(body[k + 1..]);
        if exponent.None? then None else Some(Scale(m as real, exponent.value - f))
  }

  /** `v`, negated when a minus sign was read. */
  function WithSign(neg: bool, v: real): real {
    if neg then -v else v
  }

  /** `float(text)`, None standing for the `ValueError`: nothing without a
      digit is a number. */
  function ParseFloat(text: string): (r: Option<real>)
    ensures r.Some? ==> exists c :: c in text && IsDigit(c)
  {
    var (neg, body) := TakeSign(Text.Strip(text));
    var v := ParseUnsigned(body);
    if v.None? then None
    else
      UnsignedHasDigit(body);
      Text.StripInfix(text);
      assert forall c :: c in body ==> c in Text.Strip(text);
      Some(WithSign(neg, v.value))
  }

  /** A literal the parser accepts holds a digit before any exponent. */
  lemma UnsignedHasDigit(body: string)
    requires ParseUnsigned(body).Some?
    ensures exists c :: c in body && IsDigit(c)
  {
    var k := FindFirst(body, 'e', 'E');
    var m := body[..k];
    var dot := FindFirst(m, '.', '.');
    if dot == |m| {
      assert body[0] == m[0];
    } else if dot > 0 {
      assert body[0] == m[..dot][0];
    } else {
      assert body[1] == m[dot + 1..][0];
    }
  }

  // ---------------------------------------------------------------------
  // decimal text of a number

  function DigitChar(d: nat): (c: char)
    requires d < 10
    ensures IsDigit(c) && DigitValue(c) == d
  {
    ('0' as int + d) as char
  }

  /** The decimal digits of `n`, as `str(n)` writes them. */
  function NatText(n: nat): (s: string)
    ensures |s| >= 1 && AllDigits(s) && DigitsValue(s) == n
  {
    if n < 10 then [DigitChar(n)]
    else
      var s := NatText(n / 10) + [DigitChar(n % 10)];
      assert s[..|s| - 1] == NatText(n / 10);
      s
  }

  /** Surrounding whitespace makes no difference to `float`. */
  lemma ParseIgnoresSpace(text: string)
    ensures ParseFloat(Text.Strip(text)) == ParseFloat(text)
  {
    Text.StripStripped(Text.Strip(text));
  }

  /** The characters a decimal literal is written with. */
  predicate LiteralChar(c: char) {
    IsDigit(c) || c == '+' || c == '-' || c == '.' || c == 'e' || c == 'E'
  }

  /** A string made of digits, signs and points only has no whitespace at
      its ends. */
  lemma NoSpaceStripped(s: string)
    requires forall k :: 0 <= k < |s| ==> LiteralChar(s[k])
    ensures Text.Strip(s) == s
  {
    Text.StripStripped(s);
  }

  /** A plain run of digits reads as the number it denotes. */
  lemma UnsignedDigits(s: string)
    requires |s| >= 1 && AllDigits(s)
    ensures ParseUnsigned(s) == Some(DigitsValue(s) as real)
  {
    assert FindFirst(s, 'e', 'E') == |s|;
    assert s[..|s|] == s;
    assert FindFirst(s, '.', '.') == |s|;
    assert Pow10(0) == 1.0;
  }

  /** `a.b` reads as the digits of `a` and `b` together, shifted by the
      length of `b`. */
  lemma UnsignedDecimal(a: string, b: string)
    requires AllDigits(a) && AllDigits(b) && |a| + |b| >= 1
    ensures ParseUnsigned(a + "." + b) == Some(Scale(DigitsValue(a + b) as real, -|b|))
  {
    var body := a + "." + b;
    assert FindFirst(body, 'e', 'E') == |body| by {
      forall j | 0 <= j < |body| ensures body[j] != 'e' && body[j] != 'E' {
        if j < |a| { assert body[j] == a[j]; }
        else if j > |a| { assert body[j] == b[j - |a| - 1]; }
      }
    }
    assert body[..|body|] == body;
    assert FindFirst(body, '.', '.') == |a| by {
      assert body[|a|] == '.';
      forall j | 0 <= j < |a| ensures body[j] != '.' { assert body[j] == a[j]; }
    }
    assert body[..|a|] == a && body[|a| + 1..] == b;
  }

  /** An unsigned literal with a `-` or nothing in front: `float` reads the
      literal and applies the sign. */
  lemma SignedLiteral(neg: bool, body: string)
    requires |body| >= 1 && (IsDigit(body[0]) || body[0] == '.')
    requires forall k :: 0 <= k < |body| ==> LiteralChar(body[k])
    ensures var v := ParseUnsigned(body);
      ParseFloat((if neg then "-" else "") + body) ==
        if v.None? then None else Some(WithSign(neg, v.value))
  {
    var s := (if neg then "-" else "") + body;
    assert forall k :: 0 <= k < |s| ==> LiteralChar(s[k]) by {
      if neg {
        forall k | 0 < k < |s| ensures LiteralChar(s[k]) { assert s[k] == body[k - 1]; }
        assert s[0] == '-';
      }
    }
    NoSpaceStripped(s);
    if neg {
      assert s[1..] == body;
    }
    assert TakeSign(s) == (neg, body);
  }

  /** `float(str(n))` gives back `n`. */
  lemma ParseNatText(n: nat)
    ensures ParseFloat(NatText(n)) == Some(n as real)
  {
    var s := NatText(n);
    UnsignedDigits(s);
    SignedLiteral(false, s);
    assert "" + s == s;
  }

  /** `a.b` is written with literal characters and starts with a digit or
      the point. */
  lemma DecimalChars(a: string, b: string)
    requires AllDigits(a) && AllDigits(b)
    ensures var body := a + "." + b;
      |body| >= 1 && (IsDigit(body[0]) || body[0] == '.') &&
      forall k :: 0 <= k < |body| ==> LiteralChar(body[k])
  {
    var body := a + "." + b;
    assert body[0] == if |a| > 0 then a[0] else '.';
    forall k | 0 <= k < |body| ensures LiteralChar(body[k]) {
      if k < |a| { assert body[k] == a[k]; }
      else if k > |a| { assert body[k] == b[k - |a| - 1]; }
    }
  }

  /** `float` of a signed decimal `a.b` is the digits of `a` and `b`
      together, shifted right by the length of `b`. */
  lemma ParseDecimal(neg: bool, a: string, b: string)
    requires AllDigits(a) && AllDigits(b) && |a| + |b| >= 1
    ensures ParseFloat((if neg then "-" else "") + (a + "." + b)) ==
              Some(WithSign(neg, Scale(DigitsValue(a + b) as real, -|b|)))
  {
    var body := a + "." + b;
    UnsignedDecimal(a, b);
    DecimalChars(a, b);
    SignedLiteral(neg, body);
  }

  /** The exponent text `<e>` or `-<e>` reads as `e` or `-e`. */
  lemma ExponentText(negExp: bool, e: nat)
    ensures ParseExponent((if negExp then "-" else "") + NatText(e)) ==
              Some(if negExp then -(e as int) else e)
  {
    var x := (if negExp then "-" else "") + NatText(e);
    if negExp {
      assert x[0] == '-' && x[1..] == NatText(e);
    } else {
      assert x == NatText(e);
    }
  }

  /** Digits, `E`, and an exponent the exponent rule accepts. */
  lemma UnsignedScientific(a: string, x: string)
    requires |a| >= 1 && AllDigits(a) && ParseExponent(x).Some?
    ensures ParseUnsigned(a + "E" + x) == Some(Scale(DigitsValue(a) as real, ParseExponent(x).value))
  {
    var body := a + "E" + x;
    assert FindFirst(body, 'e', 'E') == |a| by {
      assert body[|a|] == 'E';
      forall j | 0 <= j < |a| ensures body[j] != 'e' && body[j] != 'E' { assert body[j] == a[j]; }
    }
    assert body[..|a|] == a && body[|a| + 1..] == x;
    assert a[..|a|] == a;
    assert FindFirst(a, '.', '.') == |a|;
  }

  /** `<m>E<e>` and `<m>E-<e>` are written with literal characters and start
      with a digit. */
  lemma ScientificChars(a: string, negExp: bool, d: string)
    requires |a| >= 1 && AllDigits(a) && AllDigits(d)
    ensures var body := a + "E" + ((if negExp then "-" else "") + d);
      IsDigit(body[0]) && forall k :: 0 <= k < |body| ==> LiteralChar(body[k])
  {
    var x := (if negExp then "-" else "") + d;
    var body := a + "E" + x;
    assert body[0] == a[0];
    forall k | 0 <= k < |body| ensures LiteralChar(body[k]) {
      if k < |a| { assert body[k] == a[k]; }
      else if k > |a| {
        assert body[k] == x[k - |a| - 1];
        if negExp && k > |a| + 1 { assert x[k - |a| - 1] == d[k - |a| - 2]; }
        if !negExp { assert x[k - |a| - 1] == d[k - |a| - 1]; }
      }
    }
  }

  /** `float("<m>E<e>")` and `float("<m>E-<e>")`, the upper-case exponent
      form a mixture string takes after `upper()`: `m` times ten to the
      power `e` or `-e`. */
  lemma ParseScientific(m: nat, negExp: bool, e: nat)
    ensures ParseFloat(NatText(m) + "E" + ((if negExp then "-" else "") + NatText(e))) ==
              Some(Scale(m as real, if negExp then -(e as int) else e))
  {
    var a, x := NatText(m), (if negExp then "-" else "") + NatText(e);
    ExponentText(negExp, e);
    UnsignedScientific(a, x);
    ScientificChars(a, negExp, NatText(e));
    SignedLiteral(false, a + "E" + x);
    assert "" + (a + "E" + x) == a + "E" + x;
    assert WithSign(false, Scale(m as real, if negExp then -(e as int) else e)) ==
           Scale(m as real, if negExp then -(e as int) else e);
  }
}
