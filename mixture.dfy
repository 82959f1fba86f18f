/** `format_mixture` of `knightshock/__init__.py`: a mixture given as a dict
    or as a `"NAME: value, NAME: value"` string, normalised to a map from
    upper-case species names to mole fractions. */
module Mixture {
  import opened Wrappers
  import Text
  import FloatText

  /** A value of a dict argument: a float, an int (`bool` included), a
      string, or anything else (None, a list, ...), which `float(y)` refuses. */
  datatype Number = FloatValue(x: real) | IntValue(k: int) | TextValue(text: string) | OtherValue

  /** The `mixture` argument. */
  datatype MixtureArg = DictArg(items: seq<(string, Number)>) | StrArg(s: string) | OtherArg

  datatype MixtureError =
    | NotStrOrDict              // the explicit `TypeError`
    | BadElement(element: string)  // an element that does not unpack into name and value
    | BadNumber(text: string)      // the `ValueError` of `float(y)`
    | NotANumber                   // the `TypeError` of `float(y)`

  /** `float(y)`. */
  function ToFloat(y: Number): (r: Result<real, MixtureError>)
    ensures y.FloatValue? ==> r == Ok(y.x)
    ensures y.IntValue? ==> r == Ok(y.k as real)
    ensures y.TextValue? ==> (r.Ok? <==> FloatText.ParseFloat(y.text).Some?)
    ensures y.TextValue? && r.Err? ==> r.error == BadNumber(y.text)
    ensures y.OtherValue? ==> r == Err(NotANumber)
  {
    match y
    case FloatValue(x) => Ok(x)
    case IntValue(k) => Ok(k as real)
    case TextValue(t) =>
      (match FloatText.ParseFloat(t)
       case None => Err(BadNumber(t))
       case Some(v) => Ok(v))
    case OtherValue => Err(NotANumber)
  }

  // ---------------------------------------------------------------------
  // the generator and dict()

  /** The generator of `(name, fraction)` pairs: each item converted in
      turn, the first failure raised. */
  function Convert<X>(xs: seq<X>, f: X -> Result<(string, real), MixtureError>)
    : (r: Result<seq<(string, real)>, MixtureError>)
    ensures r.Ok? <==> forall i :: 0 <= i < |xs| ==> f(xs[i]).Ok?
    ensures r.Ok? ==> |r.value| == |xs| && forall i :: 0 <= i < |xs| ==> r.value[i] == f(xs[i]).value
    ensures r.Err? ==>
      exists i :: 0 <= i < |xs| && f(xs[i]) == Err(r.error) && forall j :: 0 <= j < i ==> f(xs[j]).Ok?
  {
    if |xs| == 0 then Ok([])
    else
      match f(xs[0])
      case Err(e) => Err(e)
      case Ok(p) =>
        var rest := Convert(xs[1..], f);
        assert forall i :: 1 <= i < |xs| ==> xs[i] == xs[1..][i - 1];
        match rest
        case Err(e) =>
          assert forall i :: 0 <= i < |xs| - 1 && f(xs[1..][i]) == Err(e) &&
                             (forall j :: 0 <= j < i ==> f(xs[1..][j]).Ok?) ==>
                             (forall j :: 0 <= j < i + 1 ==> f(xs[j]).Ok?);
          Err(e)
        case Ok(ps) => Ok([p] + ps)
  }

  /** `m` is `dict(pairs)`: it has the keys of the pairs, each mapped to the
      value of the last pair with that key. */
  ghost predicate IsDictOf(m: map<string, real>, pairs: seq<(string, real)>) {
    (forall k :: k in m <==> exists i :: 0 <= i < |pairs| && pairs[i].0 == k) &&
    (forall i :: 0 <= i < |pairs| && (forall j :: i < j < |pairs| ==> pairs[j].0 != pairs[i].0) ==>
       pairs[i].0 in m && m[pairs[i].0] == pairs[i].1)
  }

  /** `dict(pairs)`: later pairs overwrite earlier ones. */
  function DictOf(pairs: seq<(string, real)>): (m: map<string, real>)
    ensures |m| <= |pairs|
    ensures |pairs| > 0 ==> pairs[|pairs| - 1].0 in m && m[pairs[|pairs| - 1].0] == pairs[|pairs| - 1].1
  {
    if |pairs| == 0 then map[]
    else DictOf(pairs[..|pairs| - 1])[pairs[|pairs| - 1].0 := pairs[|pairs| - 1].1]
  }

  /** Building the dict pair by pair keeps every key and lets the last pair
      with a key decide its value. */
  lemma DictOfLastWins(pairs: seq<(string, real)>)
    ensures IsDictOf(DictOf(pairs), pairs)
  {
    DictOfKeys(pairs);
    DictOfValues(pairs);
  }

  /** The dict has exactly the keys of the pairs. */
  lemma {:induction false} DictOfKeys(pairs: seq<(string, real)>)
    ensures forall k :: k in DictOf(pairs) <==> exists i :: 0 <= i < |pairs| && pairs[i].0 == k
  {
    if |pairs| > 0 {
      var init := pairs[..|pairs| - 1];
      var last := pairs[|pairs| - 1];
      var m := DictOf(pairs);
      DictOfKeys(init);
      assert m == DictOf(init)[last.0 := last.1];
      forall k ensures k in m <==> exists i :: 0 <= i < |pairs| && pairs[i].0 == k {
        if k in m && k != last.0 {
          assert k in DictOf(init);
          var i :| 0 <= i < |init| && init[i].0 == k;
          assert pairs[i].0 == k;
        }
        if exists i :: 0 <= i < |pairs| && pairs[i].0 == k {
          var i :| 0 <= i < |pairs| && pairs[i].0 == k;
          if i < |init| { assert init[i].0 == k; }
        }
      }
    }
  }

  /** A pair that no later pair overrides holds its value in the dict. */
  lemma {:induction false} DictOfValues(pairs: seq<(string, real)>)
    ensures forall i :: 0 <= i < |pairs| && (forall j :: i < j < |pairs| ==> pairs[j].0 != pairs[i].0) ==>
              pairs[i].0 in DictOf(pairs) && DictOf(pairs)[pairs[i].0] == pairs[i].1
  {
    if |pairs| > 0 {
      var init := pairs[..|pairs| - 1];
      var last := pairs[|pairs| - 1];
      var m := DictOf(pairs);
      DictOfValues(init);
      assert m == DictOf(init)[last.0 := last.1];
      forall i | 0 <= i < |pairs| && (forall j :: i < j < |pairs| ==> pairs[j].0 != pairs[i].0)
        ensures pairs[i].0 in m && m[pairs[i].0] == pairs[i].1
      {
        if i < |init| {
          assert init[i] == pairs[i];
          assert pairs[i].0 != last.0;
          assert forall j :: i < j < |init| ==> init[j] == pairs[j];
        }
      }
    }
  }

  // ---------------------------------------------------------------------
  // format_mixture

  /** A dict key as `x.strip().upper()` leaves it. */
  function NormalKey(x: string): (k: string)
    ensures Text.IsUpper(k) && Text.IsStripped(k)
  {
    Text.UpperKeepsStripped(Text.Strip(x));
    Text.Upper(Text.Strip(x))
  }

  /** One item of a dict argument. */
  function DictEntry(item: (string, Number)): (r: Result<(string, real), MixtureError>)
    ensures r.Ok? <==> ToFloat(item.1).Ok?
    ensures r.Ok? ==> r.value == (NormalKey(item.0), ToFloat(item.1).value)
    ensures r.Err? ==> r.error == ToFloat(item.1).error
  {
    match ToFloat(item.1)
    case Err(e) => Err(e)
    case Ok(v) => Ok((NormalKey(item.0), v))
  }

  /** The string after `replace("{", "").replace("}", "").upper()`. */
  function Clean(s: string): (m: string)
    ensures Text.IsUpper(m) && '{' !in m && '}' !in m
  {
    var t := Text.Delete(Text.Delete(s, '{'), '}');
    var m := Text.Upper(t);
    assert forall k :: 0 <= k < |m| ==> m[k] != '{' && m[k] != '}' by {
      forall k | 0 <= k < |m| ensures m[k] != '{' && m[k] != '}' {
        assert t[k] in t;
      }
    }
    m
  }

  /** One `NAME: value` element: exactly one colon, a value `float`
      accepts; the name is stripped. */
  function ParseElement(element: string): (r: Result<(string, real), MixtureError>)
    ensures |Text.Split(element, ':')| != 2 ==> r == Err(BadElement(element))
    ensures r.Ok? ==> Text.IsStripped(r.value.0) && ':' !in r.value.0
  {
    var parts := Text.Split(element, ':');
    if |parts| != 2 then Err(BadElement(element))
    else
      match FloatText.ParseFloat(parts[1])
      case None => Err(BadNumber(parts[1]))
      case Some(v) =>
        assert parts[0] in parts;
        Text.StripInfix(parts[0]);
        Ok((Text.Strip(parts[0]), v))
  }

  /** The name of an upper-case element is upper case. */
  lemma ElementNameUpper(element: string)
    requires Text.IsUpper(element)
    ensures ParseElement(element).Ok? ==> Text.IsUpper(ParseElement(element).value.0)
  {
    var parts := Text.Split(element, ':');
    Text.SplitUpper(element, ':');
    assert parts[0] in parts;
    Text.StripUpper(parts[0]);
  }

  /** `format_mixture(mixture)`. */
  function FormatMixture(mixture: MixtureArg): (r: Result<map<string, real>, MixtureError>)
    ensures r == Err(NotStrOrDict) <==> mixture.OtherArg?
  {
    match mixture
    case DictArg(items) =>
      (match Convert(items, DictEntry)
       case Err(e) => Err(e)
       case Ok(pairs) => Ok(DictOf(pairs)))
    case StrArg(s) =>
      var m := Clean(s);
      if ':' !in m then Ok(map[Text.Strip(m) := 1.0])
      else
        (match Convert(Text.Split(m, ','), ParseElement)
         case Err(e) => Err(e)
         case Ok(pairs) => Ok(DictOf(pairs)))
    case OtherArg => Err(NotStrOrDict)
  }

  /** The dict built from the converted items: every key some item gives,
      holding the value of the last item that gives that key. */
  lemma ConvertedDict<X>(xs: seq<X>, f: X -> Result<(string, real), MixtureError>)
    requires Convert(xs, f).Ok?
    ensures var m := DictOf(Convert(xs, f).value);
      (forall k :: k in m <==> exists i :: 0 <= i < |xs| && f(xs[i]).value.0 == k) &&
      (forall i | 0 <= i < |xs| && (forall j :: i < j < |xs| ==> f(xs[j]).value.0 != f(xs[i]).value.0) ::
         f(xs[i]).value.0 in m && m[f(xs[i]).value.0] == f(xs[i]).value.1)
  {
    var pairs := Convert(xs, f).value;
    DictOfLastWins(pairs);
    var m := DictOf(pairs);
    forall k ensures k in m <==> exists i :: 0 <= i < |xs| && f(xs[i]).value.0 == k {
      if k in m {
        var i :| 0 <= i < |pairs| && pairs[i].0 == k;
        assert f(xs[i]).value.0 == k;
      }
      if exists i :: 0 <= i < |xs| && f(xs[i]).value.0 == k {
        var i :| 0 <= i < |xs| && f(xs[i]).value.0 == k;
        assert pairs[i].0 == k;
      }
    }
    forall i | 0 <= i < |xs| && (forall j :: i < j < |xs| ==> f(xs[j]).value.0 != f(xs[i]).value.0)
      ensures f(xs[i]).value.0 in m && m[f(xs[i]).value.0] == f(xs[i]).value.1
    {
      assert forall j :: i < j < |pairs| ==> pairs[j].0 != pairs[i].0;
    }
  }

  /** A dict argument: it fails with the error of the first value `float`
      rejects; otherwise every normalised key is present, holding the value
      of the last item that normalises to it. */
  lemma DictMixture(items: seq<(string, Number)>)
    ensures var r := FormatMixture(DictArg(items));
      (r.Ok? <==> forall i :: 0 <= i < |items| ==> ToFloat(items[i].1).Ok?) &&
      (r.Err? ==> exists i :: 0 <= i < |items| && ToFloat(items[i].1) == Err(r.error) &&
                              forall j :: 0 <= j < i ==> ToFloat(items[j].1).Ok?)
    ensures var r := FormatMixture(DictArg(items));
      r.Ok? ==>
        (forall k :: k in r.value <==> exists i :: 0 <= i < |items| && NormalKey(items[i].0) == k) &&
        (forall i | 0 <= i < |items| && (forall j :: i < j < |items| ==> NormalKey(items[j].0) != NormalKey(items[i].0)) ::
           NormalKey(items[i].0) in r.value && r.value[NormalKey(items[i].0)] == ToFloat(items[i].1).value)
  {
    var r := FormatMixture(DictArg(items));
    var c := Convert(items, DictEntry);
    if c.Ok? {
      assert r == Ok(DictOf(c.value));
      ConvertedDict(items, DictEntry);
    } else {
      assert r == Err(c.error);
      var i :| 0 <= i < |items| && DictEntry(items[i]) == Err(c.error) &&
               forall j :: 0 <= j < i ==> DictEntry(items[j]).Ok?;
      assert ToFloat(items[i].1) == Err(r.error);
    }
  }

  /** A string with a colon: it fails with the error of the first element
      that is not one `NAME: value`; otherwise every element's name is
      present, holding the value of the last element with that name. */
  lemma StringMixture(s: string, es: seq<string>)
    requires ':' in Clean(s) && es == Text.Split(Clean(s), ',')
    ensures var r := FormatMixture(StrArg(s));
      (r.Ok? <==> forall i :: 0 <= i < |es| ==> ParseElement(es[i]).Ok?) &&
      (r.Err? ==> exists i :: 0 <= i < |es| && ParseElement(es[i]) == Err(r.error) &&
                              forall j :: 0 <= j < i ==> ParseElement(es[j]).Ok?)
    ensures var r := FormatMixture(StrArg(s));
      r.Ok? ==>
        (forall k :: k in r.value <==> exists i :: 0 <= i < |es| && ParseElement(es[i]).value.0 == k) &&
        (forall i | 0 <= i < |es| && (forall j :: i < j < |es| ==> ParseElement(es[j]).value.0 != ParseElement(es[i]).value.0) ::
           ParseElement(es[i]).value.0 in r.value &&
           r.value[ParseElement(es[i]).value.0] == ParseElement(es[i]).value.1)
  {
    if Convert(es, ParseElement).Ok? {
      ConvertedDict(es, ParseElement);
    }
  }

  // ---------------------------------------------------------------------
  // properties of the string form

  /** Cleaning works piece by piece. */
  lemma CleanConcat(a: string, b: string)
    ensures Clean(a + b) == Clean(a) + Clean(b)
  {
    Text.DeleteConcat(a, b, '{');
    var a1, b1 := Text.Delete(a, '{'), Text.Delete(b, '{');
    Text.DeleteConcat(a1, b1, '}');
    Text.UpperConcat(Text.Delete(a1, '}'), Text.Delete(b1, '}'));
  }

  /** A brace is dropped, and every other character is upper-cased. */
  lemma CleanChar(x: char)
    ensures Clean([x]) == if x == '{' || x == '}' then "" else [Text.UpperChar(x)]
  {
    Text.DeleteChar(x, '{');
    if x != '{' {
      Text.DeleteChar(x, '}');
    }
    assert Text.Delete("", '}') == "";
  }

  /** A character that `upper()` neither produces from another character
      nor removes survives the cleaning exactly where the input has it. */
  lemma CleanKeeps(s: string, c: char)
    requires !Text.IsLower(c) && !('A' <= c <= 'Z') && c != '{' && c != '}'
    ensures c in Clean(s) <==> c in s
  {
    var t := Text.Delete(Text.Delete(s, '{'), '}');
    var m := Clean(s);
    if c in m {
      var k :| 0 <= k < |m| && m[k] == c;
      assert m[k] == Text.UpperChar(t[k]);
      assert t[k] == c;
      assert t[k] in t;
    }
    if c in s {
      assert c in t;
      var k :| 0 <= k < |t| && t[k] == c;
      assert m[k] == c;
    }
  }

  /** Every key of a successful result is upper case with no surrounding
      whitespace, whichever form the mixture came in. */
  lemma KeysNormalised(mixture: MixtureArg)
    ensures FormatMixture(mixture).Ok? ==>
      forall k :: k in FormatMixture(mixture).value ==> Text.IsUpper(k) && Text.IsStripped(k)
  {
    var r := FormatMixture(mixture);
    match mixture
    case DictArg(items) =>
      DictMixture(items);
      if r.Ok? {
        forall k | k in r.value ensures Text.IsUpper(k) && Text.IsStripped(k) {
          var i :| 0 <= i < |items| && NormalKey(items[i].0) == k;
        }
      }
    case StrArg(s) =>
      var m := Clean(s);
      if ':' !in m {
        Text.StripUpper(m);
      } else {
        var es := Text.Split(m, ',');
        StringMixture(s, es);
        Text.SplitUpper(m, ',');
        if r.Ok? {
          forall k | k in r.value ensures Text.IsUpper(k) && Text.IsStripped(k) {
            var i :| 0 <= i < |es| && ParseElement(es[i]).value.0 == k;
            assert es[i] in es;
            ElementNameUpper(es[i]);
          }
        }
      }
    case OtherArg =>
  }

  /** Without a colon the whole cleaned string, commas included, is one
      species name with fraction 1.0. */
  lemma BareName(s: string)
    requires ':' !in s
    ensures FormatMixture(StrArg(s)) == Ok(map[Text.Strip(Clean(s)) := 1.0])
    ensures ',' in s ==> ',' in Text.Strip(Clean(s))
  {
    var m := Clean(s);
    CleanKeeps(s, ':');
    if ',' in s {
      CleanKeeps(s, ',');
      var k :| 0 <= k < |m| && m[k] == ',';
      Text.StripKeeps(m, k);
    }
  }

  /** A trailing comma leaves an empty last element, which does not unpack
      into a name and a value: the call fails. */
  lemma TrailingCommaFails(s: string)
    requires ':' in s && |s| >= 1 && s[|s| - 1] == ','
    ensures FormatMixture(StrArg(s)).Err?
  {
    CleanKeeps(s, ':');
    var es := Text.Split(Clean(s), ',');
    CleanedTrailingComma(s);
    StringMixture(s, es);
    assert Text.Split("", ':') == [""];
    assert ParseElement(es[|es| - 1]).Err?;
  }

  /** The comma survives cleaning, so the cleaned text still splits into an
      empty last element. */
  lemma CleanedTrailingComma(s: string)
    requires |s| >= 1 && s[|s| - 1] == ','
    ensures var es := Text.Split(Clean(s), ','); es[|es| - 1] == ""
  {
    var p := s[..|s| - 1];
    assert s == p + [','];
    CleanConcat(p, [',']);
    CleanChar(',');
    assert Clean(s) == Clean(p) + [','];
    Text.SplitTrailingSep(Clean(p), ',');
  }

  // ---------------------------------------------------------------------
  // writing a mixture and reading it back

  /** One species of a mixture text: its name and its fraction written as
      `whole.fraction`. */
  datatype Component = Component(name: string, whole: string, fraction: string)

  /** A name that is already upper case and stripped and holds none of the
      characters the parser splits on or removes; digits on both sides of
      the point, at least one in all. */
  predicate WellFormed(c: Component) {
    |c.name| >= 1 && Text.IsUpper(c.name) && Text.IsStripped(c.name) &&
    ',' !in c.name && ':' !in c.name && '{' !in c.name && '}' !in c.name &&
    FloatText.AllDigits(c.whole) && FloatText.AllDigits(c.fraction) && |c.whole| + |c.fraction| >= 1
  }

  /** The fraction `whole.fraction` denotes. */
  function Fraction(c: Component): real
    requires WellFormed(c)
  {
    FloatText.Scale(FloatText.DigitsValue(c.whole + c.fraction) as real, -|c.fraction|)
  }

  function Decimal(c: Component): string {
    c.whole + "." + c.fraction
  }

  /** `NAME: whole.fraction`, with a space in front of every element but
      the first, as in `"CH4: 0.04, O2: 0.08, AR: 0.88"`. */
  function ElementText(c: Component, first: bool): string {
    (if first then "" else " ") + c.name + ": " + Decimal(c)
  }

  function ElementTexts(cs: seq<Component>): (es: seq<string>)
    ensures |es| == |cs| && forall i :: 0 <= i < |cs| ==> es[i] == ElementText(cs[i], i == 0)
  {
    seq(|cs|, i requires 0 <= i < |cs| => ElementText(cs[i], i == 0))
  }

  /** The elements joined with commas. */
  function MixtureText(cs: seq<Component>): string {
    Text.Join(ElementTexts(cs), ',')
  }

  /** The pairs the mixture text stands for. */
  function Pairs(cs: seq<Component>): (ps: seq<(string, real)>)
    requires forall i :: 0 <= i < |cs| ==> WellFormed(cs[i])
    ensures |ps| == |cs| && forall i :: 0 <= i < |cs| ==> ps[i] == (cs[i].name, Fraction(cs[i]))
  {
    seq(|cs|, i requires 0 <= i < |cs| => (cs[i].name, Fraction(cs[i])))
  }

  /** The decimal is made of digits and one point, starts and ends with
      neither whitespace nor a colon. */
  lemma DecimalChars(c: Component)
    requires WellFormed(c)
    ensures var d := Decimal(c);
      |d| >= 1 && Text.IsStripped(d) && Text.IsUpper(d) &&
      forall x :: x in d ==> FloatText.IsDigit(x) || x == '.'
  {
    var d := Decimal(c);
    forall x | x in d ensures FloatText.IsDigit(x) || x == '.' {
      var k :| 0 <= k < |d| && d[k] == x;
      if k < |c.whole| { assert d[k] == c.whole[k]; }
      else if k > |c.whole| { assert d[k] == c.fraction[k - |c.whole| - 1]; }
    }
    assert d[0] in d && d[|d| - 1] in d;
    forall k | 0 <= k < |d| ensures !Text.IsLower(d[k]) {
      assert d[k] in d;
    }
  }

  /** The value part of an element, a space and the decimal, reads as the
      fraction. */
  lemma DecimalParses(c: Component)
    requires WellFormed(c)
    ensures FloatText.ParseFloat(" " + Decimal(c)) == Some(Fraction(c))
  {
    var d := Decimal(c);
    DecimalChars(c);
    Text.StripOneSpace(d);
    FloatText.ParseIgnoresSpace(" " + d);
    FloatText.ParseDecimal(false, c.whole, c.fraction);
    assert "" + (c.whole + "." + c.fraction) == d;
  }

  /** An element splits at its one colon into the padded name and the value. */
  lemma ElementSplits(c: Component, first: bool)
    requires WellFormed(c)
    ensures Text.Split(ElementText(c, first), ':') == [(if first then "" else " ") + c.name, " " + Decimal(c)]
  {
    var pad := if first then "" else " ";
    var d := Decimal(c);
    DecimalChars(c);
    var parts := [pad + c.name, " " + d];
    assert ElementText(c, first) == Text.Join(parts, ':');
    assert ':' !in pad + c.name;
    assert ':' !in " " + d;
    Text.SplitJoin(parts, ':');
  }

  /** Each element reads back as its name and fraction. */
  lemma ElementParses(c: Component, first: bool)
    requires WellFormed(c)
    ensures ParseElement(ElementText(c, first)) == Ok((c.name, Fraction(c)))
  {
    ElementSplits(c, first);
    DecimalParses(c);
    if first {
      Text.StripStripped(c.name);
      assert "" + c.name == c.name;
    } else {
      Text.StripOneSpace(c.name);
    }
  }

  /** An element has only upper-case-safe characters, and none of the ones
      the cleaning removes or the outer split cuts at. */
  lemma ElementChars(c: Component, first: bool)
    requires WellFormed(c)
    ensures var e := ElementText(c, first);
      Text.IsUpper(e) && ',' !in e && '{' !in e && '}' !in e && ':' in e
  {
    var e := ElementText(c, first);
    DecimalChars(c);
    var pad := if first then "" else " ";
    assert e == pad + c.name + ": " + Decimal(c);
    forall x | x in e ensures x in c.name || x == ' ' || x == ':' || FloatText.IsDigit(x) || x == '.' {
      assert x in pad + c.name + ": " || x in Decimal(c);
    }
    forall k | 0 <= k < |e| ensures !Text.IsLower(e[k]) {
      assert e[k] in e;
      if e[k] in c.name {
        var j :| 0 <= j < |c.name| && c.name[j] == e[k];
      }
    }
    assert e[|pad| + |c.name|] == ':';
  }

  /** The text of well-formed components is already clean and holds a
      colon, so `format_mixture` splits it as written. */
  lemma RenderedClean(cs: seq<Component>)
    requires |cs| >= 1 && forall i :: 0 <= i < |cs| ==> WellFormed(cs[i])
    ensures Clean(MixtureText(cs)) == MixtureText(cs) && ':' in MixtureText(cs)
  {
    var es := ElementTexts(cs);
    var text := MixtureText(cs);
    forall i | 0 <= i < |es|
      ensures Text.IsUpper(es[i]) && ',' !in es[i] && '{' !in es[i] && '}' !in es[i] && ':' in es[i]
    {
      ElementChars(cs[i], i == 0);
    }
    Text.JoinChars(es, ',');
    assert '{' !in text && '}' !in text by {
      forall x | x in text ensures x != '{' && x != '}' {
        if x != ',' {
          var p :| p in es && x in p;
        }
      }
    }
    Text.DeleteAbsent(text, '{');
    Text.DeleteAbsent(text, '}');
    Text.JoinUpper(es, ',');
    Text.UpperIdempotent(text);
    assert es[0] in es;
  }

  /** Each rendered element parses back to its component. */
  lemma RenderedElements(cs: seq<Component>)
    requires forall i :: 0 <= i < |cs| ==> WellFormed(cs[i])
    ensures Convert(ElementTexts(cs), ParseElement) == Ok(Pairs(cs))
  {
    var es := ElementTexts(cs);
    var ps := Pairs(cs);
    forall i | 0 <= i < |es| ensures ParseElement(es[i]) == Ok(ps[i]) {
      ElementParses(cs[i], i == 0);
    }
    var c := Convert(es, ParseElement);
    assert c.Ok? && |c.value| == |ps|;
    assert c.value == ps;
  }

  /** Writing well-formed components as a mixture text and formatting it
      gives the dict of their names and fractions. */
  lemma RenderParses(cs: seq<Component>)
    requires |cs| >= 1 && forall i :: 0 <= i < |cs| ==> WellFormed(cs[i])
    ensures FormatMixture(StrArg(MixtureText(cs))) == Ok(DictOf(Pairs(cs)))
  {
    var es := ElementTexts(cs);
    RenderedClean(cs);
    forall i | 0 <= i < |es| ensures ',' !in es[i] {
      ElementChars(cs[i], i == 0);
    }
    Text.SplitJoin(es, ',');
    RenderedElements(cs);
  }
}
