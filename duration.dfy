/** `_to_ms`: a netem duration such as "20ms", "0.5s" or "200us", in
    milliseconds. */
module Duration {
  import opened Base
  import opened Text

  datatype Unit = Us | Ms | S

  /** A duration literal `<digits>[.<digits>]<unit>`, kept as its pieces. */
  datatype Literal = Literal(whole: string, frac: Option<string>, unit: Unit)

  predicate WellFormed(d: Literal)
  {
    && d.whole != [] && AllDigits(d.whole)
    && (d.frac.Some? ==> d.frac.value != [] && AllDigits(d.frac.value))
  }

  function UnitText(u: Unit): string
  {
    match u
    case Us => "us"
    case Ms => "ms"
    case S => "s"
  }

  /** The text of a literal. */
  function Render(d: Literal): string
  {
    d.whole + (if d.frac.Some? then "." + d.frac.value else "") + UnitText(d.unit)
  }

  /** What `float()` makes of the number part. */
  function Number(d: Literal): real
    requires WellFormed(d)
  {
    if d.frac.None? then DigitsValue(d.whole) as real
    else DigitsValue(d.whole) as real + DigitsValue(d.frac.value) as real / Pow10(|d.frac.value|) as real
  }

  /** The literal in milliseconds: `us` divides by 1000, `ms` is as is and
      `s` multiplies by 1000. */
  function Millis(d: Literal): real
    requires WellFormed(d)
  {
    match d.unit
    case Us => Number(d) / 1000.0
    case Ms => Number(d)
    case S => Number(d) * 1000.0
  }

  function UnitOf(s: string): Option<Unit>
  {
    if s == "us" then Some(Us) else if s == "ms" then Some(Ms) else if s == "s" then Some(S) else None
  }

  /** `re.fullmatch(r"(\d+(?:\.\d+)?)(ms|s|us)", s)`: the literal the whole
      of s spells, if any. */
  function Scan(s: string): (r: Option<Literal>)
    ensures r.Some? ==> WellFormed(r.value) && Render(r.value) == s
  {
    var i := Span(s, 0, IsDigit);
    if i == 0 then None
    else
      var j := if i < |s| && s[i] == '.' then Span(s, i + 1, IsDigit) else i;
      var frac := if j > i + 1 then Some(s[i + 1..j]) else None;
      var k := if frac.Some? then j else i;
      match UnitOf(s[k..])
      case None => None
      case Some(u) =>
        RenderPieces(s, i, j, frac, k, u);
        Some(Literal(s[..i], frac, u))
  }

  /** The pieces Scan cuts the text into spell it again. */
  lemma RenderPieces(s: string, i: nat, j: nat, frac: Option<string>, k: nat, u: Unit)
    requires 0 < i <= j <= |s| && AllDigits(s[..i])
    requires frac.Some? ==> i < j && s[i] == '.' && frac.value == s[i + 1..j] && frac.value != [] && AllDigits(frac.value)
    requires k == (if frac.Some? then j else i)
    requires UnitOf(s[k..]) == Some(u)
    ensures WellFormed(Literal(s[..i], frac, u)) && Render(Literal(s[..i], frac, u)) == s
  {
    UnitOfText(s[k..]);
    if frac.Some? {
      assert s == s[..i] + "." + s[i + 1..j] + s[j..];
    } else {
      assert s == s[..i] + s[i..];
    }
  }

  lemma UnitOfText(s: string)
    requires UnitOf(s).Some?
    ensures UnitText(UnitOf(s).value) == s
  {
  }

  /** `_to_ms(s)`: None for blank input and for anything that is not exactly
      one literal once surrounding whitespace is stripped. */
  function ToMs(s: string): (r: Option<real>)
  {
    match Scan(Strip(s))
    case None => None
    case Some(d) => Some(Millis(d))
  }

  /** Scanning the text of a literal gives that literal back. */
  lemma {:induction false} ScanRender(d: Literal)
    requires WellFormed(d)
    ensures Scan(Render(d)) == Some(d)
  {
    if d.frac.Some? {
      ScanFraction(d.whole, d.frac.value, d.unit);
    } else {
      ScanWhole(d.whole, d.unit);
    }
  }

  lemma UnitStarts(u: Unit)
    ensures var t := UnitText(u); t != [] && !IsDigit(t[0]) && t[0] != '.' && UnitOf(t) == Some(u)
  {
  }

  lemma ScanWhole(whole: string, u: Unit)
    requires whole != [] && AllDigits(whole)
    ensures Scan(whole + UnitText(u)) == Some(Literal(whole, None, u))
  {
    var s := whole + UnitText(u);
    var w := |whole|;
    UnitStarts(u);
    assert s[w] == UnitText(u)[0];
    SpanStops(s, 0, w, IsDigit);
    assert s[..w] == whole && s[w..] == UnitText(u);
  }

  lemma ScanFraction(whole: string, f: string, u: Unit)
    requires whole != [] && AllDigits(whole) && f != [] && AllDigits(f)
    ensures Scan(whole + ("." + f) + UnitText(u)) == Some(Literal(whole, Some(f), u))
  {
    var s := whole + ("." + f) + UnitText(u);
    var w := |whole|;
    UnitStarts(u);
    assert s[w] == '.' && s[w + 1 + |f|] == UnitText(u)[0];
    SpanStops(s, 0, w, IsDigit);
    SpanStops(s, w + 1, w + 1 + |f|, IsDigit);
    assert s[..w] == whole && s[w + 1..w + 1 + |f|] == f;
    assert s[w + 1 + |f|..] == UnitText(u);
  }

  /** A literal, with or without surrounding whitespace, converts to its
      value in milliseconds; every other input converts to nothing. */
  lemma ToMsLiteral(a: string, d: Literal, b: string)
    requires WellFormed(d)
    requires forall i :: 0 <= i < |a| ==> IsSpace(a[i])
    requires forall i :: 0 <= i < |b| ==> IsSpace(b[i])
    ensures ToMs(a + Render(d) + b) == Some(Millis(d))
  {
    ScanRender(d);
    StripSurrounded(a, Render(d), b);
  }

  /** Whatever converts is a literal surrounded by whitespace. */
  lemma ToMsOnlyLiterals(s: string)
    requires ToMs(s).Some?
    ensures exists d :: WellFormed(d) && Strip(s) == Render(d) && ToMs(s) == Some(Millis(d))
  {
    var d := Scan(Strip(s)).value;
    assert WellFormed(d) && Strip(s) == Render(d);
  }

  /** "20ms" is 20 milliseconds. */
  lemma ExampleMs()
    ensures ToMs("20ms") == Some(20.0)
  {
    var d := Literal("20", None, Ms);
    assert "" + Render(d) + "" == "20ms";
    assert DigitsValue("20") == 20 by {
      assert "20"[..1] == "2" && "2"[..0] == "";
    }
    ToMsLiteral("", d, "");
  }

  /** "0.5s" is 500 milliseconds. */
  lemma ExampleS()
    ensures ToMs("0.5s") == Some(500.0)
  {
    var d := Literal("0", Some("5"), S);
    assert "" + Render(d) + "" == "0.5s";
    assert DigitsValue("0") == 0 && DigitsValue("5") == 5 by {
      assert "0"[..0] == "" && "5"[..0] == "";
    }
    assert Number(d) == 0.5 by {
      assert Pow10(1) == 10;
    }
    ToMsLiteral("", d, "");
  }

  /** " 200us" is 0.2 milliseconds. */
  lemma ExampleUs()
    ensures ToMs(" 200us") == Some(0.2)
  {
    var d := Literal("200", None, Us);
    assert " " + Render(d) + "" == " 200us";
    assert DigitsValue("200") == 200 by {
      assert "200"[..2] == "20" && "20"[..1] == "2" && "2"[..0] == "";
    }
    ToMsLiteral(" ", d, "");
  }

  /** A bare number has no unit, and a point needs digits after it. */
  lemma ExamplesRejected()
    ensures ToMs("") == None && ToMs("20") == None && ToMs("1.s") == None
  {
    StripNoSpace("20");
    StripNoSpace("1.s");
    SpanStops("20", 0, 2, IsDigit);
    SpanStops("1.s", 0, 1, IsDigit);
    SpanStops("1.s", 2, 2, IsDigit);
  }
}
