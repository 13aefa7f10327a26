/** Character classes and string primitives shared by the extractors: Python's
    whitespace, `str.strip`, `str.splitlines`, the regex word boundary,
    decimal digit runs, `float()` on a string and `int()` on a float. */
module Text {
  import opened Base

  /** Python's `str.isspace`, which is also what `\s` and `strip()` use. */
  predicate IsSpace(c: char)
  {
    var n := c as int;
    (9 <= n <= 13) || (28 <= n <= 32) || n == 0x85 || n == 0xA0 || n == 0x1680
    || (0x2000 <= n <= 0x200A) || n == 0x2028 || n == 0x2029 || n == 0x202F
    || n == 0x205F || n == 0x3000
  }

  predicate NotSpace(c: char)
  {
    !IsSpace(c)
  }

  /** The characters at which `str.splitlines` ends a line. */
  predicate IsLineBreak(c: char)
  {
    var n := c as int;
    (10 <= n <= 13) || (28 <= n <= 30) || n == 0x85 || n == 0x2028 || n == 0x2029
  }

  predicate IsDigit(c: char)
  {
    '0' <= c <= '9'
  }

  predicate IsAsciiLetter(c: char)
  {
    ('a' <= c <= 'z') || ('A' <= c <= 'Z')
  }

  /** A character of `\w` (ASCII letters, digits and underscore). */
  predicate IsWordChar(c: char)
  {
    IsAsciiLetter(c) || IsDigit(c) || c == '_'
  }

  predicate NotNewline(c: char)
  {
    c != '\n'
  }

  /** `\b`: position i of s lies between a word character and a non-word one. */
  predicate WordBoundary(s: string, i: nat)
    requires i <= |s|
  {
    (i > 0 && IsWordChar(s[i - 1])) != (i < |s| && IsWordChar(s[i]))
  }

  predicate AllDigits(s: string)
  {
    forall i :: 0 <= i < |s| ==> IsDigit(s[i])
  }

  /** End of the longest run of characters satisfying p that starts at i. */
  function Span(s: string, i: nat, p: char -> bool): (j: nat)
    requires i <= |s|
    ensures i <= j <= |s|
    ensures forall k :: i <= k < j ==> p(s[k])
    ensures j == |s| || !p(s[j])
    decreases |s| - i
  {
    if i < |s| && p(s[i]) then Span(s, i + 1, p) else i
  }

  /** Does t occur in s at position i? */
  predicate At(s: string, i: nat, t: string)
  {
    i + |t| <= |s| && s[i..i + |t|] == t
  }

  predicate Contains(s: string, t: string)
  {
    exists i :: 0 <= i <= |s| && At(s, i, t)
  }

  /** Index of the first occurrence of c in s, if any. */
  function IndexOf(s: string, c: char): (r: Option<nat>)
    ensures r.None? <==> c !in s
    ensures r.Some? ==> r.value < |s| && s[r.value] == c && c !in s[..r.value]
  {
    if s == [] then None
    else if s[0] == c then Some(0)
    else match IndexOf(s[1..], c)
      case None => None
      case Some(k) => assert s[..k + 1] == [s[0]] + s[1..][..k]; Some(k + 1)
  }

  /** c first occurs right after k. */
  lemma {:induction false} IndexOfFirst(k: string, c: char, v: string)
    requires c !in k
    ensures IndexOf(k + [c] + v, c) == Some(|k|)
  {
    if k != [] {
      assert (k + [c] + v)[1..] == k[1..] + [c] + v;
      IndexOfFirst(k[1..], c, v);
    }
  }

  /** `s.split(c, 1)` when c occurs: the text before the first c and the
      text after it. */
  function SplitFirst(s: string, c: char): (r: Option<(string, string)>)
    ensures r.None? <==> c !in s
    ensures r.Some? ==> c !in r.value.0 && s == r.value.0 + [c] + r.value.1
  {
    match IndexOf(s, c)
    case None => None
    case Some(i) =>
      assert s == s[..i] + [c] + s[i + 1..];
      Some((s[..i], s[i + 1..]))
  }

  /** Splitting at the first c of a + [c] + b gives a and b back. */
  lemma SplitFirstAt(a: string, c: char, b: string)
    requires c !in a
    ensures SplitFirst(a + [c] + b, c) == Some((a, b))
  {
    var s := a + [c] + b;
    IndexOfFirst(a, c, b);
    assert s[..|a|] == a && s[|a| + 1..] == b;
  }

  /** The least position in [lo, hi) that satisfies P. */
  function First(lo: nat, hi: nat, P: nat -> bool): (r: Option<nat>)
    requires lo <= hi
    ensures r.Some? ==> lo <= r.value < hi && P(r.value) && forall i :: lo <= i < r.value ==> !P(i)
    ensures r.None? ==> forall i :: lo <= i < hi ==> !P(i)
    decreases hi - lo
  {
    if lo == hi then None else if P(lo) then Some(lo) else First(lo + 1, hi, P)
  }

  /** The greatest position in [lo, hi) that satisfies P. */
  function Last(lo: nat, hi: nat, P: nat -> bool): (r: Option<nat>)
    requires lo <= hi
    ensures r.Some? ==> lo <= r.value < hi && P(r.value) && forall i :: r.value < i < hi ==> !P(i)
    ensures r.None? ==> forall i :: lo <= i < hi ==> !P(i)
    decreases hi - lo
  {
    if lo == hi then None else if P(hi - 1) then Some(hi - 1) else Last(lo, hi - 1, P)
  }

  /** A position satisfying P with none after it below hi is the last. */
  lemma {:induction false} LastIs(lo: nat, hi: nat, P: nat -> bool, x: nat)
    requires lo <= x < hi && P(x)
    requires forall i :: x < i < hi ==> !P(i)
    ensures Last(lo, hi, P) == Some(x)
    decreases hi - lo
  {
    if x < hi - 1 {
      LastIs(lo, hi - 1, P, x);
    }
  }

  // ----- strip ------------------------------------------------------------

  /** Start of the longest run of characters satisfying p that ends at j. */
  function SpanBack(s: string, j: nat, p: char -> bool): (i: nat)
    requires j <= |s|
    ensures i <= j
    ensures forall k :: i <= k < j ==> p(s[k])
    ensures i == 0 || !p(s[i - 1])
  {
    if j > 0 && p(s[j - 1]) then SpanBack(s, j - 1, p) else j
  }

  /** `str.strip()` with no argument: what lies between the leading and the
      trailing whitespace. */
  function Strip(s: string): (r: string)
    ensures r == [] || (!IsSpace(r[0]) && !IsSpace(r[|r| - 1]))
  {
    var a := Span(s, 0, IsSpace);
    if a == |s| then []
    else
      var b := SpanBack(s, |s|, IsSpace);
      s[a..b]
  }

  /** `str.rstrip(c)`: drop every trailing copy of c. */
  function TrimEndChar(s: string, c: char): (r: string)
    ensures |r| <= |s| && r == s[..|r|]
    ensures r == [] || r[|r| - 1] != c
    ensures forall i :: |r| <= i < |s| ==> s[i] == c
  {
    if s != [] && s[|s| - 1] == c then TrimEndChar(s[..|s| - 1], c) else s
  }

  lemma {:induction false} SpanBackStops(s: string, j: nat, i: nat, p: char -> bool)
    requires i <= j <= |s|
    requires forall k :: i <= k < j ==> p(s[k])
    requires i == 0 || !p(s[i - 1])
    ensures SpanBack(s, j, p) == i
    decreases j - i
  {
    if i < j {
      SpanBackStops(s, j - 1, i, p);
    }
  }

  /** Stripping a value padded with whitespace gives the value back. */
  lemma {:induction false} StripSurrounded(a: string, s: string, b: string)
    requires forall i :: 0 <= i < |a| ==> IsSpace(a[i])
    requires forall i :: 0 <= i < |b| ==> IsSpace(b[i])
    requires s != [] && !IsSpace(s[0]) && !IsSpace(s[|s| - 1])
    ensures Strip(a + s + b) == s
  {
    var t := a + s + b;
    SpanStops(t, 0, |a|, IsSpace);
    SpanBackStops(t, |t|, |a| + |s|, IsSpace);
    assert t[|a|..|a| + |s|] == s;
  }

  /** A value without any whitespace is its own strip. */
  lemma {:induction false} StripNoSpace(s: string)
    requires forall i :: 0 <= i < |s| ==> !IsSpace(s[i])
    ensures Strip(s) == s
  {
    if s != [] {
      StripSurrounded([], s, []);
      assert [] + s + [] == s;
    }
  }

  /** A value with no whitespace at either end is its own strip. */
  lemma StripFixed(s: string)
    requires s == [] || (!IsSpace(s[0]) && !IsSpace(s[|s| - 1]))
    ensures Strip(s) == s
  {
    if s != [] {
      StripSurrounded([], s, []);
      assert [] + s + [] == s;
    }
  }

  // ----- lines and fields -------------------------------------------------

  /** `str.splitlines()`: lines without their terminators; "\r\n" ends one
      line; a final terminator does not start an empty line. */
  function SplitLines(s: string): (r: seq<string>)
    ensures forall i, j :: 0 <= i < |r| && 0 <= j < |r[i]| ==> !IsLineBreak(r[i][j])
    decreases |s|
  {
    if s == [] then []
    else
      var e := Span(s, 0, (c: char) => !IsLineBreak(c));
      if e == |s| then [s]
      else
        var next := if s[e] == '\r' && e + 1 < |s| && s[e + 1] == '\n' then e + 2 else e + 1;
        [s[..e]] + SplitLines(s[next..])
  }

  /** `re.split(r"\s+", line)` of a stripped, non-empty line: the maximal runs
      of non-space characters, in order. */
  function Fields(s: string): (r: seq<string>)
    ensures forall i :: 0 <= i < |r| ==> r[i] != [] && forall j :: 0 <= j < |r[i]| ==> !IsSpace(r[i][j])
    decreases |s|
  {
    var b := Span(s, 0, IsSpace);
    if b == |s| then []
    else
      var e := Span(s, b, NotSpace);
      [s[b..e]] + Fields(s[e..])
  }

  /** Leading whitespace, then a word that whitespace or the end closes:
      that word is the first field. */
  lemma {:induction false} FieldsLead(s: string, sp: string, a: string, rest: string)
    requires s == sp + a + rest
    requires forall j :: 0 <= j < |sp| ==> IsSpace(sp[j])
    requires a != [] && forall j :: 0 <= j < |a| ==> !IsSpace(a[j])
    requires rest == [] || IsSpace(rest[0])
    ensures Fields(s) == [a] + Fields(rest)
  {
    SpanStops(s, 0, |sp|, IsSpace);
    SpanStops(s, |sp|, |sp| + |a|, NotSpace);
    assert s[|sp|..|sp| + |a|] == a;
    assert s[|sp| + |a|..] == rest;
  }

  /** Two space-free words with whitespace between them are two fields. */
  lemma {:induction false} FieldsTwo(a: string, sp: string, b: string)
    requires a != [] && forall j :: 0 <= j < |a| ==> !IsSpace(a[j])
    requires sp != [] && forall j :: 0 <= j < |sp| ==> IsSpace(sp[j])
    requires b != [] && forall j :: 0 <= j < |b| ==> !IsSpace(b[j])
    ensures Fields(a + sp + b) == [a, b]
  {
    calc {
      Fields(a + sp + b);
      { FieldsLead(a + sp + b, [], a, sp + b); }
      [a] + Fields(sp + b);
      { FieldsLead(sp + b, sp, b, []); NoFields(); }
      [a] + [b];
    }
  }

  lemma NoFields()
    ensures Fields([]) == []
  {
    assert Span([], 0, IsSpace) == 0;
  }

  // ----- numbers ----------------------------------------------------------

  function DigitValue(c: char): nat
    requires IsDigit(c)
  {
    (c as int - '0' as int) as nat
  }

  /** Value of a string of decimal digits ("" is 0). */
  function DigitsValue(ds: string): nat
    requires AllDigits(ds)
  {
    if ds == [] then 0 else DigitsValue(ds[..|ds| - 1]) * 10 + DigitValue(ds[|ds| - 1])
  }

  function Pow10(n: nat): (r: nat)
    ensures r >= 1
  {
    if n == 0 then 1 else 10 * Pow10(n - 1)
  }

  function DigitChar(d: nat): (c: char)
    requires d < 10
    ensures IsDigit(c) && DigitValue(c) == d
  {
    ('0' as int + d) as char
  }

  /** Decimal rendering of a natural number, without leading zeros. */
  function NatToString(n: nat): (s: string)
    ensures s != [] && AllDigits(s)
  {
    if n < 10 then [DigitChar(n)] else NatToString(n / 10) + [DigitChar(n % 10)]
  }

  lemma {:induction false} NatToStringValue(n: nat)
    ensures DigitsValue(NatToString(n)) == n
  {
    if n >= 10 {
      var s := NatToString(n);
      assert s[..|s| - 1] == NatToString(n / 10);
      NatToStringValue(n / 10);
    }
  }

  /** Python's `int(x)` for a float x: truncation toward zero. */
  function Trunc(x: real): (r: int)
    ensures 0.0 <= x ==> r as real <= x < r as real + 1.0
    ensures x < 0.0 ==> r as real - 1.0 < x <= r as real
  {
    if x >= 0.0 then x.Floor else -((-x).Floor)
  }

  /** x scaled by ten to the power e. */
  function Scale(x: real, e: int): real
  {
    if e >= 0 then x * Pow10(e) as real else x / Pow10(-e) as real
  }

  /** Where a reader of `[+-]?(\d+(\.\d*)?|\.\d+)([eE][+-]?\d+)?` stands:
      the sign, the digits read so far as one number m, how many of them
      follow the point (f), whether any digit was seen, and the exponent. */
  datatype FloatState =
    | Start
    | Signed(neg: bool)
    | Whole(neg: bool, m: nat)
    | Point(neg: bool, m: nat, f: nat, any: bool)
    | ExpMark(neg: bool, m: nat, f: nat)
    | ExpSign(neg: bool, m: nat, f: nat, eneg: bool)
    | ExpDigits(neg: bool, m: nat, f: nat, eneg: bool, e: nat)

  function WithSign(neg: bool, x: real): real
  {
    if neg then -x else x
  }

  /** The value of a complete literal, if the reader may stop here. */
  function FloatEnd(st: FloatState): Option<real>
  {
    match st
    case Whole(neg, m) => Some(WithSign(neg, m as real))
    case Point(neg, m, f, any) => if any then Some(WithSign(neg, Scale(m as real, -(f as int)))) else None
    case ExpDigits(neg, m, f, eneg, e) => Some(WithSign(neg, Scale(m as real, (if eneg then -(e as int) else e as int) - f)))
    case _ => None
  }

  /** The reader after one more character; None where the literal breaks. */
  function FloatStep(st: FloatState, c: char): Option<FloatState>
  {
    var d := if IsDigit(c) then DigitValue(c) else 0;
    match st
    case Start =>
      if c == '+' || c == '-' then Some(Signed(c == '-'))
      else if IsDigit(c) then Some(Whole(false, d))
      else if c == '.' then Some(Point(false, 0, 0, false))
      else None
    case Signed(neg) =>
      if IsDigit(c) then Some(Whole(neg, d))
      else if c == '.' then Some(Point(neg, 0, 0, false))
      else None
    case Whole(neg, m) =>
      if IsDigit(c) then Some(Whole(neg, m * 10 + d))
      else if c == '.' then Some(Point(neg, m, 0, true))
      else if c == 'e' || c == 'E' then Some(ExpMark(neg, m, 0))
      else None
    case Point(neg, m, f, any) =>
      if IsDigit(c) then Some(Point(neg, m * 10 + d, f + 1, true))
      else if (c == 'e' || c == 'E') && any then Some(ExpMark(neg, m, f))
      else None
    case ExpMark(neg, m, f) =>
      if c == '+' || c == '-' then Some(ExpSign(neg, m, f, c == '-'))
      else if IsDigit(c) then Some(ExpDigits(neg, m, f, false, d))
      else None
    case ExpSign(neg, m, f, eneg) =>
      if IsDigit(c) then Some(ExpDigits(neg, m, f, eneg, d)) else None
    case ExpDigits(neg, m, f, eneg, e) =>
      if IsDigit(c) then Some(ExpDigits(neg, m, f, eneg, e * 10 + d)) else None
  }

  /** Read s from position i on, in state st. */
  function FloatFrom(s: string, i: nat, st: FloatState): Option<real>
    requires i <= |s|
    decreases |s| - i
  {
    if i == |s| then FloatEnd(st)
    else match FloatStep(st, s[i])
      case None => None
      case Some(next) => FloatFrom(s, i + 1, next)
  }

  /** Python's `float(s)` on a string: a decimal literal with optional sign
      and exponent once surrounding whitespace is stripped; None where it
      raises ValueError. */
  function ParseFloat(s: string): Option<real>
  {
    var t := Strip(s);
    FloatFrom(t, 0, Start)
  }

  lemma {:induction false} SpanAll(s: string, i: nat, p: char -> bool)
    requires i <= |s|
    requires forall k :: i <= k < |s| ==> p(s[k])
    ensures Span(s, i, p) == |s|
    decreases |s| - i
  {
    if i < |s| {
      SpanAll(s, i + 1, p);
    }
  }

  lemma {:induction false} SpanStops(s: string, i: nat, j: nat, p: char -> bool)
    requires i <= j <= |s|
    requires forall k :: i <= k < j ==> p(s[k])
    requires j == |s| || !p(s[j])
    ensures Span(s, i, p) == j
    decreases j - i
  {
    if i < j {
      SpanStops(s, i + 1, j, p);
    }
  }

  lemma {:induction false} WholeDigits(s: string, i: nat)
    requires 1 <= i <= |s| && AllDigits(s)
    ensures FloatFrom(s, i, Whole(false, DigitsValue(s[..i]))) == Some(DigitsValue(s) as real)
    decreases |s| - i
  {
    if i == |s| {
      assert s[..i] == s;
    } else {
      assert s[..i + 1][..i] == s[..i];
      WholeDigits(s, i + 1);
    }
  }

  /** A string of digits reads back as its own value. */
  lemma ParseFloatDigits(s: string)
    requires s != [] && AllDigits(s)
    ensures ParseFloat(s) == Some(DigitsValue(s) as real)
  {
    StripNoSpace(s);
    assert s[..1][..0] == [];
    WholeDigits(s, 1);
  }

  lemma {:induction false} FractionDigits(s: string, j: nat, m: nat, i: nat)
    requires j <= i <= |s| && AllDigits(s[j..])
    ensures AllDigits(s[j..i])
    ensures FloatFrom(s, i, Point(false, m * Pow10(i - j) + DigitsValue(s[j..i]), i - j, true))
         == Some(Scale((m * Pow10(|s| - j) + DigitsValue(s[j..])) as real, -((|s| - j) as int)))
    decreases |s| - i
  {
    assert s[j..i] == s[j..][..i - j];
    if i == |s| {
      assert s[j..i] == s[j..];
      FractionEnd(m * Pow10(i - j) + DigitsValue(s[j..i]), i - j);
    } else {
      FractionStep(s, j, m, i);
      FractionDigits(s, j, m, i + 1);
    }
  }

  lemma FractionEnd(v: nat, f: nat)
    ensures FloatEnd(Point(false, v, f, true)) == Some(Scale(v as real, -(f as int)))
  {
  }

  /** One more fraction digit: the digits so far shift by one place. */
  lemma FractionStep(s: string, j: nat, m: nat, i: nat)
    requires j <= i < |s| && AllDigits(s[j..])
    ensures FloatStep(Point(false, m * Pow10(i - j) + DigitsValue(s[j..i]), i - j, true), s[i])
         == Some(Point(false, m * Pow10(i + 1 - j) + DigitsValue(s[j..i + 1]), i + 1 - j, true))
  {
    assert s[j..i] == s[j..][..i - j];
    assert s[j..i + 1] == s[j..][..i + 1 - j];
    assert s[j..i + 1][..i - j] == s[j..i];
    Shift(m, Pow10(i - j), DigitsValue(s[j..i]), DigitValue(s[i]));
  }

  lemma Shift(m: nat, p: nat, v: nat, d: nat)
    ensures (m * p + v) * 10 + d == m * (10 * p) + (v * 10 + d)
  {
  }

  /** d over ten to the k: the value of k digits after the point. */
  function Fraction(d: nat, k: nat): real
  {
    d as real / Pow10(k) as real
  }

  lemma {:induction false} ZerosValue(z: string)
    requires forall k :: 0 <= k < |z| ==> z[k] == '0'
    ensures AllDigits(z) && DigitsValue(z) == 0
  {
    if z != [] {
      ZerosValue(z[..|z| - 1]);
    }
  }

  /** Digits, a point and digits read back as the whole part plus the
      fraction. */
  lemma ParseFloatPointAt(s: string, n: nat)
    requires 1 <= n < |s| && AllDigits(s[..n]) && s[n] == '.' && AllDigits(s[n + 1..])
    ensures ParseFloat(s) == Some(DigitsValue(s[..n]) as real + Fraction(DigitsValue(s[n + 1..]), |s| - n - 1))
  {
    PointNoSpace(s, n);
    StripNoSpace(s);
    WholeThenPoint(s, n);
    PointTail(s, n + 1, DigitsValue(s[..n]));
  }

  lemma PointNoSpace(s: string, n: nat)
    requires n < |s| && AllDigits(s[..n]) && s[n] == '.' && AllDigits(s[n + 1..])
    ensures forall k :: 0 <= k < |s| ==> !IsSpace(s[k])
  {
    forall k | 0 <= k < |s| ensures !IsSpace(s[k]) {
      if k < n {
        assert s[k] == s[..n][k];
      } else if k > n {
        assert s[k] == s[n + 1..][k - n - 1];
      }
    }
  }

  /** Reading digits up to a point at n leaves the reader after the point
      with their value. */
  lemma WholeThenPoint(s: string, n: nat)
    requires 1 <= n < |s| && AllDigits(s[..n]) && s[n] == '.'
    ensures FloatFrom(s, 0, Start) == FloatFrom(s, n + 1, Point(false, DigitsValue(s[..n]), 0, true))
  {
    assert s[..n][0] == s[0];
    assert s[..1][..0] == [];
    assert DigitsValue(s[..1]) == DigitValue(s[0]);
    assert FloatFrom(s, 0, Start) == FloatFrom(s, 1, Whole(false, DigitsValue(s[..1])));
    WholeDigitsUpTo(s, n, 1);
  }

  /** After the point, the rest of a digit string adds its value over ten
      to its length. */
  lemma PointTail(s: string, j: nat, m: nat)
    requires j <= |s| && AllDigits(s[j..])
    ensures FloatFrom(s, j, Point(false, m, 0, true)) == Some(m as real + Fraction(DigitsValue(s[j..]), |s| - j))
  {
    assert s[j..j] == [];
    assert m * Pow10(j - j) + DigitsValue(s[j..j]) == m;
    FractionDigits(s, j, m, j);
    ScaleDown(m, DigitsValue(s[j..]), |s| - j);
  }

  lemma ScaleDown(m: nat, d: nat, k: nat)
    ensures Scale((m * Pow10(k) + d) as real, -(k as int)) == m as real + Fraction(d, k)
  {
    var p := Pow10(k);
    CastMul(m, p);
    DivBack(m as real, d as real, p as real);
    if k == 0 {
      assert p == 1;
    }
  }

  lemma CastMul(m: nat, p: nat)
    ensures (m * p) as real == m as real * p as real
  {
  }

  lemma DivBack(x: real, y: real, p: real)
    requires p != 0.0
    ensures (x * p + y) / p == x + y / p
  {
  }

  lemma {:induction false} WholeDigitsUpTo(s: string, n: nat, i: nat)
    requires 1 <= i <= n <= |s| && AllDigits(s[..n])
    ensures AllDigits(s[..i])
    ensures FloatFrom(s, i, Whole(false, DigitsValue(s[..i]))) == FloatFrom(s, n, Whole(false, DigitsValue(s[..n])))
    decreases n - i
  {
    assert s[..i] == s[..n][..i];
    if i < n {
      assert s[..i + 1] == s[..n][..i + 1];
      assert s[..i + 1][..i] == s[..i];
      WholeDigitsUpTo(s, n, i + 1);
    }
  }

  // ----- string order -----------------------------------------------------

  /** Python's `<=` on str: lexicographic by code point, a prefix first. */
  predicate LexLe(a: string, b: string)
  {
    a == [] || (b != [] && (a[0] < b[0] || (a[0] == b[0] && LexLe(a[1..], b[1..]))))
  }

  lemma {:induction false} LexLeTotal(a: string, b: string)
    ensures LexLe(a, b) || LexLe(b, a)
  {
    if a != [] && b != [] && a[0] == b[0] {
      LexLeTotal(a[1..], b[1..]);
    }
  }

  lemma {:induction false} LexLeTrans(a: string, b: string, c: string)
    requires LexLe(a, b) && LexLe(b, c)
    ensures LexLe(a, c)
  {
    if a != [] && a[0] == b[0] && b[0] == c[0] {
      LexLeTrans(a[1..], b[1..], c[1..]);
    }
  }

  lemma {:induction false} LexLeAntisym(a: string, b: string)
    requires LexLe(a, b) && LexLe(b, a)
    ensures a == b
  {
    if a != [] && b != [] {
      LexLeAntisym(a[1..], b[1..]);
    }
  }
}
