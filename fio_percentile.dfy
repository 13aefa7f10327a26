/** `fio_percentile_ns_to_ms`: a completion-latency percentile of an fio
    job, looked up in fio's `percentile` table (keys such as "99.000000",
    values in nanoseconds) and converted to milliseconds. */
module FioPercentile {
  import opened Base
  import opened Text
  import opened Json
  import Sorting

  function Dist(x: real, pct: real): real
  {
    if x >= pct then x - pct else pct - x
  }

  /** The keys `float()` accepts, as numbers, in table order. */
  function NumericKeys(ms: seq<(string, Json)>): (ks: seq<real>)
    ensures |ks| <= |ms|
  {
    if ms == [] then []
    else
      var ks := NumericKeys(ms[..|ms| - 1]);
      match ParseFloat(ms[|ms| - 1].0)
      case None => ks
      case Some(x) => ks + [x]
  }

  /** `min(keys, key=lambda x: abs(x - pct))`: a later key replaces the
      candidate only when strictly closer. */
  function Closest(ks: seq<real>, pct: real): (c: real)
    requires ks != []
    ensures c in ks
  {
    if |ks| == 1 then ks[0]
    else
      var c := Closest(ks[..|ks| - 1], pct);
      if Dist(ks[|ks| - 1], pct) < Dist(c, pct) then ks[|ks| - 1] else c
  }

  /** The key `min` returns is one of the keys, none is closer, and every
      key before it is strictly farther: the first of the closest. */
  lemma {:induction false} ClosestIsFirstNearest(ks: seq<real>, pct: real)
    requires ks != []
    ensures var c := Closest(ks, pct);
      exists i :: 0 <= i < |ks| && ks[i] == c && (forall j :: 0 <= j < i ==> Dist(ks[j], pct) > Dist(c, pct))
    ensures forall j :: 0 <= j < |ks| ==> Dist(Closest(ks, pct), pct) <= Dist(ks[j], pct)
  {
    if |ks| > 1 {
      var init := ks[..|ks| - 1];
      ClosestIsFirstNearest(init, pct);
      var c := Closest(init, pct);
      var i :| 0 <= i < |init| && init[i] == c && forall j :: 0 <= j < i ==> Dist(init[j], pct) > Dist(c, pct);
      var last := |ks| - 1;
      assert forall j :: 0 <= j < last ==> ks[j] == init[j];
      if Dist(ks[last], pct) < Dist(c, pct) {
        assert Closest(ks, pct) == ks[last];
        assert forall j :: 0 <= j < last ==> Dist(ks[j], pct) > Dist(Closest(ks, pct), pct);
      } else {
        assert Closest(ks, pct) == c;
        assert ks[i] == Closest(ks, pct);
        assert forall j :: 0 <= j < i ==> Dist(ks[j], pct) > Dist(Closest(ks, pct), pct);
      }
    } else {
      assert ks[0] == Closest(ks, pct);
    }
  }

  predicate RealLe(a: real, b: real)
  {
    a <= b
  }

  // ----- `f"{x:.6f}"` ------------------------------------------------------

  /** x rounded to an integer, halves to the even neighbour. */
  function RoundHalfEven(x: real): (n: int)
    ensures x - 1.0 / 2.0 <= n as real <= x + 1.0 / 2.0
    ensures (n as real - x == 1.0 / 2.0 || x - n as real == 1.0 / 2.0) ==> n % 2 == 0
  {
    var f := x.Floor;
    var d := x - f as real;
    if d < 1.0 / 2.0 then f
    else if d > 1.0 / 2.0 then f + 1
    else if f % 2 == 0 then f
    else f + 1
  }

  /** Zeros on the left up to six characters. */
  function Pad6(s: string): (r: string)
    ensures |s| <= 6 ==> |r| == 6
    decreases 6 - |s|
  {
    if |s| >= 6 then s else Pad6("0" + s)
  }

  /** `f"{x:.6f}"`: six decimals, rounded half to even; a negative value
      keeps its minus sign even when it rounds to zero. */
  function Format6(x: real): (r: string)
    ensures |r| >= 8 && r[|r| - 7] == '.' && AllDigits(r[|r| - 6..])
    ensures r[0] == '-' <==> x < 0.0
  {
    var a := if x < 0.0 then -x else x;
    var n := RoundHalfEven(a * 1000000.0);
    var digits := Fixed6(n / 1000000, n % 1000000);
    Fixed6Shape(n / 1000000, n % 1000000);
    MicroDigits(n % 1000000);
    if x < 0.0 then "-" + digits else digits
  }

  /** The whole part, a point, and the millionths on six places. */
  function Fixed6(whole: nat, micros: nat): string
  {
    NatToString(whole) + "." + Pad6(NatToString(micros))
  }

  // ----- the lookup ----------------------------------------------------------

  /** The fallback loop: the value of the first member whose key parses to a
      number within 1e-6 of the requested pct (not of the closest key). */
  function NearRequested(ms: seq<(string, Json)>, pct: real): (r: Option<Json>)
    ensures r.Some? ==> exists i :: 0 <= i < |ms| && ms[i].1 == r.value && Near(ms[i].0, pct)
                                  && forall j :: 0 <= j < i ==> !Near(ms[j].0, pct)
    ensures r.None? ==> forall i :: 0 <= i < |ms| ==> !Near(ms[i].0, pct)
  {
    if ms == [] then None
    else if Near(ms[0].0, pct) then Some(ms[0].1)
    else
      var r := NearRequested(ms[1..], pct);
      assert forall i :: 1 <= i < |ms| ==> ms[i] == ms[1..][i - 1];
      if r.Some? then
        var i :| 0 <= i < |ms[1..]| && ms[1..][i].1 == r.value && Near(ms[1..][i].0, pct)
                 && forall j :: 0 <= j < i ==> !Near(ms[1..][j].0, pct);
        NearShift(ms, pct, i, r.value);
        r
      else r
  }

  predicate Near(k: string, pct: real)
  {
    ParseFloat(k).Some? && Dist(ParseFloat(k).value, pct) < 1.0 / 1000000.0
  }

  /** `float(ns) / 1e6`, where any exception gives None. */
  function NsToMs(ns: Json): Option<real>
  {
    match ToFloat(ns)
    case None => None
    case Some(x) => Some(x / 1000000.0)
  }

  /** What `fio_percentile_ns_to_ms(p, pct)` returns: None for an empty table
      or one without numeric keys; an AttributeError for a non-empty value
      that is not a dict; otherwise the value stored under the six-decimal
      spelling of the closest key (the smaller one on a tie), else under the
      first key within 1e-6 of pct, in milliseconds. */
  function PercentileMs(p: Json, pct: real): (r: Result<Option<real>>)
    ensures !Truthy(p) ==> r == Ok(None)
    ensures r.Raised? <==> Truthy(p) && !p.JObj?
    ensures p.JObj? && NumericKeys(p.members) == [] ==> r == Ok(None)
  {
    if !Truthy(p) then Ok(None)
    else if !p.JObj? then Raised
    else
      var ks := NumericKeys(p.members);
      if ks == [] then Ok(None)
      else
        Answer(p.members, Format6(Closest(Sorting.Sort(ks, RealLe), pct)), pct)
  }

  /** The value under key, else the fallback's, converted; None when
      neither is found. */
  function Answer(ms: seq<(string, Json)>, key: string, pct: real): (r: Result<Option<real>>)
    ensures r.Ok?
    ensures Get(ms, key, JNull) != JNull ==> r == Ok(NsToMs(Get(ms, key, JNull)))
    ensures Get(ms, key, JNull) == JNull && NearRequested(ms, pct).None? ==> r == Ok(None)
  {
    var ns := Get(ms, key, JNull);
    var ns := if ns == JNull then NearRequested(ms, pct).OrElse(Some(JNull)).value else ns;
    if ns == JNull then Ok(None) else Ok(NsToMs(ns))
  }

  /** The first loop: every key `float()` accepts, in table order. */
  method CollectKeys(ms: seq<(string, Json)>) returns (keys: seq<real>)
    ensures keys == NumericKeys(ms)
  {
    keys := [];
    for i := 0 to |ms|
      invariant keys == NumericKeys(ms[..i])
    {
      assert ms[..i + 1][..i] == ms[..i];
      var x := ParseFloat(ms[i].0);
      if x.Some? {
        keys := keys + [x.value];
      }
    }
    assert ms[..|ms|] == ms;
  }

  /** `min(keys, key=...)`: a scan that replaces the candidate only on a
      strictly smaller distance. */
  method ClosestKey(keys: seq<real>, pct: real) returns (closest: real)
    requires keys != []
    ensures closest == Closest(keys, pct)
  {
    closest := keys[0];
    for i := 1 to |keys|
      invariant closest == Closest(keys[..i], pct)
    {
      assert keys[..i + 1][..i] == keys[..i];
      if Dist(keys[i], pct) < Dist(closest, pct) {
        closest := keys[i];
      }
    }
    assert keys[..|keys|] == keys;
  }

  /** The first near key of the table's tail, one place further on. */
  lemma NearShift(ms: seq<(string, Json)>, pct: real, i: nat, v: Json)
    requires ms != [] && !Near(ms[0].0, pct) && i < |ms| - 1
    requires ms[1..][i].1 == v && Near(ms[1..][i].0, pct)
    requires forall j :: 0 <= j < i ==> !Near(ms[1..][j].0, pct)
    ensures ms[i + 1].1 == v && Near(ms[i + 1].0, pct)
    ensures forall j :: 0 <= j < i + 1 ==> !Near(ms[j].0, pct)
  {
    forall j | 0 <= j < i + 1 ensures !Near(ms[j].0, pct) {
      if j > 0 {
        assert ms[j] == ms[1..][j - 1];
      }
    }
  }

  /** The fallback loop, which stops at the first key within 1e-6 of pct. */
  method FindNear(ms: seq<(string, Json)>, pct: real) returns (found: Option<Json>)
    ensures found == NearRequested(ms, pct)
  {
    found := None;
    var j := 0;
    while j < |ms|
      invariant j <= |ms|
      invariant NearRequested(ms, pct) == NearRequested(ms[j..], pct)
    {
      if Near(ms[j].0, pct) {
        return Some(ms[j].1);
      }
      j := j + 1;
    }
  }

  /** The lookup, step by step as the script runs it. */
  method PercentileNsToMs(p: Json, pct: real) returns (r: Result<Option<real>>)
    ensures r == PercentileMs(p, pct)
  {
    if !Truthy(p) {
      return Ok(None);
    }
    if !p.JObj? {
      return Raised;
    }
    var keys := CollectKeys(p.members);
    if keys == [] {
      return Ok(None);
    }
    keys := Sorting.Sort(keys, RealLe);
    var closest := ClosestKey(keys, pct);
    var ns := Get(p.members, Format6(closest), JNull);
    if ns == JNull {
      var found := FindNear(p.members, pct);
      if found.Some? {
        ns := found.value;
      }
    }
    if ns == JNull {
      return Ok(None);
    }
    return Ok(NsToMs(ns));
  }

  lemma RealLeTotal()
    ensures Sorting.TotalPreorder(RealLe)
  {
  }

  /** The key chosen is at the least distance from pct, and on a tie it is
      the smaller of the two: the keys are sorted before `min` keeps the
      first. */
  lemma ClosestSmallestOnTie(ms: seq<(string, Json)>, pct: real)
    requires NumericKeys(ms) != []
    ensures var ks := NumericKeys(ms);
      var c := Closest(Sorting.Sort(ks, RealLe), pct);
      && c in ks
      && (forall x :: x in ks ==> Dist(c, pct) <= Dist(x, pct))
      && (forall x :: x in ks && Dist(x, pct) == Dist(c, pct) ==> c <= x)
  {
    var ks := NumericKeys(ms);
    var sorted := Sorting.Sort(ks, RealLe);
    RealLeTotal();
    Sorting.SortSorted(ks, RealLe);
    var c := Closest(sorted, pct);
    ClosestIsFirstNearest(sorted, pct);
    var i :| 0 <= i < |sorted| && sorted[i] == c && forall j :: 0 <= j < i ==> Dist(sorted[j], pct) > Dist(c, pct);
    assert multiset(sorted) == multiset(ks);
    forall x | x in ks
      ensures Dist(c, pct) <= Dist(x, pct)
      ensures Dist(x, pct) == Dist(c, pct) ==> c <= x
    {
      assert x in multiset(sorted);
      var j :| 0 <= j < |sorted| && sorted[j] == x;
      if Dist(x, pct) == Dist(c, pct) {
        FirstNearestSmallest(sorted, pct, i, j);
      }
    }
    assert c in multiset(ks);
  }

  /** In ascending keys, the first key at the least distance is the
      smallest of the keys at that distance. */
  lemma FirstNearestSmallest(sorted: seq<real>, pct: real, i: nat, j: nat)
    requires Sorting.SortedBy(sorted, RealLe)
    requires i < |sorted| && j < |sorted|
    requires forall k :: 0 <= k < i ==> Dist(sorted[k], pct) > Dist(sorted[i], pct)
    requires Dist(sorted[j], pct) == Dist(sorted[i], pct)
    ensures sorted[i] <= sorted[j]
  {
    assert j >= i;
    if j > i {
      assert RealLe(sorted[i], sorted[j]);
    }
  }

  lemma RoundWhole(n: int)
    ensures RoundHalfEven(n as real) == n
  {
    assert (n as real).Floor == n;
  }

  /** A whole number prints with six zero decimals. */
  lemma Format6Whole(k: nat)
    ensures Format6(k as real) == NatToString(k) + ".000000"
  {
    var n := k * 1000000;
    var x := k as real;
    CastMul(k, 1000000);
    RoundWhole(n);
    Format6Nonneg(x, n);
    assert n / 1000000 == k && n % 1000000 == 0;
    Fixed6Zero(k);
  }

  lemma Fixed6Zero(k: nat)
    ensures Fixed6(k, 0) == NatToString(k) + ".000000"
  {
    PadZero();
    var w := NatToString(k);
    assert w + "." + "000000" == w + ".000000";
  }

  lemma Format6Nonneg(x: real, n: int)
    requires x >= 0.0 && n == RoundHalfEven(x * 1000000.0)
    ensures n >= 0 && Format6(x) == Fixed6(n / 1000000, n % 1000000)
  {
  }

  lemma PadZero()
    ensures Pad6(NatToString(0)) == "000000"
  {
    assert NatToString(0) == "0";
    assert "0" + "00000" == "000000";
    assert "0" + "0000" == "00000";
    assert "0" + "000" == "0000";
    assert "0" + "00" == "000";
    assert "0" + "0" == "00";
    assert Pad6("00000") == "000000";
    assert Pad6("0000") == "000000";
    assert Pad6("000") == "000000";
    assert Pad6("00") == "000000";
  }

  /** The spelling fio uses, `<k>.000000`, reads back as k. */
  lemma ReadFormatted(k: nat)
    ensures ParseFloat(NatToString(k) + ".000000") == Some(k as real)
  {
    var w, z := NatToString(k), "000000";
    var s := w + ".000000";
    var n := |w|;
    assert s[..n] == w;
    assert s[n + 1..] == z;
    assert s[n] == '.';
    ZerosValue(z);
    NatToStringValue(k);
    ParseFloatPointAt(s, n);
    NoFraction(|s| - n - 1);
  }

  lemma NoFraction(k: nat)
    ensures Fraction(0, k) == 0.0
  {
  }

  /** A table with one key in fio's spelling answers every pct with that
      key's value, however far the key is from pct: the closest key is
      taken without any tolerance. */
  lemma FormattedKeyAnswersAnyPct(k: nat, v: Json, pct: real)
    requires v != JNull
    ensures PercentileMs(JObj([(NatToString(k) + ".000000", v)]), pct) == Ok(NsToMs(v))
  {
    var key := NatToString(k) + ".000000";
    var ms := [(key, v)];
    ReadFormatted(k);
    SingleKey(ms, k as real, pct);
    Format6Whole(k);
    assert Answer(ms, key, pct) == Ok(NsToMs(v));
  }

  /** A table of one numeric key is answered by the lookup of that key's
      six-decimal spelling. */
  lemma SingleKey(ms: seq<(string, Json)>, x: real, pct: real)
    requires |ms| == 1 && ParseFloat(ms[0].0) == Some(x)
    ensures PercentileMs(JObj(ms), pct) == Answer(ms, Format6(x), pct)
  {
    OneNumericKey(ms, x);
    assert Sorting.Sort([x], RealLe) == [x];
    TableAnswer(ms, [x], pct);
  }

  lemma OneNumericKey(ms: seq<(string, Json)>, x: real)
    requires |ms| == 1 && ParseFloat(ms[0].0) == Some(x)
    ensures NumericKeys(ms) == [x]
  {
    assert ms[..0] == [];
  }

  /** A key written without decimals (`"99"`) is never found by the first
      lookup, which asks for `"99.000000"`; only the fallback, which
      compares against the requested pct, finds it, so it counts only when
      it equals pct to within 1e-6. */
  lemma PlainKeyOnlyAtItsOwnPct(k: nat, v: Json, pct: real)
    requires v != JNull
    ensures PercentileMs(JObj([(NatToString(k), v)]), pct)
         == if Dist(k as real, pct) < 1.0 / 1000000.0 then Ok(NsToMs(v)) else Ok(None)
  {
    var key := NatToString(k);
    var ms := [(key, v)];
    ParseFloatDigits(key);
    NatToStringValue(k);
    SingleKey(ms, k as real, pct);
    Format6Whole(k);
    assert Get(ms, NatToString(k) + ".000000", JNull) == JNull;
    assert ms[1..] == [];
    assert Near(key, pct) <==> Dist(k as real, pct) < 1.0 / 1000000.0;
  }

  /** fio's table `{"50.000000": 1000000, "99.000000": 5000000}` gives 5 ms
      at the 99th percentile. */
  lemma ExampleP99()
    ensures PercentileMs(JObj([("50.000000", JNum(1000000.0)), ("99.000000", JNum(5000000.0))]), 99.0)
         == Ok(Some(5.0))
  {
    var k50, k99 := "50.000000", "99.000000";
    var ms := [(k50, JNum(1000000.0)), (k99, JNum(5000000.0))];
    SpelledKeys();
    ReadFormattedLiteral(50, k50);
    ReadFormattedLiteral(99, k99);
    TwoKeys(ms, 50.0, 99.0, 99.0);
    ClosestTwo(50.0, 99.0);
    Format6Whole(99);
    AnswerSecond(ms, k99);
  }

  lemma SpelledKeys()
    ensures NatToString(50) + ".000000" == "50.000000"
    ensures NatToString(99) + ".000000" == "99.000000"
  {
    assert NatToString(5) == "5" && NatToString(9) == "9";
    assert NatToString(50) == "50" && NatToString(99) == "99";
  }

  lemma ClosestTwo(x: real, y: real)
    requires x < y
    ensures Closest([x, y], y) == y
  {
    assert [x, y][..1] == [x];
  }

  lemma AnswerSecond(ms: seq<(string, Json)>, key: string)
    requires ms == [("50.000000", JNum(1000000.0)), (key, JNum(5000000.0))] && key == "99.000000"
    ensures Answer(ms, key, 99.0) == Ok(Some(5.0))
  {
    assert ms[0].0 != key;
    assert Get(ms, key, JNull) == JNum(5000000.0);
  }

  lemma ReadFormattedLiteral(k: nat, key: string)
    requires key == NatToString(k) + ".000000"
    ensures ParseFloat(key) == Some(k as real)
  {
    ReadFormatted(k);
  }

  /** A table of two numeric keys in ascending order is answered by the
      lookup of the closer one's spelling. */
  lemma TwoKeys(ms: seq<(string, Json)>, x: real, y: real, pct: real)
    requires |ms| == 2 && ParseFloat(ms[0].0) == Some(x) && ParseFloat(ms[1].0) == Some(y) && x <= y
    ensures PercentileMs(JObj(ms), pct) == Answer(ms, Format6(Closest([x, y], pct)), pct)
  {
    TwoNumericKeys(ms, x, y);
    SortTwo(x, y);
    TableAnswer(ms, [x, y], pct);
  }

  /** Unfolds the lookup of a dict whose numeric keys are ks. */
  lemma TableAnswer(ms: seq<(string, Json)>, ks: seq<real>, pct: real)
    requires ks != [] && NumericKeys(ms) == ks
    ensures PercentileMs(JObj(ms), pct) == Answer(ms, Format6(Closest(Sorting.Sort(ks, RealLe), pct)), pct)
  {
    assert ms != [];
    assert Truthy(JObj(ms));
  }

  lemma TwoNumericKeys(ms: seq<(string, Json)>, x: real, y: real)
    requires |ms| == 2 && ParseFloat(ms[0].0) == Some(x) && ParseFloat(ms[1].0) == Some(y)
    ensures NumericKeys(ms) == [x, y]
  {
    assert ms[..1][..0] == [] && ms[..1] == [ms[0]];
  }

  lemma SortTwo(x: real, y: real)
    requires x <= y
    ensures Sorting.Sort([x, y], RealLe) == [x, y]
  {
    assert [x, y][..1] == [x] && [x][..0] == [];
  }

  // ----- the keys, in order --------------------------------------------------

  /** What one member adds to the keys: its number, if its key parses. */
  function KeyOf(m: (string, Json)): seq<real>
  {
    if ParseFloat(m.0).Some? then [ParseFloat(m.0).value] else []
  }

  /** The last member adds its key, if it parses, after those of the others. */
  lemma NumericKeysStep(ms: seq<(string, Json)>)
    requires ms != []
    ensures NumericKeys(ms) == NumericKeys(ms[..|ms| - 1]) + KeyOf(ms[|ms| - 1])
  {
  }

  lemma ConcatLast(a: seq<(string, Json)>, b: seq<(string, Json)>)
    requires b != []
    ensures NumericKeys(a + b) == NumericKeys(a + b[..|b| - 1]) + KeyOf(b[|b| - 1])
  {
    NumericKeysStep(a + b);
    assert (a + b)[..|a + b| - 1] == a + b[..|b| - 1];
  }

  /** The member's key is a number, x. */
  predicate KeyIs(m: (string, Json), x: real)
  {
    ParseFloat(m.0) == Some(x)
  }

  /** A number is among the collected keys exactly when some member's key
      parses to it. */
  lemma {:induction false} NumericKeysMembers(ms: seq<(string, Json)>, x: real)
    ensures x in NumericKeys(ms) <==> exists i :: 0 <= i < |ms| && KeyIs(ms[i], x)
  {
    if ms != [] {
      var last := |ms| - 1;
      var init := ms[..last];
      NumericKeysStep(ms);
      NumericKeysMembers(init, x);
      if x in NumericKeys(ms) {
        MemberFound(ms, init, x);
      }
      if exists i :: 0 <= i < |ms| && KeyIs(ms[i], x) {
        MemberKept(ms, init, x);
      }
    }
  }

  lemma MemberFound(ms: seq<(string, Json)>, init: seq<(string, Json)>, x: real)
    requires ms != [] && init == ms[..|ms| - 1]
    requires x in NumericKeys(init) ==> exists i :: 0 <= i < |init| && KeyIs(init[i], x)
    requires NumericKeys(ms) == NumericKeys(init) + KeyOf(ms[|ms| - 1])
    requires x in NumericKeys(ms)
    ensures exists i :: 0 <= i < |ms| && KeyIs(ms[i], x)
  {
    if x in NumericKeys(init) {
      var i :| 0 <= i < |init| && KeyIs(init[i], x);
      assert ms[i] == init[i];
    } else {
      KeyOfIs(ms[|ms| - 1], x);
    }
  }

  lemma KeyOfIs(m: (string, Json), x: real)
    requires x in KeyOf(m)
    ensures KeyIs(m, x)
  {
  }

  lemma MemberKept(ms: seq<(string, Json)>, init: seq<(string, Json)>, x: real)
    requires ms != [] && init == ms[..|ms| - 1]
    requires (exists i :: 0 <= i < |init| && KeyIs(init[i], x)) ==> x in NumericKeys(init)
    requires NumericKeys(ms) == NumericKeys(init) + KeyOf(ms[|ms| - 1])
    requires exists i :: 0 <= i < |ms| && KeyIs(ms[i], x)
    ensures x in NumericKeys(ms)
  {
    var i :| 0 <= i < |ms| && KeyIs(ms[i], x);
    if i < |ms| - 1 {
      assert KeyIs(init[i], x);
    } else {
      assert KeyOf(ms[i]) == [x];
    }
  }

  /** The keys of two tables one after the other are the keys of the first
      followed by those of the second: table order is kept. */
  lemma {:induction false} NumericKeysConcat(a: seq<(string, Json)>, b: seq<(string, Json)>)
    ensures NumericKeys(a + b) == NumericKeys(a) + NumericKeys(b)
    decreases |b|
  {
    if b == [] {
      assert a + b == a;
    } else {
      var init, last := b[..|b| - 1], KeyOf(b[|b| - 1]);
      NumericKeysConcat(a, init);
      ConcatLast(a, b);
      NumericKeysStep(b);
      assert NumericKeys(a + b) == (NumericKeys(a) + NumericKeys(init)) + last;
      Associative(NumericKeys(a), NumericKeys(init), last);
    }
  }

  lemma Associative(x: seq<real>, y: seq<real>, z: seq<real>)
    ensures (x + y) + z == x + (y + z)
  {
  }

  // ----- fio's spelling of a key ---------------------------------------------

  /** A number below ten to the k has at most k digits. */
  lemma {:induction false} NatToStringLength(n: nat, k: nat)
    requires 1 <= k && n < Pow10(k)
    ensures |NatToString(n)| <= k
  {
    if n >= 10 {
      assert k >= 2;
      assert n / 10 < Pow10(k - 1);
      NatToStringLength(n / 10, k - 1);
    }
  }

  /** A zero in front of digits changes neither their kind nor their value. */
  lemma {:induction false} LeadingZero(s: string)
    requires AllDigits(s)
    ensures AllDigits("0" + s) && DigitsValue("0" + s) == DigitsValue(s)
    decreases |s|
  {
    var z := "0" + s;
    assert forall i :: 1 <= i < |z| ==> z[i] == s[i - 1];
    if s != [] {
      var init := s[..|s| - 1];
      LeadingZero(init);
      assert z[..|z| - 1] == "0" + init;
    }
  }

  /** Zero padding keeps the digits' value and makes them six. */
  lemma {:induction false} PadDigits(s: string)
    requires AllDigits(s) && |s| <= 6
    ensures |Pad6(s)| == 6 && AllDigits(Pad6(s)) && DigitsValue(Pad6(s)) == DigitsValue(s)
    decreases 6 - |s|
  {
    if |s| < 6 {
      LeadingZero(s);
      PadDigits("0" + s);
    }
  }

  /** The micro part of `:.6f` is six digits worth micros. */
  lemma MicroDigits(micros: nat)
    requires micros < 1000000
    ensures var d := Pad6(NatToString(micros));
      |d| == 6 && AllDigits(d) && DigitsValue(d) == micros
  {
    assert Pow10(6) == 1000000;
    NatToStringLength(micros, 6);
    NatToStringValue(micros);
    PadDigits(NatToString(micros));
  }

  /** What `:.6f` prints: digits, a point and six digits. */
  lemma Fixed6Shape(whole: nat, micros: nat)
    requires micros < 1000000
    ensures var s := Fixed6(whole, micros); var n := |NatToString(whole)|;
      && |s| == n + 7 && s[..n] == NatToString(whole) && s[n] == '.'
      && s[n + 1..] == Pad6(NatToString(micros))
  {
    MicroDigits(micros);
  }

  /** `float()` reads a six-decimal spelling back as whole plus micros
      millionths. */
  lemma ReadFixed6(whole: nat, micros: nat)
    requires micros < 1000000
    ensures ParseFloat(Fixed6(whole, micros)) == Some(whole as real + micros as real / 1000000.0)
  {
    var s := Fixed6(whole, micros);
    var n := |NatToString(whole)|;
    Fixed6Shape(whole, micros);
    MicroDigits(micros);
    NatToStringValue(whole);
    assert DigitsValue(s[..n]) == whole && DigitsValue(s[n + 1..]) == micros;
    ParseFloatPointAt(s, n);
    assert |s| - n - 1 == 6;
    Micros(micros);
  }

  /** Six decimals are millionths. */
  lemma Micros(d: nat)
    ensures Fraction(d, 6) == d as real / 1000000.0
  {
    assert Pow10(6) == 1000000;
  }

  /** `:.6f` of whole plus micros millionths is that spelling again: the
      number is already on six decimals, so nothing is rounded. */
  lemma FormatFixed6(whole: nat, micros: nat)
    requires micros < 1000000
    ensures Format6(whole as real + micros as real / 1000000.0) == Fixed6(whole, micros)
  {
    var x := whole as real + micros as real / 1000000.0;
    var n := whole * 1000000 + micros;
    CastMul(whole, 1000000);
    assert x * 1000000.0 == n as real;
    RoundWhole(n);
    Format6Nonneg(x, n);
    assert n / 1000000 == whole && n % 1000000 == micros;
  }

  /** fio's keys round-trip: a key written with six decimals parses to a
      number whose `:.6f` is the key itself. */
  lemma SpellingRoundTrip(whole: nat, micros: nat)
    requires micros < 1000000
    ensures ParseFloat(Fixed6(whole, micros)).Some?
    ensures Format6(ParseFloat(Fixed6(whole, micros)).value) == Fixed6(whole, micros)
  {
    ReadFixed6(whole, micros);
    FormatFixed6(whole, micros);
  }

  /** Every numeric key of the table is the `:.6f` spelling of its own
      value, as in the tables fio writes. */
  predicate Spelled(ms: seq<(string, Json)>)
  {
    forall i :: 0 <= i < |ms| && ParseFloat(ms[i].0).Some? ==> Format6(ParseFloat(ms[i].0).value) == ms[i].0
  }

  /** A numeric key holds a value. */
  predicate Valued(ms: seq<(string, Json)>)
  {
    forall i :: 0 <= i < |ms| && ParseFloat(ms[i].0).Some? ==> ms[i].1 != JNull
  }

  /** On a table spelled as fio spells it, the lookup answers with the value
      stored under the closest key (the smaller on a tie), in milliseconds:
      the first `get` finds it and the fallback is never needed. */
  lemma ClosestKeyAnswers(ms: seq<(string, Json)>, pct: real)
    requires NumericKeys(ms) != [] && Spelled(ms) && Valued(ms)
    ensures var c := Closest(Sorting.Sort(NumericKeys(ms), RealLe), pct);
      && HasKey(ms, Format6(c))
      && Get(ms, Format6(c), JNull) != JNull
      && PercentileMs(JObj(ms), pct) == Ok(NsToMs(Get(ms, Format6(c), JNull)))
  {
    var ks := NumericKeys(ms);
    var c := Closest(Sorting.Sort(ks, RealLe), pct);
    ClosestSmallestOnTie(ms, pct);
    NumericKeysMembers(ms, c);
    var i :| 0 <= i < |ms| && KeyIs(ms[i], c);
    assert ms[i].0 == Format6(c);
    assert HasKey(ms, Format6(c));
    var v := Get(ms, Format6(c), JNull);
    var j :| 0 <= j < |ms| && ms[j] == (Format6(c), v) && forall k :: 0 <= k < j ==> ms[k].0 != Format6(c);
    assert ParseFloat(ms[j].0).Some?;
    TableAnswer(ms, ks, pct);
  }

  /** A table written by fio, with its keys spelled from (whole, micros)
      pairs, meets the spelling condition. */
  lemma {:induction false} FioTableSpelled(ms: seq<(string, Json)>, spell: seq<(nat, nat)>)
    requires |spell| == |ms|
    requires forall i :: 0 <= i < |ms| ==> spell[i].1 < 1000000 && ms[i].0 == Fixed6(spell[i].0, spell[i].1)
    ensures Spelled(ms)
  {
    forall i | 0 <= i < |ms| && ParseFloat(ms[i].0).Some?
      ensures Format6(ParseFloat(ms[i].0).value) == ms[i].0
    {
      SpellingRoundTrip(spell[i].0, spell[i].1);
    }
  }
}
