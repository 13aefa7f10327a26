/** `_pct_lookup` of the visualiser: a value of fio's `percentile` table
    (keys such as "95.000000") found by its exact key, or else under the
    parsable key numerically closest to the requested one, provided that key
    lies within 1e-6 of it. Unlike the aggregator's lookup, the keys are not
    sorted first, so on a tie the key met first in the table wins. */
module PctLookup {
  import opened Base
  import opened Text
  import opened Json
  import FioPercentile

  const Tolerance: real := 1.0 / 1000000.0

  /** `abs(float(k) - target)`, None where `float(k)` raises. */
  function KeyDist(k: string, target: real): Option<real>
  {
    match ParseFloat(k)
    case None => None
    case Some(v) => Some(FioPercentile.Dist(v, target))
  }

  /** The distance of every key of ms to the target, in table order. */
  function Dists(ms: seq<(string, Json)>, target: real): (ds: seq<Option<real>>)
    ensures |ds| == |ms|
  {
    if ms == [] then []
    else Dists(ms[..|ms| - 1], target) + [KeyDist(ms[|ms| - 1].0, target)]
  }

  /** Where the loop's `(best_k, best_d)` stand after the distances ds: the
      position of the candidate key and its distance. A key replaces the
      candidate only when strictly closer. */
  function BestOf(ds: seq<Option<real>>): (r: Option<(nat, real)>)
    ensures r.Some? ==> r.value.0 < |ds|
  {
    if ds == [] then None
    else
      var b := BestOf(ds[..|ds| - 1]);
      match ds[|ds| - 1]
      case None => b
      case Some(d) => if b.None? || d < b.value.1 then Some((|ds| - 1, d)) else b
  }

  /** The numeric fallback inside `try`: None when `float(key)` raises, when
      no key parses, or when the closest key is farther than 1e-6. */
  function Nearest(ms: seq<(string, Json)>, key: string): Option<Json>
  {
    match ParseFloat(key)
    case None => None
    case Some(t) =>
      match BestOf(Dists(ms, t))
      case None => None
      case Some(b) => if b.1 <= Tolerance then Some(Get(ms, ms[b.0].0, JNull)) else None
  }

  /** What `_pct_lookup(p, key)` returns: None for a falsy table, the stored
      value for a key present verbatim, else the numeric fallback. A table
      that is not a dict fails where the script applies `in`, `[]` or
      `.keys()` to it: `in` on a number raises TypeError, a string or list
      that contains the key raises TypeError at the subscript, and otherwise
      the AttributeError of `.keys()` is caught and gives None. */
  function Lookup(p: Json, key: string): (r: Result<Option<Json>>)
    ensures !Truthy(p) ==> r == Ok(None)
    ensures p.JObj? && HasKey(p.members, key) ==> r == Ok(Some(Get(p.members, key, JNull)))
    ensures r.Raised? <==> Truthy(p) && (p.JNum? || p.JBool? || (p.JStr? && Contains(p.s, key)) || (p.JArr? && JStr(key) in p.items))
  {
    if !Truthy(p) then Ok(None)
    else
      match p
      case JObj(ms) => if HasKey(ms, key) then Ok(Some(Get(ms, key, JNull))) else Ok(Nearest(ms, key))
      case JStr(s) => if Contains(s, key) then Raised else Ok(None)
      case JArr(items) => if JStr(key) in items then Raised else Ok(None)
      case _ => Raised
  }

  /** The lookup as the script runs it, with its scan for the closest key. */
  method PctLookup(p: Json, key: string) returns (r: Result<Option<Json>>)
    ensures r == Lookup(p, key)
  {
    if !Truthy(p) {
      return Ok(None);
    }
    match p
    case JObj(ms) =>
      if HasKey(ms, key) {
        return Ok(Some(Get(ms, key, JNull)));
      }
      var found := ScanNearest(ms, key);
      return Ok(found);
    case JStr(s) =>
      if Contains(s, key) {
        return Raised;
      }
      return Ok(None);
    case JArr(items) =>
      if JStr(key) in items {
        return Raised;
      }
      return Ok(None);
    case _ =>
      return Raised;
  }

  /** The `try` block: `float(key)`, the scan for the closest parsable key,
      and the tolerance test. */
  method ScanNearest(ms: seq<(string, Json)>, key: string) returns (found: Option<Json>)
    ensures found == Nearest(ms, key)
  {
    var target := ParseFloat(key);
    if target.None? {
      return None;
    }
    var bestK: Option<string> := None;
    var bestD: Option<real> := None;
    for i := 0 to |ms|
      invariant Candidate(ms, BestOf(Dists(ms[..i], target.value)), bestK, bestD)
    {
      assert ms[..i + 1][..i] == ms[..i];
      assert Dists(ms[..i + 1], target.value) == Dists(ms[..i], target.value) + [KeyDist(ms[i].0, target.value)];
      var v := ParseFloat(ms[i].0);
      if v.None? {
        continue;
      }
      var d := FioPercentile.Dist(v.value, target.value);
      if bestD.None? || d < bestD.value {
        bestD := Some(d);
        bestK := Some(ms[i].0);
      }
    }
    assert ms[..|ms|] == ms;
    if bestK.Some? && bestD.Some? && bestD.value <= Tolerance {
      return Some(Get(ms, bestK.value, JNull));
    }
    return None;
  }

  /** The loop's two variables hold the key at the candidate position and
      its distance, or both None. */
  predicate Candidate(ms: seq<(string, Json)>, b: Option<(nat, real)>, bestK: Option<string>, bestD: Option<real>)
  {
    if b.None? then bestK.None? && bestD.None?
    else b.value.0 < |ms| && bestK == Some(ms[b.value.0].0) && bestD == Some(b.value.1)
  }

  /** Position i holds the first of the least distances. */
  predicate FirstLeast(ds: seq<Option<real>>, i: nat, d: real)
    requires i < |ds|
  {
    && ds[i] == Some(d)
    && (forall j :: 0 <= j < i ==> ds[j].None? || ds[j].value > d)
    && (forall j :: 0 <= j < |ds| ==> ds[j].None? || ds[j].value >= d)
  }

  /** The j-th distance is that of the j-th key. */
  lemma {:induction false} DistsAt(ms: seq<(string, Json)>, target: real, j: nat)
    requires j < |ms|
    ensures Dists(ms, target)[j] == KeyDist(ms[j].0, target)
  {
    if j < |ms| - 1 {
      DistsAt(ms[..|ms| - 1], target, j);
    }
  }

  /** The scan finds nothing exactly when no key parses. */
  lemma {:induction false} BestNone(ds: seq<Option<real>>)
    ensures BestOf(ds).None? <==> forall j :: 0 <= j < |ds| ==> ds[j].None?
  {
    if ds != [] {
      var init := ds[..|ds| - 1];
      BestNone(init);
      assert forall j :: 0 <= j < |ds| - 1 ==> ds[j] == init[j];
    }
  }

  /** Otherwise it ends on the first key at the least distance. */
  lemma {:induction false} BestIsFirstLeast(ds: seq<Option<real>>)
    requires BestOf(ds).Some?
    ensures FirstLeast(ds, BestOf(ds).value.0, BestOf(ds).value.1)
  {
    var init := ds[..|ds| - 1];
    var last := |ds| - 1;
    assert forall j :: 0 <= j < last ==> ds[j] == init[j];
    var b := BestOf(init);
    if ds[last].Some? && (b.None? || ds[last].value < b.value.1) {
      if b.None? {
        BestNone(init);
      } else {
        BestIsFirstLeast(init);
      }
      assert FirstLeast(ds, last, ds[last].value);
    } else {
      BestIsFirstLeast(init);
      assert FirstLeast(ds, b.value.0, b.value.1);
    }
  }

  /** For a key not in the table that `float()` accepts: a value is found
      exactly when some key parses to within 1e-6 of it, and then it is the
      value under the first key at the least distance. */
  lemma ClosestWithinTolerance(ms: seq<(string, Json)>, key: string, t: real)
    requires ms != [] && !HasKey(ms, key) && ParseFloat(key) == Some(t)
    ensures Lookup(JObj(ms), key).Ok?
    ensures var ds := Dists(ms, t);
      Lookup(JObj(ms), key).value.Some? <==> exists j :: 0 <= j < |ds| && ds[j].Some? && ds[j].value <= Tolerance
    ensures var ds := Dists(ms, t);
      Lookup(JObj(ms), key).value.Some? ==>
        exists i, d :: 0 <= i < |ds| && FirstLeast(ds, i, d) && Lookup(JObj(ms), key).value.value == Get(ms, ms[i].0, JNull)
  {
    var ds := Dists(ms, t);
    BestNone(ds);
    var b := BestOf(ds);
    if b.Some? {
      BestIsFirstLeast(ds);
      if b.value.1 <= Tolerance {
        assert ds[b.value.0].value <= Tolerance;
      }
    }
  }

  /** A key that `float()` rejects changes nothing when the requested key
      parses: it cannot be the requested key, and the scan skips it. */
  lemma NonNumericKeySkipped(ms: seq<(string, Json)>, k: string, v: Json, key: string)
    requires ms != [] && ParseFloat(k).None? && ParseFloat(key).Some?
    ensures Lookup(JObj(ms + [(k, v)]), key) == Lookup(JObj(ms), key)
  {
    var t := ParseFloat(key).value;
    HasKeyAppend(ms, k, v, key);
    if HasKey(ms, key) {
      GetPrefix(ms, k, v, key);
    } else {
      NearestSkips(ms, k, v, key, t);
    }
  }

  /** Appending a member under another key leaves the keys present as they
      were. */
  lemma HasKeyAppend(ms: seq<(string, Json)>, k: string, v: Json, key: string)
    requires k != key
    ensures HasKey(ms + [(k, v)], key) == HasKey(ms, key)
  {
    var ms' := ms + [(k, v)];
    if HasKey(ms', key) {
      var i :| 0 <= i < |ms'| && ms'[i].0 == key;
      assert i < |ms| && ms[i].0 == key;
    }
    if HasKey(ms, key) {
      var i :| 0 <= i < |ms| && ms[i].0 == key;
      assert ms'[i].0 == key;
    }
  }

  /** The fallback skips an appended key that does not parse. */
  lemma NearestSkips(ms: seq<(string, Json)>, k: string, v: Json, key: string, t: real)
    requires ParseFloat(k).None? && ParseFloat(key) == Some(t)
    ensures Nearest(ms + [(k, v)], key) == Nearest(ms, key)
  {
    var ms' := ms + [(k, v)];
    assert ms'[..|ms'| - 1] == ms;
    assert Dists(ms', t) == Dists(ms, t) + [None];
    assert (Dists(ms, t) + [None])[..|ms|] == Dists(ms, t);
    var b := BestOf(Dists(ms, t));
    if b.Some? {
      assert ms'[b.value.0] == ms[b.value.0];
      assert HasKey(ms, ms[b.value.0].0);
      GetPrefix(ms, k, v, ms[b.value.0].0);
    }
  }

  /** Appending a member keeps `get` of any key already present, and of the
      appended key only when it is already present. */
  lemma {:induction false} GetPrefix(ms: seq<(string, Json)>, k: string, v: Json, key: string)
    requires HasKey(ms, key)
    ensures Get(ms + [(k, v)], key, JNull) == Get(ms, key, JNull)
  {
    if ms[0].0 != key {
      assert (ms + [(k, v)])[1..] == ms[1..] + [(k, v)];
      var i :| 0 <= i < |ms| && ms[i].0 == key;
      assert ms[1..][i - 1].0 == key;
      GetPrefix(ms[1..], k, v, key);
    }
  }

  /** Two keys equally close to the requested one and within 1e-6 of it:
      the strict `<` keeps the first, whatever their numeric order. */
  lemma TieKeepsFirst(k1: string, v1: Json, k2: string, v2: Json, key: string)
    requires k1 != key && k2 != key && k1 != k2
    requires ParseFloat(key).Some? && KeyDist(k1, ParseFloat(key).value).Some?
    requires KeyDist(k1, ParseFloat(key).value) == KeyDist(k2, ParseFloat(key).value)
    requires KeyDist(k1, ParseFloat(key).value).value <= Tolerance
    ensures Lookup(JObj([(k1, v1), (k2, v2)]), key) == Ok(Some(v1))
  {
    var ms := [(k1, v1), (k2, v2)];
    NearestTie(k1, v1, k2, v2, key);
    NeitherKey(k1, v1, k2, v2, key);
    LookupAbsent(ms, key);
    assert Get(ms, k1, JNull) == v1;
  }

  /** A key not present verbatim in a non-empty table goes to the
      fallback. */
  lemma LookupAbsent(ms: seq<(string, Json)>, key: string)
    requires ms != [] && !HasKey(ms, key)
    ensures Lookup(JObj(ms), key) == Ok(Nearest(ms, key))
  {
  }

  lemma NeitherKey(k1: string, v1: Json, k2: string, v2: Json, key: string)
    requires k1 != key && k2 != key
    ensures !HasKey([(k1, v1), (k2, v2)], key)
  {
    var ms := [(k1, v1), (k2, v2)];
    forall i | 0 <= i < |ms| ensures ms[i].0 != key {
    }
  }

  /** The fallback over two equally close keys takes the first one's value. */
  lemma NearestTie(k1: string, v1: Json, k2: string, v2: Json, key: string)
    requires ParseFloat(key).Some? && KeyDist(k1, ParseFloat(key).value).Some?
    requires KeyDist(k1, ParseFloat(key).value) == KeyDist(k2, ParseFloat(key).value)
    requires KeyDist(k1, ParseFloat(key).value).value <= Tolerance
    ensures Nearest([(k1, v1), (k2, v2)], key) == Some(Get([(k1, v1), (k2, v2)], k1, JNull))
  {
    var ms := [(k1, v1), (k2, v2)];
    var t := ParseFloat(key).value;
    var d := KeyDist(k1, t).value;
    TwoDists(k1, v1, k2, v2, t);
    assert Dists(ms, t) == [Some(d), Some(d)];
    TieBest(d);
  }

  lemma TwoDists(k1: string, v1: Json, k2: string, v2: Json, t: real)
    ensures Dists([(k1, v1), (k2, v2)], t) == [KeyDist(k1, t), KeyDist(k2, t)]
  {
    var ms := [(k1, v1), (k2, v2)];
    assert ms[..1] == [(k1, v1)] && ms[..1][..0] == [];
  }

  /** Of two equal distances the scan keeps the first. */
  lemma TieBest(d: real)
    ensures BestOf([Some(d), Some(d)]) == Some((0, d))
  {
    assert [Some(d), Some(d)][..1] == [Some(d)] && [Some(d)][..0] == [];
  }
}
