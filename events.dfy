/** `parse_events_csv` of the visualiser: the run's timeline read from
    events.csv. Named events are looked up by their first occurrence, and
    the fault-injection parameters are read from the detail text of the
    first `injection_start` and `inject_wait_done` rows. */
module Events {
  import opened Base
  import opened Text

  /** One row of events.csv as pandas reads it. `ts` is what `parse_iso`
      makes of the ts cell, an instant in microseconds on a common clock,
      or None where `datetime.fromisoformat` raises; `details` is `str()`
      of the details cell. */
  datatype Row = Row(ts: Option<int>, event: string, details: string)

  /** The columns of the file and its rows. */
  datatype Csv = Csv(columns: set<string>, rows: seq<Row>)

  /** A row once its timestamp parsed. */
  datatype Event = Event(at: int, name: string, details: string)

  /** `InjectionInfo`. */
  datatype Injection = Injection(
    injectAtS: Option<real>,
    injLenS: Option<real>,
    injMode: Option<string>,
    startTs: Option<int>,
    endTs: Option<int>)

  const NoInjection: Injection := Injection(None, None, None, None, None)

  /** The `basics` dict: empty (NoBasics), or run_start_ts, fio_start_ts,
      fio_end_ts (instants standing for their isoformat text), fio_wall_s,
      inject_at_s and inj_len_s. */
  datatype Basics =
    | NoBasics
    | Basics(
        runStartTs: Option<int>,
        fioStartTs: Option<int>,
        fioEndTs: Option<int>,
        fioWallS: Option<real>,
        injectAtS: Option<real>,
        injLenS: Option<real>)

  /** `df["ts"].apply(parse_iso)`: every row with its instant, or the
      exception of a timestamp that does not parse. Without a details
      column, `row.get("details", "")` reads "". */
  function Timed(rows: seq<Row>, hasDetails: bool): (r: Result<seq<Event>>)
    ensures r.Ok? <==> forall i :: 0 <= i < |rows| ==> rows[i].ts.Some?
    ensures r.Ok? ==> |r.value| == |rows|
    ensures r.Ok? ==> forall i :: 0 <= i < |rows| ==>
      r.value[i] == Event(rows[i].ts.value, rows[i].event, if hasDetails then rows[i].details else "")
  {
    if rows == [] then Ok([])
    else
      var rest := Timed(rows[1..], hasDetails);
      assert forall i :: 1 <= i < |rows| ==> rows[i] == rows[1..][i - 1];
      if rows[0].ts.None? || rest.Raised? then Raised
      else
        var e := Event(rows[0].ts.value, rows[0].event, if hasDetails then rows[0].details else "");
        Ok([e] + rest.value)
  }

  /** Position of the first event named name (`df[df["event"] == name]`,
      first row). */
  function FirstOf(es: seq<Event>, name: string): (r: Option<nat>)
    ensures r.Some? ==> r.value < |es| && es[r.value].name == name
    ensures r.Some? ==> forall j :: 0 <= j < r.value ==> es[j].name != name
    ensures r.None? <==> forall j :: 0 <= j < |es| ==> es[j].name != name
  {
    if es == [] then None
    else if es[0].name == name then Some(0)
    else
      var r := FirstOf(es[1..], name);
      assert forall j :: 1 <= j < |es| ==> es[j] == es[1..][j - 1];
      if r.None? then None else Some(r.value + 1)
  }

  /** Position of the last event named name. */
  function LastOf(es: seq<Event>, name: string): (r: Option<nat>)
    ensures r.Some? ==> r.value < |es| && es[r.value].name == name
    ensures r.Some? ==> forall j :: r.value < j < |es| ==> es[j].name != name
    ensures r.None? <==> forall j :: 0 <= j < |es| ==> es[j].name != name
  {
    if es == [] then None
    else if es[|es| - 1].name == name then Some(|es| - 1)
    else
      var r := LastOf(es[..|es| - 1], name);
      assert forall j :: 0 <= j < |es| - 1 ==> es[j] == es[..|es| - 1][j];
      r
  }

  /** `first_ts(name)`. */
  function FirstTs(es: seq<Event>, name: string): Option<int>
  {
    match FirstOf(es, name)
    case None => None
    case Some(i) => Some(es[i].at)
  }

  /** `last_ts(name)`. */
  function LastTs(es: seq<Event>, name: string): Option<int>
  {
    match LastOf(es, name)
    case None => None
    case Some(i) => Some(es[i].at)
  }

  /** A character of `[a-zA-Z0-9_\-]`. */
  predicate ModeChar(c: char)
  {
    IsAsciiLetter(c) || IsDigit(c) || c == '_' || c == '-'
  }

  /** `mode=([a-zA-Z0-9_\-]+)` matches at i. */
  predicate ModeAt(s: string, i: nat)
  {
    At(s, i, "mode=") && i + 5 < |s| && ModeChar(s[i + 5])
  }

  /** `re.search(r"mode=([a-zA-Z0-9_\-]+)", s).group(1)`: the leftmost
      match, and the longest run of mode characters after it. */
  function Mode(s: string): (r: Option<string>)
    ensures r.None? <==> forall i :: 0 <= i < |s| ==> !ModeAt(s, i)
    ensures r.Some? ==> r.value != [] && forall k :: 0 <= k < |r.value| ==> ModeChar(r.value[k])
    ensures r.Some? ==> ModeFrom(s, 0).Some? && var i := ModeFrom(s, 0).value;
      && i + 5 + |r.value| <= |s| && r.value == s[i + 5..i + 5 + |r.value|]
      && (i + 5 + |r.value| == |s| || !ModeChar(s[i + 5 + |r.value|]))
  {
    match ModeFrom(s, 0)
    case None => None
    case Some(i) => Some(s[i + 5..Span(s, i + 5, ModeChar)])
  }

  /** The leftmost match at or after i. */
  function ModeFrom(s: string, i: nat): (r: Option<nat>)
    ensures r.Some? ==> i <= r.value && ModeAt(s, r.value)
    ensures r.Some? ==> forall k :: i <= k < r.value ==> !ModeAt(s, k)
    ensures r.None? <==> forall k :: i <= k < |s| ==> !ModeAt(s, k)
    decreases |s| - i
  {
    if i >= |s| then None
    else if ModeAt(s, i) then Some(i)
    else ModeFrom(s, i + 1)
  }

  /** `key(\d+)s` matches at i: key, one or more digits, then `s`. As `\d+`
      can only give back digits, the whole run of digits is the group. */
  predicate SecondsAt(s: string, i: nat, key: string)
  {
    At(s, i, key) && var j := Span(s, i + |key|, IsDigit); i + |key| < j < |s| && s[j] == 's'
  }

  /** `float(re.search(key + r"(\d+)s", s).group(1))`, None without a
      match. */
  function Seconds(s: string, key: string): (r: Option<real>)
    ensures r.None? <==> forall i :: 0 <= i < |s| ==> !SecondsAt(s, i, key)
    ensures r.Some? ==> SecondsFrom(s, 0, key).Some?
    ensures r.Some? ==> r.value == DigitsValue(DigitRun(s, SecondsFrom(s, 0, key).value + |key|)) as real
    ensures r.Some? ==> r.value >= 0.0
  {
    var f := SecondsFrom(s, 0, key);
    assert f.None? <==> forall i :: 0 <= i < |s| ==> !SecondsAt(s, i, key);
    if f.None? then None else Some(DigitsValue(DigitRun(s, f.value + |key|)) as real)
  }

  /** The run of digits that starts at j. */
  function DigitRun(s: string, j: nat): (ds: string)
    requires j <= |s|
    ensures AllDigits(ds) && j + |ds| <= |s| && ds == s[j..j + |ds|]
    ensures j + |ds| == |s| || !IsDigit(s[j + |ds|])
  {
    var e := Span(s, j, IsDigit);
    assert forall k :: 0 <= k < e - j ==> s[j..e][k] == s[j + k];
    s[j..e]
  }

  /** The leftmost match at or after i. */
  function SecondsFrom(s: string, i: nat, key: string): (r: Option<nat>)
    ensures r.Some? ==> i <= r.value && SecondsAt(s, r.value, key) && r.value + |key| < |s|
    ensures r.Some? ==> forall k :: i <= k < r.value ==> !SecondsAt(s, k, key)
    ensures r.None? <==> forall k :: i <= k < |s| ==> !SecondsAt(s, k, key)
    decreases |s| - i
  {
    if i >= |s| then None
    else if SecondsAt(s, i, key) then Some(i)
    else SecondsFrom(s, i + 1, key)
  }

  /** `(fio_end - fio_start).total_seconds()` when both are known. */
  function WallS(start: Option<int>, end: Option<int>): (r: Option<real>)
    ensures r.Some? <==> start.Some? && end.Some?
    ensures r.Some? ==> start.value as real + r.value * 1000000.0 == end.value as real
  {
    if start.Some? && end.Some? then Some((end.value - start.value) as real / 1000000.0) else None
  }

  /** The detail text of the event at p, if any. */
  function DetailsAt(es: seq<Event>, p: Option<nat>): Option<string>
  {
    if p.Some? && p.value < |es| then Some(es[p.value].details) else None
  }

  /** The basics and the injection record of a parsed timeline. */
  function Summarise(es: seq<Event>): (r: (Basics, Injection))
    ensures r.0.Basics?
    ensures r.0.runStartTs == FirstTs(es, "run_start") && r.0.fioStartTs == FirstTs(es, "fio_start")
    ensures r.1.startTs == FirstTs(es, "injection_start") && r.1.endTs == FirstTs(es, "injection_reverted")
    ensures r.0.injectAtS == r.1.injectAtS && r.0.injLenS == r.1.injLenS
    ensures r.1.injMode.Some? || r.1.injLenS.Some? ==> FirstOf(es, "injection_start").Some?
    ensures r.1.injectAtS.Some? ==> FirstOf(es, "inject_wait_done").Some?
    ensures FirstOf(es, "injection_start").Some? ==>
      var details := es[FirstOf(es, "injection_start").value].details;
      r.1.injMode == Mode(details) && r.1.injLenS == Seconds(details, "len=")
    ensures FirstOf(es, "inject_wait_done").Some? ==>
      r.1.injectAtS == Seconds(es[FirstOf(es, "inject_wait_done").value].details, "at=")
  {
    var fioStart := FirstTs(es, "fio_start");
    var fioEnd := FirstTs(es, "fio_end").OrElse(LastTs(es, "fio_end"));
    var startDetails := DetailsAt(es, FirstOf(es, "injection_start"));
    var waitDetails := DetailsAt(es, FirstOf(es, "inject_wait_done"));
    var mode := if startDetails.Some? then Mode(startDetails.value) else None;
    var len := if startDetails.Some? then Seconds(startDetails.value, "len=") else None;
    var at := if waitDetails.Some? then Seconds(waitDetails.value, "at=") else None;
    var info := Injection(at, len, mode, FirstTs(es, "injection_start"), FirstTs(es, "injection_reverted"));
    (Basics(FirstTs(es, "run_start"), fioStart, fioEnd, WallS(fioStart, fioEnd), at, len), info)
  }

  /** What `parse_events_csv` returns, less the frame itself (None: no
      events.csv). A file without a ts or an event column gives empty
      basics and an all-None injection record; a timestamp that does not
      parse raises. */
  function ParseEvents(csv: Option<Csv>): (r: Result<(Basics, Injection)>)
    ensures csv.None? ==> r == Ok((NoBasics, NoInjection))
    ensures csv.Some? && ("ts" !in csv.value.columns || "event" !in csv.value.columns) ==> r == Ok((NoBasics, NoInjection))
    ensures csv.Some? && "ts" in csv.value.columns && "event" in csv.value.columns ==>
      (r.Raised? <==> exists i :: 0 <= i < |csv.value.rows| && csv.value.rows[i].ts.None?)
    ensures r.Ok? && r.value.0.NoBasics? ==> csv.None? || "ts" !in csv.value.columns || "event" !in csv.value.columns
    ensures csv.Some? && "ts" in csv.value.columns && "event" in csv.value.columns && r.Ok? ==>
      && Timed(csv.value.rows, "details" in csv.value.columns).Ok?
      && r.value == Summarise(Timed(csv.value.rows, "details" in csv.value.columns).value)
  {
    if csv.None? || "ts" !in csv.value.columns || "event" !in csv.value.columns then Ok((NoBasics, NoInjection))
    else
      var es :- Timed(csv.value.rows, "details" in csv.value.columns);
      Ok(Summarise(es))
  }

  // ----- properties ---------------------------------------------------------

  /** The instant of the first event named name, when there is one. */
  lemma FirstTsIsFirst(es: seq<Event>, name: string)
    ensures FirstTs(es, name).Some? <==> exists j :: 0 <= j < |es| && es[j].name == name
    ensures FirstTs(es, name).Some? ==>
      exists i :: 0 <= i < |es| && es[i].name == name && es[i].at == FirstTs(es, name).value
        && forall j :: 0 <= j < i ==> es[j].name != name
  {
    if FirstOf(es, name).Some? {
      var i := FirstOf(es, name).value;
      assert es[i].name == name;
    }
  }

  /** `first_ts("fio_end") or last_ts("fio_end")` is always the first: an
      instant is truthy, and when there is no first there is no last. */
  lemma FioEndIsFirst(es: seq<Event>)
    ensures Summarise(es).0.fioEndTs == FirstTs(es, "fio_end")
  {
    if FirstOf(es, "fio_end").None? {
      assert LastOf(es, "fio_end").None?;
    }
  }

  /** fio_wall_s is known exactly when both fio_start and fio_end occur, and
      then it is the time from the first fio_start to the first fio_end. */
  lemma WallTime(es: seq<Event>)
    ensures var b := Summarise(es).0;
      b.fioWallS.Some? <==> (exists j :: 0 <= j < |es| && es[j].name == "fio_start") && (exists j :: 0 <= j < |es| && es[j].name == "fio_end")
    ensures var b := Summarise(es).0;
      b.fioWallS.Some? ==> FirstTs(es, "fio_start").value as real + b.fioWallS.value * 1000000.0 == FirstTs(es, "fio_end").value as real
  {
    FioEndIsFirst(es);
    FirstTsIsFirst(es, "fio_start");
    FirstTsIsFirst(es, "fio_end");
  }

  /** The detail text the injector writes, "mode=<m>;len=<n>s", gives back
      m and n. */
  lemma InjectionDetailsRoundTrip(m: string, n: nat)
    requires m != [] && forall k :: 0 <= k < |m| ==> ModeChar(m[k])
    ensures Mode("mode=" + m + ";len=" + NatToString(n) + "s") == Some(m)
    ensures Seconds("mode=" + m + ";len=" + NatToString(n) + "s", "len=") == Some(n as real)
  {
    var ds := NatToString(n);
    assert "mode=" + m + ";len=" + ds + "s" == "mode=" + m + (";len=" + ds + "s");
    ModeThenText(m, ";len=" + ds + "s");
    LenAfterMode(m, ds);
    NatToStringValue(n);
  }

  /** "mode=" and a run of mode characters ended by another character
      give that run. */
  lemma ModeThenText(m: string, tail: string)
    requires m != [] && forall k :: 0 <= k < |m| ==> ModeChar(m[k])
    requires tail != [] && !ModeChar(tail[0])
    ensures Mode("mode=" + m + tail) == Some(m)
  {
    var s := "mode=" + m + tail;
    assert s[..5] == "mode=";
    assert s[5] == m[0];
    assert ModeAt(s, 0);
    SpanStops(s, 5, 5 + |m|, ModeChar) by {
      forall k | 5 <= k < 5 + |m| ensures ModeChar(s[k]) {
        assert s[k] == m[k - 5];
      }
      assert s[5 + |m|] == tail[0];
    }
    assert s[5..5 + |m|] == m;
  }

  /** In "mode=<m>;len=<ds>s" the first `len=(\d+)s` is the one after the
      semicolon, and its group is ds. */
  lemma LenAfterMode(m: string, ds: string)
    requires forall k :: 0 <= k < |m| ==> ModeChar(m[k])
    requires ds != [] && AllDigits(ds)
    ensures Seconds("mode=" + m + ";len=" + ds + "s", "len=") == Some(DigitsValue(ds) as real)
  {
    var s := "mode=" + m + ";len=" + ds + "s";
    var p := 6 + |m|;
    assert s[p..p + 4] == "len=";
    SpanStops(s, p + 4, p + 4 + |ds|, IsDigit) by {
      forall k | p + 4 <= k < p + 4 + |ds| ensures IsDigit(s[k]) {
        assert s[k] == ds[k - p - 4];
      }
      assert s[p + 4 + |ds|] == 's';
    }
    assert SecondsAt(s, p, "len=");
    NoLenBefore(m, ";len=" + ds + "s");
    assert s == "mode=" + m + (";len=" + ds + "s");
    assert forall i :: 0 <= i < p ==> !SecondsAt(s, i, "len=");
    assert SecondsFrom(s, 0, "len=") == Some(p) by {
      SecondsFromSkips(s, 0, p, "len=");
    }
    assert s[p + 4..p + 4 + |ds|] == ds;
  }

  /** "len=" does not start within "mode=<m>" nor at the semicolon after
      it. */
  lemma NoLenBefore(m: string, tail: string)
    requires forall k :: 0 <= k < |m| ==> ModeChar(m[k])
    requires |tail| >= 4 && tail[..4] == ";len"
    ensures forall i :: 0 <= i < 6 + |m| ==> !At("mode=" + m + tail, i, "len=")
  {
    var s := "mode=" + m + tail;
    forall i | 0 <= i < 6 + |m|
      ensures !At(s, i, "len=")
    {
      if i + 4 <= |s| {
        if i < 2 {
          assert s[i] == "mode="[i];
          assert s[i..i + 4][0] == s[i];
        } else {
          if i + 3 < 5 + |m| {
            assert s[i + 3] == m[i + 3 - 5];
          } else {
            assert s[i + 3] == tail[i + 3 - 5 - |m|];
          }
          assert s[i..i + 4][3] == s[i + 3];
        }
      }
    }
  }

  /** The search passes over positions where nothing matches. */
  lemma {:induction false} SecondsFromSkips(s: string, i: nat, p: nat, key: string)
    requires i <= p && SecondsAt(s, p, key)
    requires forall k :: i <= k < p ==> !SecondsAt(s, k, key)
    ensures SecondsFrom(s, i, key) == Some(p)
    decreases p - i
  {
    if i < p {
      SecondsFromSkips(s, i + 1, p, key);
    }
  }

  /** "at=<n>s", as the inject_wait_done details read. */
  lemma WaitDetailsRoundTrip(n: nat)
    ensures Seconds("at=" + NatToString(n) + "s", "at=") == Some(n as real)
  {
    var ds := NatToString(n);
    var s := "at=" + ds + "s";
    assert s[..3] == "at=";
    SpanStops(s, 3, 3 + |ds|, IsDigit) by {
      forall k | 3 <= k < 3 + |ds| ensures IsDigit(s[k]) {
        assert s[k] == ds[k - 3];
      }
      assert s[3 + |ds|] == 's';
    }
    assert SecondsAt(s, 0, "at=");
    assert s[3..3 + |ds|] == ds;
    NatToStringValue(n);
  }

  /** Without the unit the pattern does not match: "len=<n>" gives None. */
  lemma LenNeedsUnit(n: nat)
    ensures Seconds("len=" + NatToString(n), "len=") == None
  {
    var ds := NatToString(n);
    var s := "len=" + ds;
    forall i | 0 < i < |s|
      ensures !At(s, i, "len=")
    {
      if i + 4 <= |s| {
        assert IsDigit(ds[i - 1]);
        assert s[i + 3] == ds[i - 1];
        assert s[i + 3] != '=';
        assert s[i..i + 4][3] == s[i + 3];
      }
    }
    SpanAll(s, 4, IsDigit) by {
      forall k | 4 <= k < |s| ensures IsDigit(s[k]) {
        assert s[k] == ds[k - 4];
      }
    }
    assert !SecondsAt(s, 0, "len=");
  }
}
