/** The per-run assembly of the E002 aggregator's `main`: for every run
    directory a profile row with the run's network parameters, the fio rows
    of its reports stamped with those parameters, and a net row when the
    diagnostics held any statistic; then the sort of the profile table. */
module Profiles {
  import opened Base
  import opened Text
  import opened Json
  import Assignments
  import EnvFile
  import Duration
  import SocketStats
  import Nstat
  import Qdisc
  import Preflight
  import FioJobs
  import Sorting

  /** What one run directory holds: its path and name, the text of
      profile.env, the text of each optional file when it exists, and the
      JSON reports under fio/ in sorted order, each with its path. */
  datatype Run = Run(
    runDir: string,
    profileId: string,
    env: string,
    preflight: Option<string>,
    qdiscAfter: Option<string>,
    sysNet: Option<string>,
    fioReports: seq<(string, Json)>)

  /** One row of profile_table.csv; `qdisc` holds the qdisc columns in
      order, keys as written. */
  datatype ProfileRow = ProfileRow(
    profileId: string,
    runDir: string,
    iface: Option<string>,
    usbipTarget: Option<string>,
    kernel: Option<string>,
    fioVersion: Option<string>,
    mountLine: Option<string>,
    delayMs: Option<real>,
    jitterMs: Option<real>,
    lossPct: Option<real>,
    limitPkts: Option<nat>,
    qdisc: seq<(string, Qdisc.Value)>)

  /** The `net` dict: profile_id, then the socket statistics, then the
      nstat counters (the three key sets are disjoint). */
  datatype NetRow = NetRow(profileId: string, ss: SocketStats.SsStats, counters: map<string, int>)

  /** `len(net)`. */
  function NetSize(n: NetRow): nat
  {
    1 + SocketStats.Count(n.ss) + |n.counters|
  }

  /** The three tables `main` writes before joining them. */
  datatype Tables = Tables(profiles: seq<ProfileRow>, fio: seq<FioJobs.FioRow>, net: seq<NetRow>)

  // ----- one run's parameters ----------------------------------------------

  /** The dict `parse_env` returns for the text of profile.env. */
  function EnvOf(text: string): map<string, string>
  {
    Assignments.Apply(EnvFile.Entries(SplitLines(text)))
  }

  /** `env.get(key, "")`. */
  function EnvGet(env: map<string, string>, key: string): string
  {
    if key in env then env[key] else ""
  }

  /** `loss = raw.strip().rstrip("%")`, then `float(loss) if loss else
      None`: a ValueError when what is left is not a number. */
  function LossPct(raw: string): (r: Result<Option<real>>)
    ensures r == Ok(None) <==> TrimEndChar(Strip(raw), '%') == []
    ensures r.Raised? <==> TrimEndChar(Strip(raw), '%') != [] && ParseFloat(TrimEndChar(Strip(raw), '%')).None?
  {
    var loss := TrimEndChar(Strip(raw), '%');
    if loss == [] then Ok(None)
    else
      match ParseFloat(loss)
      case None => Raised
      case Some(x) => Ok(Some(x))
  }

  /** `int(raw) if raw.isdigit() else None`. */
  function LimitPkts(raw: string): (r: Option<nat>)
    ensures r.Some? <==> raw != [] && AllDigits(raw)
  {
    if raw != [] && AllDigits(raw) then Some(DigitsValue(raw)) else None
  }

  /** `a or b` over two optional strings: None and "" are falsy. */
  function OrElse(a: Option<string>, b: Option<string>): (r: Option<string>)
    ensures r == a || r == b
  {
    if a.Some? && a.value != [] then a else b
  }

  /** `{f"qdisc_{k}": v for k, v in qstats.items()}` over keys that already
      carry the prefix. */
  function Reprefixed(items: seq<(string, Qdisc.Value)>): (r: seq<(string, Qdisc.Value)>)
    ensures |r| == |items|
    ensures forall i :: 0 <= i < |items| ==>
      r[i].1 == items[i].1 && |r[i].0| == 6 + |items[i].0| && r[i].0[..6] == "qdisc_" && r[i].0[6..] == items[i].0
  {
    seq(|items|, i requires 0 <= i < |items| => ("qdisc_" + items[i].0, items[i].1))
  }

  /** The stamp of a run's fio rows. */
  function StampOf(p: ProfileRow): FioJobs.Stamp
  {
    FioJobs.Stamp(p.profileId, p.delayMs, p.jitterMs, p.lossPct)
  }

  /** `r["profile_id"] = ...` and the three assignments after it, on every
      row. */
  function Stamped(rows: seq<FioJobs.FioRow>, st: FioJobs.Stamp): (r: seq<FioJobs.FioRow>)
    ensures |r| == |rows|
    ensures forall i :: 0 <= i < |rows| ==> r[i] == rows[i].(stamp := Some(st))
  {
    seq(|rows|, i requires 0 <= i < |rows| => rows[i].(stamp := Some(st)))
  }

  /** The fio rows of a run's reports, in order, each stamped; the first
      report `parse_fio_json` raises on stops the script. */
  function RunFio(reports: seq<(string, Json)>, st: FioJobs.Stamp): (r: Result<seq<FioJobs.FioRow>>)
    ensures r.Ok? ==> forall i :: 0 <= i < |r.value| ==> r.value[i].stamp == Some(st)
  {
    if reports == [] then Ok([])
    else
      var last := reports[|reports| - 1];
      var init :- RunFio(reports[..|reports| - 1], st);
      var rows :- FioJobs.FioRows(last.1, last.0);
      Ok(init + Stamped(rows, st))
  }

  /** What preflight.txt says, all None without the file. */
  function PreflightOf(run: Run): Preflight.Report
  {
    if run.preflight.Some? then Preflight.Parse(run.preflight.value) else Preflight.Missing
  }

  /** What qdisc_after.txt says, nothing without the file. */
  function QdiscOf(run: Run): Qdisc.QdiscStats
  {
    if run.qdiscAfter.Some? then Qdisc.ParseQdiscStats(run.qdiscAfter.value) else Qdisc.QdiscStats(None, None)
  }

  /** The profile row of a run, or the ValueError of its LOSS value. The
      netem parameters come from profile.env (DELAY and JITTER converted to
      milliseconds, LOSS as a percentage, LIMIT as a packet count), the
      interface, target, kernel and mount line from preflight.txt, and the
      qdisc columns from qdisc_after.txt. */
  function ProfileOf(run: Run): (r: Result<ProfileRow>)
    ensures r.Raised? <==> LossPct(EnvGet(EnvOf(run.env), "LOSS")).Raised?
    ensures r.Ok? ==> r.value.profileId == run.profileId && r.value.runDir == run.runDir
    ensures r.Ok? ==>
      && r.value.delayMs == Duration.ToMs(EnvGet(EnvOf(run.env), "DELAY"))
      && r.value.jitterMs == Duration.ToMs(EnvGet(EnvOf(run.env), "JITTER"))
      && Ok(r.value.lossPct) == LossPct(EnvGet(EnvOf(run.env), "LOSS"))
      && r.value.limitPkts == LimitPkts(EnvGet(EnvOf(run.env), "LIMIT"))
    ensures r.Ok? ==>
      && r.value.iface == PreflightOf(run).iface && r.value.usbipTarget == PreflightOf(run).usbipTarget
      && r.value.kernel == PreflightOf(run).kernel && r.value.mountLine == PreflightOf(run).mountLine
      && r.value.qdisc == Reprefixed(Qdisc.Items(QdiscOf(run)))
  {
    var env := EnvOf(run.env);
    var loss :- LossPct(EnvGet(env, "LOSS"));
    var pf := PreflightOf(run);
    var qstats := QdiscOf(run);
    Ok(ProfileRow(
      run.profileId, run.runDir, pf.iface, pf.usbipTarget, pf.kernel,
      OrElse(pf.fioVersion, if "fio_version" in env then Some(env["fio_version"]) else None),
      pf.mountLine,
      Duration.ToMs(EnvGet(env, "DELAY")), Duration.ToMs(EnvGet(env, "JITTER")), loss,
      LimitPkts(EnvGet(env, "LIMIT")),
      Reprefixed(Qdisc.Items(qstats))))
  }

  /** The `net` dict of a run: the socket statistics and the nstat
      counters of sys_net.txt, nothing but the profile_id without it. */
  function NetOf(run: Run): (n: NetRow)
    ensures n.profileId == run.profileId
    ensures run.sysNet.None? ==> n.ss == SocketStats.NoStats && n.counters == map[]
    ensures run.sysNet.Some? ==>
      n.ss == SocketStats.Stats(run.sysNet.value) && n.counters == Nstat.Counters(run.sysNet.value)
    ensures n.counters.Keys <= Nstat.Wanted
  {
    match run.sysNet
    case None => NetRow(run.profileId, SocketStats.NoStats, map[])
    case Some(text) => NetRow(run.profileId, SocketStats.Stats(text), Nstat.Counters(text))
  }

  /** What one run adds to the three tables. */
  datatype RunRows = RunRows(profile: ProfileRow, fio: seq<FioJobs.FioRow>, net: Option<NetRow>)

  /** A run's rows: every fio row carries the run's profile_id and the
      delay, jitter and loss of its profile row (the keys the summary join
      matches on); the net row, with the run's profile_id, is there exactly
      when sys_net.txt gave a socket statistic or an nstat counter. */
  function RunOutput(run: Run): (r: Result<RunRows>)
    ensures r.Raised? <==> ProfileOf(run).Raised? || RunFio(run.fioReports, StampOf(ProfileOf(run).value)).Raised?
    ensures r.Ok? ==> r.value.profile == ProfileOf(run).value
    ensures r.Ok? ==> forall i :: 0 <= i < |r.value.fio| ==>
      r.value.fio[i].stamp == Some(FioJobs.Stamp(run.profileId, r.value.profile.delayMs,
                                                 r.value.profile.jitterMs, r.value.profile.lossPct))
    ensures r.Ok? ==> (r.value.net.Some? <==> run.sysNet.Some? && NetSize(NetOf(run)) > 1)
    ensures r.Ok? && r.value.net.Some? ==> r.value.net.value.profileId == run.profileId
    ensures r.Ok? ==> WellStamped(r.value)
  {
    var profile :- ProfileOf(run);
    var fio :- RunFio(run.fioReports, StampOf(profile));
    var net := NetOf(run);
    Ok(RunRows(profile, fio, if NetSize(net) > 1 then Some(net) else None))
  }

  /** What a run adds hangs together: its fio rows carry its profile row's
      stamp and its net row its profile_id. */
  ghost predicate WellStamped(o: RunRows)
  {
    && (forall i :: 0 <= i < |o.fio| ==> o.fio[i].stamp == Some(StampOf(o.profile)))
    && (o.net.Some? ==> o.net.value.profileId == o.profile.profileId)
  }

  /** The three lists `main` accumulates, given what each run adds in turn;
      the first run that raises stops the script. */
  function Combine(outs: seq<Result<RunRows>>): (r: Result<Tables>)
    ensures r.Ok? ==> |r.value.profiles| == |outs|
    ensures r.Ok? ==> forall i :: 0 <= i < |outs| ==> outs[i].Ok? && r.value.profiles[i] == outs[i].value.profile
  {
    if outs == [] then Ok(Tables([], [], []))
    else
      var init :- Combine(outs[..|outs| - 1]);
      var one :- outs[|outs| - 1];
      Ok(Tables(init.profiles + [one.profile], init.fio + one.fio,
                init.net + (if one.net.Some? then [one.net.value] else [])))
  }

  /** Each run's output, in the order the runs were found. */
  function Outputs(runs: seq<Run>): (outs: seq<Result<RunRows>>)
    ensures |outs| == |runs| && forall i :: 0 <= i < |runs| ==> outs[i] == RunOutput(runs[i])
  {
    seq(|runs|, i requires 0 <= i < |runs| => RunOutput(runs[i]))
  }

  /** The tables of all runs: one profile row per run, in order. */
  function AllRuns(runs: seq<Run>): (r: Result<Tables>)
    ensures r.Ok? ==> |r.value.profiles| == |runs|
    ensures r.Ok? ==> forall i :: 0 <= i < |runs| ==> r.value.profiles[i].profileId == runs[i].profileId
  {
    Combine(Outputs(runs))
  }

  /** Every fio row is stamped with the identity and parameters of some
      profile row, and every net row names some profile row's profile_id:
      the left joins of the summary find a partner for each. */
  ghost predicate Joined(t: Tables)
  {
    && (forall i :: 0 <= i < |t.fio| ==> exists k :: 0 <= k < |t.profiles| && t.fio[i].stamp == Some(StampOf(t.profiles[k])))
    && (forall i :: 0 <= i < |t.net| ==> exists k :: 0 <= k < |t.profiles| && t.net[i].profileId == t.profiles[k].profileId)
  }

  /** The accumulated tables are joined: each run adds its profile row
      together with the rows stamped from it. */
  lemma {:induction false} CombineJoined(outs: seq<Result<RunRows>>)
    requires Combine(outs).Ok?
    requires forall i :: 0 <= i < |outs| && outs[i].Ok? ==> WellStamped(outs[i].value)
    ensures Joined(Combine(outs).value)
  {
    if outs != [] {
      CombineJoined(outs[..|outs| - 1]);
      JoinedStep(Combine(outs[..|outs| - 1]).value, outs[|outs| - 1].value);
    }
  }

  lemma AllRunsJoined(runs: seq<Run>)
    requires AllRuns(runs).Ok?
    ensures Joined(AllRuns(runs).value)
  {
    CombineJoined(Outputs(runs));
  }

  /** Adding a run's rows keeps the tables joined. */
  lemma JoinedStep(t: Tables, one: RunRows)
    requires Joined(t)
    requires forall i :: 0 <= i < |one.fio| ==> one.fio[i].stamp == Some(StampOf(one.profile))
    requires one.net.Some? ==> one.net.value.profileId == one.profile.profileId
    ensures Joined(Tables(t.profiles + [one.profile], t.fio + one.fio,
                          t.net + (if one.net.Some? then [one.net.value] else [])))
  {
    var u := Tables(t.profiles + [one.profile], t.fio + one.fio,
                    t.net + (if one.net.Some? then [one.net.value] else []));
    var n := |t.profiles|;
    assert u.profiles[n] == one.profile;
    forall i | 0 <= i < |u.fio|
      ensures exists k :: 0 <= k < |u.profiles| && u.fio[i].stamp == Some(StampOf(u.profiles[k]))
    {
      if i < |t.fio| {
        var k :| 0 <= k < |t.profiles| && t.fio[i].stamp == Some(StampOf(t.profiles[k]));
        assert u.profiles[k] == t.profiles[k];
      } else {
        assert u.fio[i] == one.fio[i - |t.fio|];
      }
    }
    forall i | 0 <= i < |u.net|
      ensures exists k :: 0 <= k < |u.profiles| && u.net[i].profileId == u.profiles[k].profileId
    {
      if i < |t.net| {
        var k :| 0 <= k < |t.profiles| && t.net[i].profileId == t.profiles[k].profileId;
        assert u.profiles[k] == t.profiles[k];
      }
    }
  }

  // ----- the profile table's order -----------------------------------------

  /** `sort_values(["delay_ms", "profile_id"], na_position="last")`: by
      delay, a missing delay after every present one, then by profile_id. */
  predicate ProfileLe(a: ProfileRow, b: ProfileRow)
  {
    match (a.delayMs, b.delayMs)
    case (Some(x), Some(y)) => x < y || (x == y && LexLe(a.profileId, b.profileId))
    case (Some(_), None) => true
    case (None, Some(_)) => false
    case (None, None) => LexLe(a.profileId, b.profileId)
  }

  /** The tables `main` writes: a DataFrame built from no profile row has no
      delay_ms column, so the sort raises KeyError when no run was found. */
  function Aggregate(runs: seq<Run>): (r: Result<Tables>)
    ensures runs == [] ==> r.Raised?
  {
    var t :- AllRuns(runs);
    if t.profiles == [] then Raised
    else Ok(t.(profiles := Sorting.Sort(t.profiles, ProfileLe)))
  }

  lemma ProfileLeTotal()
    ensures Sorting.TotalPreorder(ProfileLe)
  {
    forall a: ProfileRow, b: ProfileRow
      ensures ProfileLe(a, b) || ProfileLe(b, a)
    {
      LexLeTotal(a.profileId, b.profileId);
    }
    forall a: ProfileRow, b: ProfileRow, c: ProfileRow | ProfileLe(a, b) && ProfileLe(b, c)
      ensures ProfileLe(a, c)
    {
      if LexLe(a.profileId, b.profileId) && LexLe(b.profileId, c.profileId) {
        LexLeTrans(a.profileId, b.profileId, c.profileId);
      }
    }
  }

  /** The profile table holds one row per run, ordered by delay with missing
      delays last, and by profile_id among equal delays. */
  lemma AggregateOrder(runs: seq<Run>)
    requires Aggregate(runs).Ok?
    ensures var ps := Aggregate(runs).value.profiles;
      && |ps| == |runs|
      && multiset(ps) == multiset(AllRuns(runs).value.profiles)
      && forall i, j :: 0 <= i < j < |ps| ==>
           && (ps[i].delayMs.None? ==> ps[j].delayMs.None?)
           && (ps[i].delayMs.Some? && ps[j].delayMs.Some? ==> ps[i].delayMs.value <= ps[j].delayMs.value)
           && (ps[i].delayMs == ps[j].delayMs ==> LexLe(ps[i].profileId, ps[j].profileId))
  {
    var t := AllRuns(runs).value;
    assert Aggregate(runs).value.profiles == Sorting.Sort(t.profiles, ProfileLe);
    SortedProfiles(t.profiles);
  }

  /** The sorted profile table: by delay, missing delays last, then by
      profile_id. */
  lemma SortedProfiles(profiles: seq<ProfileRow>)
    ensures var ps := Sorting.Sort(profiles, ProfileLe);
      forall i, j :: 0 <= i < j < |ps| ==>
        && (ps[i].delayMs.None? ==> ps[j].delayMs.None?)
        && (ps[i].delayMs.Some? && ps[j].delayMs.Some? ==> ps[i].delayMs.value <= ps[j].delayMs.value)
        && (ps[i].delayMs == ps[j].delayMs ==> LexLe(ps[i].profileId, ps[j].profileId))
  {
    var ps := Sorting.Sort(profiles, ProfileLe);
    ProfileLeTotal();
    Sorting.SortSorted(profiles, ProfileLe);
    forall i, j | 0 <= i < j < |ps|
      ensures ProfileLe(ps[i], ps[j])
    {
    }
  }

  /** Sorting the profile table keeps it joined to the other two. */
  lemma AggregateJoined(runs: seq<Run>)
    requires Aggregate(runs).Ok?
    ensures Joined(Aggregate(runs).value)
  {
    var t := AllRuns(runs).value;
    AllRunsJoined(runs);
    assert Aggregate(runs).value == t.(profiles := Sorting.Sort(t.profiles, ProfileLe));
    ReorderedJoined(t, Sorting.Sort(t.profiles, ProfileLe));
  }

  /** Reordering the profile table keeps the tables joined. */
  lemma ReorderedJoined(t: Tables, ps: seq<ProfileRow>)
    requires Joined(t) && multiset(ps) == multiset(t.profiles)
    ensures Joined(t.(profiles := ps))
  {
    var u := t.(profiles := ps);
    forall i | 0 <= i < |u.fio|
      ensures exists k :: 0 <= k < |u.profiles| && u.fio[i].stamp == Some(StampOf(u.profiles[k]))
    {
      var j :| 0 <= j < |t.profiles| && t.fio[i].stamp == Some(StampOf(t.profiles[j]));
      var j' := Moved(t.profiles, ps, j);
      assert u.fio[i].stamp == Some(StampOf(u.profiles[j']));
    }
    assert forall i :: 0 <= i < |u.fio| ==> exists k :: 0 <= k < |u.profiles| && u.fio[i].stamp == Some(StampOf(u.profiles[k]));
    assert u.fio == t.fio && u.profiles == ps;
    forall i | 0 <= i < |u.net|
      ensures exists k :: 0 <= k < |u.profiles| && u.net[i].profileId == u.profiles[k].profileId
    {
      var j :| 0 <= j < |t.profiles| && t.net[i].profileId == t.profiles[j].profileId;
      var j' := Moved(t.profiles, ps, j);
      assert u.net[i].profileId == u.profiles[j'].profileId;
    }
  }

  /** Where a row of the profile table went in a reordering of it. */
  lemma Moved(before: seq<ProfileRow>, after: seq<ProfileRow>, k: nat) returns (k': nat)
    requires multiset(after) == multiset(before) && k < |before|
    ensures k' < |after| && after[k'] == before[k]
  {
    assert before[k] in multiset(after);
    k' :| 0 <= k' < |after| && after[k'] == before[k];
  }


  // ----- the run parameters ------------------------------------------------

  /** A LOSS value written as a whole number with a percent sign reads back
      as that number. */
  lemma LossRoundTrip(n: nat)
    ensures LossPct(NatToString(n) + "%") == Ok(Some(n as real))
  {
    var w := NatToString(n);
    var s := w + "%";
    assert s[..|s| - 1] == w;
    assert !IsSpace(s[0]) by { assert s[0] == w[0]; }
    StripFixed(s);
    assert TrimEndChar(w, '%') == w by { assert w[|w| - 1] != '%'; }
    assert TrimEndChar(s, '%') == w;
    ParseFloatDigits(w);
    NatToStringValue(n);
  }

  /** An empty LOSS, or one of percent signs only, gives no loss. */
  lemma LossAbsent()
    ensures LossPct("") == Ok(None)
    ensures LossPct(" %% ") == Ok(None)
  {
    assert Strip(" %% ") == "%%" by {
      StripSurrounded(" ", "%%", " ");
      assert " " + "%%" + " " == " %% ";
    }
    assert TrimEndChar("%%", '%') == [] by {
      assert "%%"[..1] == "%";
      assert "%"[..0] == [];
    }
  }

  /** A blank between the number and the percent sign is accepted, since
      `float` strips it. */
  lemma LossBlankBeforePercent()
    ensures LossPct("2.5 %") == Ok(Some(2.5))
  {
    StripFixed("2.5 %");
    assert TrimEndChar("2.5 %", '%') == "2.5 " by {
      assert "2.5 %"[..4] == "2.5 ";
    }
    BlankAfterNumber();
  }

  lemma BlankAfterNumber()
    ensures ParseFloat("2.5 ") == Some(2.5)
  {
    StripSurrounded([], "2.5", " ");
    assert [] + "2.5" + " " == "2.5 ";
    ParseFloatPointAt("2.5", 1);
    assert "2.5"[..1] == "2" && "2.5"[2..] == "5";
  }

  /** A LOSS that is not a number stops the script. */
  lemma LossNotNumber()
    ensures LossPct("lots%").Raised?
  {
    StripFixed("lots%");
    assert TrimEndChar("lots%", '%') == "lots" by {
      assert "lots%"[..4] == "lots";
    }
    assert ParseFloat("lots") == None by { StripFixed("lots"); }
  }

  /** LIMIT reads back any whole number written in decimal. */
  lemma LimitRoundTrip(n: nat)
    ensures LimitPkts(NatToString(n)) == Some(n)
  {
    NatToStringValue(n);
  }

  /** `isdigit` rejects a sign, an exponent and the empty string. */
  lemma LimitExamples()
    ensures LimitPkts("") == None && LimitPkts("-1") == None && LimitPkts("1e3") == None
  {
    assert !IsDigit("-1"[0]);
    assert !IsDigit("1e3"[1]);
  }

  /** Every qdisc column of the profile table carries the prefix twice:
      `qdisc_qdisc_type`, `qdisc_qdisc_sent_bytes` and so on. */
  lemma QdiscDoublePrefix(st: Qdisc.QdiscStats)
    ensures var r := Reprefixed(Qdisc.Items(st));
      forall i :: 0 <= i < |r| ==> |r[i].0| >= 12 && r[i].0[..12] == "qdisc_qdisc_"
  {
    var items := Qdisc.Items(st);
    var r := Reprefixed(items);
    forall i | 0 <= i < |r|
      ensures |r[i].0| >= 12 && r[i].0[..12] == "qdisc_qdisc_"
    {
      ItemKeyPrefixed(st, i);
      assert r[i].0 == "qdisc_" + items[i].0;
      assert r[i].0[..12] == "qdisc_" + items[i].0[..6];
    }
  }

  lemma ItemKeyPrefixed(st: Qdisc.QdiscStats, i: nat)
    requires i < |Qdisc.Items(st)|
    ensures |Qdisc.Items(st)[i].0| >= 6 && Qdisc.Items(st)[i].0[..6] == "qdisc_"
  {
  }

  /** fio_version comes from preflight.txt when it found a non-empty one,
      from profile.env otherwise. */
  lemma FioVersionSource(run: Run)
    requires ProfileOf(run).Ok?
    ensures var env := EnvOf(run.env);
      var pf := PreflightOf(run);
      ProfileOf(run).value.fioVersion
        == if pf.fioVersion.Some? && pf.fioVersion.value != [] then pf.fioVersion
           else if "fio_version" in env then Some(env["fio_version"]) else None
  {
  }

  // ----- the loops of `main` -----------------------------------------------

  /** The loop over a run's reports: parse each, stamp each row in place
      and append it. */
  method CollectFio(reports: seq<(string, Json)>, st: FioJobs.Stamp) returns (r: Result<seq<FioJobs.FioRow>>)
    ensures r == RunFio(reports, st)
  {
    var fio: seq<FioJobs.FioRow> := [];
    for k := 0 to |reports|
      invariant RunFio(reports[..k], st) == Ok(fio)
    {
      var parsed := FioJobs.ParseFioJson(reports[k].1, reports[k].0);
      if parsed.Raised? {
        RunFioStepRaised(reports, st, k);
        RunFioPrefixRaised(reports, st, k + 1);
        return Raised;
      }
      var stamped := StampRows(parsed.value, st);
      RunFioStep(reports, st, k, fio, parsed.value);
      fio := fio + stamped;
    }
    assert reports[..|reports|] == reports;
    return Ok(fio);
  }

  /** The inner loop: stamp each row of one report. */
  method StampRows(rows: seq<FioJobs.FioRow>, st: FioJobs.Stamp) returns (out: seq<FioJobs.FioRow>)
    ensures out == Stamped(rows, st)
  {
    out := [];
    for m := 0 to |rows|
      invariant out == Stamped(rows[..m], st)
    {
      var row := rows[m].(stamp := Some(st));
      assert Stamped(rows[..m + 1], st) == Stamped(rows[..m], st) + [row];
      out := out + [row];
    }
    assert rows[..|rows|] == rows;
  }

  /** A report that parses adds its stamped rows. */
  lemma RunFioStep(reports: seq<(string, Json)>, st: FioJobs.Stamp, k: nat, fio: seq<FioJobs.FioRow>, rows: seq<FioJobs.FioRow>)
    requires k < |reports| && RunFio(reports[..k], st) == Ok(fio)
    requires FioJobs.FioRows(reports[k].1, reports[k].0) == Ok(rows)
    ensures RunFio(reports[..k + 1], st) == Ok(fio + Stamped(rows, st))
  {
    assert reports[..k + 1][..k] == reports[..k];
  }

  /** A report that raises stops the loop. */
  lemma RunFioStepRaised(reports: seq<(string, Json)>, st: FioJobs.Stamp, k: nat)
    requires k < |reports| && FioJobs.FioRows(reports[k].1, reports[k].0).Raised?
    ensures RunFio(reports[..k + 1], st).Raised?
  {
    assert reports[..k + 1][..k] == reports[..k];
  }

  lemma {:induction false} RunFioPrefixRaised(reports: seq<(string, Json)>, st: FioJobs.Stamp, n: nat)
    requires n <= |reports| && RunFio(reports[..n], st).Raised?
    ensures RunFio(reports, st).Raised?
    decreases |reports| - n
  {
    if n < |reports| {
      assert reports[..n + 1][..n] == reports[..n];
      RunFioPrefixRaised(reports, st, n + 1);
    } else {
      assert reports[..n] == reports;
    }
  }

  /** One iteration of `main`'s loop over the runs. */
  method CollectRun(run: Run) returns (r: Result<RunRows>)
    ensures r == RunOutput(run)
  {
    var env := EnvFile.ParseEnv(run.env);
    var profile := CollectProfile(run, env);
    if profile.Raised? {
      return Raised;
    }
    var net := CollectNet(run);
    var fio := CollectFio(run.fioReports, StampOf(profile.value));
    if fio.Raised? {
      return Raised;
    }
    var netRow := if NetSize(net) > 1 then Some(net) else None;
    return Ok(RunRows(profile.value, fio.value, netRow));
  }

  /** The profile row of a run from its parsed profile.env. */
  method CollectProfile(run: Run, env: map<string, string>) returns (r: Result<ProfileRow>)
    requires env == EnvOf(run.env)
    ensures r == ProfileOf(run)
  {
    var delayMs := Duration.ToMs(EnvGet(env, "DELAY"));
    var jitterMs := Duration.ToMs(EnvGet(env, "JITTER"));
    var loss := LossPct(EnvGet(env, "LOSS"));
    if loss.Raised? {
      return Raised;
    }
    var limit := LimitPkts(EnvGet(env, "LIMIT"));

    var pf := Preflight.Missing;
    if run.preflight.Some? {
      pf := Preflight.Parse(run.preflight.value);
    }
    var qstats := Qdisc.QdiscStats(None, None);
    if run.qdiscAfter.Some? {
      qstats := Qdisc.ParseQdiscStats(run.qdiscAfter.value);
    }
    var envVersion := if "fio_version" in env then Some(env["fio_version"]) else None;
    return Ok(ProfileRow(
      run.profileId, run.runDir, pf.iface, pf.usbipTarget, pf.kernel,
      OrElse(pf.fioVersion, envVersion), pf.mountLine,
      delayMs, jitterMs, loss.value, limit, Reprefixed(Qdisc.Items(qstats))));
  }

  /** The `net` dict of a run: the socket statistics and the counters of
      sys_net.txt when it exists. */
  method CollectNet(run: Run) returns (net: NetRow)
    ensures net == NetOf(run)
  {
    net := NetRow(run.profileId, SocketStats.NoStats, map[]);
    if run.sysNet.Some? {
      var ss := SocketStats.ParseSsRtt(run.sysNet.value);
      var counters := Nstat.ParseNstat(run.sysNet.value);
      net := NetRow(run.profileId, ss, counters);
    }
  }

  /** `main`: the loop over the runs, then the sort of the profile table. */
  method AggregateRuns(runs: seq<Run>) returns (r: Result<Tables>)
    ensures r == Aggregate(runs)
  {
    var t := CombineRuns(runs);
    if t.Raised? {
      return Raised;
    }
    if t.value.profiles == [] {
      return Raised;
    }
    return Ok(t.value.(profiles := Sorting.Sort(t.value.profiles, ProfileLe)));
  }

  /** The loop over the runs, appending to the three lists. */
  method CombineRuns(runs: seq<Run>) returns (r: Result<Tables>)
    ensures r == AllRuns(runs)
  {
    var tables := Tables([], [], []);
    ghost var outs := Outputs(runs);
    for i := 0 to |runs|
      invariant Combine(outs[..i]) == Ok(tables)
    {
      var next := AppendRun(runs[i], tables, outs, i);
      if next.Raised? {
        return Raised;
      }
      tables := next.value;
    }
    assert outs[..|runs|] == outs;
    return Ok(tables);
  }

  /** One pass of the loop: the run's profile row, its fio rows and its net
      row (when it has one) appended to the lists. */
  method AppendRun(run: Run, tables: Tables, ghost outs: seq<Result<RunRows>>, ghost i: nat) returns (r: Result<Tables>)
    requires i < |outs| && outs[i] == RunOutput(run) && Combine(outs[..i]) == Ok(tables)
    ensures r.Raised? ==> Combine(outs).Raised?
    ensures r.Ok? ==> Combine(outs[..i + 1]) == r
  {
    var one := CollectRun(run);
    if one.Raised? {
      CombineRaisedAt(outs, i);
      return Raised;
    }
    CombineStep(outs, i, tables, one.value);
    var net := tables.net + (if one.value.net.Some? then [one.value.net.value] else []);
    return Ok(Tables(tables.profiles + [one.value.profile], tables.fio + one.value.fio, net));
  }

  lemma CombineRaisedAt(outs: seq<Result<RunRows>>, i: nat)
    requires i < |outs| && outs[i].Raised?
    ensures Combine(outs).Raised?
  {
    assert outs[..i + 1][..i] == outs[..i];
    CombinePrefixRaised(outs, i + 1);
  }

  lemma CombineStep(outs: seq<Result<RunRows>>, i: nat, t: Tables, one: RunRows)
    requires i < |outs| && Combine(outs[..i]) == Ok(t) && outs[i] == Ok(one)
    ensures Combine(outs[..i + 1]) == Ok(Tables(t.profiles + [one.profile], t.fio + one.fio,
                                               t.net + (if one.net.Some? then [one.net.value] else [])))
  {
    assert outs[..i + 1][..i] == outs[..i];
  }

  lemma {:induction false} CombinePrefixRaised(outs: seq<Result<RunRows>>, n: nat)
    requires n <= |outs| && Combine(outs[..n]).Raised?
    ensures Combine(outs).Raised?
    decreases |outs| - n
  {
    if n < |outs| {
      assert outs[..n + 1][..n] == outs[..n];
      CombinePrefixRaised(outs, n + 1);
    } else {
      assert outs[..n] == outs;
    }
  }
}
