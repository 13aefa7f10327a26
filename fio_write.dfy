/** `parse_fio_json` of the visualiser: the write-direction figures of the
    first job of an fio report, with the latencies converted from
    nanoseconds to seconds. */
module FioWrite {
  import opened Base
  import opened Json
  import FioJobs
  import PctLookup

  /** The dict the extractor returns: empty (NoMetrics), or the ten keys
      io_kbytes, bw_kib_s, iops, runtime_s, clat_mean_s, clat_max_s and
      clat_p50_s to clat_p999_s, the last four in clatPctS in the order of
      PctKeys. io_kbytes, bw and iops are copied as they are (Python's None
      where absent). */
  datatype Metrics =
    | NoMetrics
    | Metrics(
        ioKbytes: Json,
        bwKibS: Json,
        iops: Json,
        runtimeS: Option<real>,
        clatMeanS: Option<real>,
        clatMaxS: Option<real>,
        clatPctS: seq<Option<real>>)

  /** The percentile keys asked for: p50, p95, p99 and p99.9. */
  const PctKeys: seq<string> := ["50.000000", "95.000000", "99.000000", "99.900000"]

  const NsPerS: real := 1000000000.0

  /** `x / per if isinstance(x, (int, float)) else None`. */
  function Scaled(x: Json, per: real): (r: Option<real>)
    requires per > 0.0
    ensures r.Some? <==> AsNumber(x).Some?
    ensures r.Some? ==> r.value * per == AsNumber(x).value
  {
    match AsNumber(x)
    case None => None
    case Some(n) => Some(n / per)
  }

  /** `pct_s(key)`: the looked-up value in seconds when it is a number. */
  function PctSeconds(pct: Json, key: string): (r: Result<Option<real>>)
    ensures r.Raised? <==> PctLookup.Lookup(pct, key).Raised?
    ensures PctLookup.Lookup(pct, key) == Ok(None) ==> r == Ok(None)
    ensures PctLookup.Lookup(pct, key).Ok? && PctLookup.Lookup(pct, key).value.Some? ==>
      r == Ok(Scaled(PctLookup.Lookup(pct, key).value.value, NsPerS))
  {
    var v :- PctLookup.Lookup(pct, key);
    match v
    case None => Ok(None)
    case Some(x) => Ok(Scaled(x, NsPerS))
  }

  /** `pct_s(key)` for each key in turn; the first exception ends it. */
  function PctColumns(pct: Json, keys: seq<string>): (r: Result<seq<Option<real>>>)
    ensures r.Ok? ==> |r.value| == |keys|
    ensures r.Ok? ==> forall i :: 0 <= i < |keys| ==> PctSeconds(pct, keys[i]) == Ok(r.value[i])
    ensures r.Raised? <==> exists i :: 0 <= i < |keys| && PctSeconds(pct, keys[i]).Raised?
  {
    if keys == [] then Ok([])
    else
      var first :- PctSeconds(pct, keys[0]);
      var rest :- PctColumns(pct, keys[1..]);
      assert forall i :: 1 <= i < |keys| ==> keys[i] == keys[1..][i - 1];
      Ok([first] + rest)
  }

  /** `jobs[0]` on a truthy value: the first item of a list, the first
      character of a string; a dict raises KeyError and a number TypeError. */
  function FirstJob(jobs: Json): (r: Result<Json>)
    requires Truthy(jobs)
    ensures jobs.JArr? ==> r == Ok(jobs.items[0])
    ensures r.Ok? ==> jobs.JArr? || jobs.JStr?
  {
    match jobs
    case JArr(items) => Ok(items[0])
    case JStr(s) => Ok(JStr(s[..1]))
    case _ => Raised
  }

  /** `fio.get("jobs") or []`, before the `or`. */
  function JobsOf(fio: Json): Json
    requires fio.JObj?
  {
    Get(fio.members, "jobs", JArr([]))
  }

  /** What `parse_fio_json` returns for a report (None: no fio.json).
      `.get` on anything but a dict raises AttributeError. */
  function WriteMetrics(file: Option<Json>): (r: Result<Metrics>)
    ensures file.None? ==> r == Ok(NoMetrics)
    ensures file.Some? && !file.value.JObj? ==> r.Raised?
    ensures file.Some? && file.value.JObj? && !Truthy(Get(file.value.members, "jobs", JArr([]))) ==> r == Ok(NoMetrics)
    ensures r.Ok? && r.value.Metrics? ==> |r.value.clatPctS| == |PctKeys|
    ensures file.Some? && file.value.JObj? && Truthy(JobsOf(file.value)) ==>
      (r.Raised? <==> (|| FirstJob(JobsOf(file.value)).Raised?
                       || !FirstJob(JobsOf(file.value)).value.JObj?
                       || JobMetrics(FirstJob(JobsOf(file.value)).value.members).Raised?))
    ensures file.Some? && file.value.JObj? && Truthy(JobsOf(file.value)) ==>
      (FirstJob(JobsOf(file.value)).Ok? && FirstJob(JobsOf(file.value)).value.JObj? ==>
         r == JobMetrics(FirstJob(JobsOf(file.value)).value.members))
  {
    if file.None? then Ok(NoMetrics)
    else
      var fio :- AsDict(file.value);
      var jobs := JobsOf(file.value);
      if !Truthy(jobs) then Ok(NoMetrics)
      else
        var job :- FirstJob(jobs);
        var job :- AsDict(job);
        JobMetrics(job)
  }

  /** The figures of one job (a dict): only its write block and its
      job_runtime are read. */
  function JobMetrics(job: seq<(string, Json)>): (r: Result<Metrics>)
    ensures r.Ok? ==> r.value.Metrics? && |r.value.clatPctS| == |PctKeys|
    ensures r.Ok? ==> r.value.runtimeS == Scaled(Get(job, "job_runtime", JNull), 1000.0)
  {
    var w :- AsDict(FioJobs.Block(job, "write"));
    var clat :- AsDict(FioJobs.Block(w, "clat_ns"));
    var cols :- PctColumns(FioJobs.Block(clat, "percentile"), PctKeys);
    Ok(Metrics(
      Get(w, "io_kbytes", JNull),
      Get(w, "bw", JNull),
      Get(w, "iops", JNull),
      Scaled(Get(job, "job_runtime", JNull), 1000.0),
      Scaled(Get(clat, "mean", JNull), NsPerS),
      Scaled(Get(clat, "max", JNull), NsPerS),
      cols))
  }

  /** Only the first job counts: two reports whose job lists start with the
      same job give the same figures, whatever follows it and whatever
      else the reports hold. */
  lemma OnlyFirstJob(f1: seq<(string, Json)>, f2: seq<(string, Json)>, job: Json, rest1: seq<Json>, rest2: seq<Json>)
    requires Get(f1, "jobs", JArr([])) == JArr([job] + rest1)
    requires Get(f2, "jobs", JArr([])) == JArr([job] + rest2)
    ensures WriteMetrics(Some(JObj(f1))) == WriteMetrics(Some(JObj(f2)))
  {
    assert ([job] + rest1)[0] == job && ([job] + rest2)[0] == job;
  }

  /** Only the write block and job_runtime of that job count: jobs that
      agree on those two give the same figures. */
  lemma OnlyWriteAndRuntime(j1: seq<(string, Json)>, j2: seq<(string, Json)>)
    requires Get(j1, "write", JNull) == Get(j2, "write", JNull)
    requires Get(j1, "job_runtime", JNull) == Get(j2, "job_runtime", JNull)
    ensures JobMetrics(j1) == JobMetrics(j2)
  {
  }

  /** A job without a write block (a read-only job) still yields the ten
      keys: nothing but runtime_s is ever set. */
  lemma NoWriteBlock(job: seq<(string, Json)>)
    requires !HasKey(job, "write")
    ensures JobMetrics(job).Ok?
    ensures JobMetrics(job).value.ioKbytes == JNull
    ensures JobMetrics(job).value.clatMeanS.None? && JobMetrics(job).value.clatMaxS.None?
    ensures forall i :: 0 <= i < |PctKeys| ==> JobMetrics(job).value.clatPctS[i].None?
  {
    assert FioJobs.Block(job, "write") == JObj([]);
    var r := PctColumns(JObj([]), PctKeys);
    assert PctLookup.Lookup(JObj([]), PctKeys[0]) == Ok(None);
    assert r.Ok?;
  }

  /** With a write block and a clat_ns block that are dicts, the latencies
      are the nanosecond figures over 1e9 when they are numbers and None
      otherwise; the copied fields are those of the write block. */
  lemma Latencies(job: seq<(string, Json)>, w: seq<(string, Json)>, clat: seq<(string, Json)>)
    requires FioJobs.Block(job, "write") == JObj(w)
    requires FioJobs.Block(w, "clat_ns") == JObj(clat)
    requires JobMetrics(job).Ok?
    ensures var m := JobMetrics(job).value;
      && m.ioKbytes == Get(w, "io_kbytes", JNull) && m.bwKibS == Get(w, "bw", JNull) && m.iops == Get(w, "iops", JNull)
      && (m.clatMeanS.Some? <==> AsNumber(Get(clat, "mean", JNull)).Some?)
      && (m.clatMeanS.Some? ==> m.clatMeanS.value * NsPerS == AsNumber(Get(clat, "mean", JNull)).value)
      && (m.clatMaxS.Some? <==> AsNumber(Get(clat, "max", JNull)).Some?)
      && (m.clatMaxS.Some? ==> m.clatMaxS.value * NsPerS == AsNumber(Get(clat, "max", JNull)).value)
  {
  }

  /** A percentile stored under the exact key asked for is its nanosecond
      figure over 1e9 when it is a number, and None otherwise. */
  lemma ExactPercentile(job: seq<(string, Json)>, w: seq<(string, Json)>, clat: seq<(string, Json)>,
                        ms: seq<(string, Json)>, i: nat)
    requires FioJobs.Block(job, "write") == JObj(w)
    requires FioJobs.Block(w, "clat_ns") == JObj(clat)
    requires FioJobs.Block(clat, "percentile") == JObj(ms)
    requires JobMetrics(job).Ok? && i < |PctKeys| && HasKey(ms, PctKeys[i])
    ensures var c := JobMetrics(job).value.clatPctS[i];
      && (c.Some? <==> AsNumber(Get(ms, PctKeys[i], JNull)).Some?)
      && (c.Some? ==> c.value * NsPerS == AsNumber(Get(ms, PctKeys[i], JNull)).value)
  {
    var cols := PctColumns(JObj(ms), PctKeys);
    assert PctSeconds(JObj(ms), PctKeys[i]) == Ok(cols.value[i]);
    assert PctLookup.Lookup(JObj(ms), PctKeys[i]) == Ok(Some(Get(ms, PctKeys[i], JNull)));
  }
}
