/** `parse_fio_json` of the E002 aggregator: one row per job and I/O
    direction that did any I/O, with throughput and latency figures from
    fio's JSON report. */
module FioJobs {
  import opened Base
  import opened Json
  import FioPercentile

  /** One row of fio_table.csv. The fields copied from the report stay JSON
      values (Python passes them through); the latencies are computed.
      clatPctMs holds the columns clat_p50_ms to clat_p99_999_ms, one per
      entry of ClatPercentiles. `stamp` holds the run parameters the
      aggregator adds afterwards. */
  datatype FioRow = FioRow(
    jobname: Json,
    rw: string,
    fioVersion: Json,
    fioRw: Json,
    bs: Json,
    runtimeMs: Json,
    ioBytes: Json,
    bwKibS: Json,
    bwBytesS: Json,
    iops: Json,
    totalIos: Json,
    slatMeanMs: Option<real>,
    slatMaxMs: Option<real>,
    clatMeanMs: Option<real>,
    clatMaxMs: Option<real>,
    latMeanMs: Option<real>,
    latMaxMs: Option<real>,
    clatPctMs: seq<Option<real>>,
    sourceFile: string,
    stamp: Option<Stamp>)

  /** The run parameters stamped on a row: profile_id, delay_ms, jitter_ms
      and loss_pct. */
  datatype Stamp = Stamp(profileId: string, delayMs: Option<real>, jitterMs: Option<real>, lossPct: Option<real>)

  const Directions: seq<string> := ["read", "write"]

  /** The completion-latency percentiles a row reports. */
  const ClatPercentiles: seq<real> := [50.0, 95.0, 99.0, 99.9, 99.99, 99.999]

  /** `fio_percentile_ns_to_ms(p, pct)` for each pct in turn. */
  function PercentileColumns(p: Json, pcts: seq<real>): (r: Result<seq<Option<real>>>)
    ensures r.Ok? ==> |r.value| == |pcts|
    ensures r.Ok? ==> forall i :: 0 <= i < |pcts| ==> FioPercentile.PercentileMs(p, pcts[i]) == Ok(r.value[i])
    ensures pcts != [] ==> (r.Raised? <==> exists i :: 0 <= i < |pcts| && FioPercentile.PercentileMs(p, pcts[i]).Raised?)
  {
    if pcts == [] then Ok([])
    else
      var first := FioPercentile.PercentileMs(p, pcts[0]);
      var rest := PercentileColumns(p, pcts[1..]);
      assert forall i :: 1 <= i < |pcts| ==> pcts[i] == pcts[1..][i - 1];
      if first.Raised? || rest.Raised? then Raised else Ok([first.value] + rest.value)
  }

  /** `d.get(key) or {}`. */
  function Block(members: seq<(string, Json)>, key: string): (r: Json)
    ensures Truthy(Get(members, key, JNull)) ==> r == Get(members, key, JNull)
    ensures !Truthy(Get(members, key, JNull)) ==> r == JObj([])
  {
    Or(Get(members, key, JNull), JObj([]))
  }

  /** `d.get(key, 0) or 0`. */
  function Count(members: seq<(string, Json)>, key: string): (r: Json)
    ensures Truthy(Get(members, key, JNum(0.0))) ==> r == Get(members, key, JNum(0.0))
    ensures !Truthy(Get(members, key, JNum(0.0))) ==> r == JNum(0.0)
  {
    Or(Get(members, key, JNum(0.0)), JNum(0.0))
  }

  /** Python's `x == 0`: true only for a zero number or False. */
  predicate EqualsZero(x: Json)
  {
    match x
    case JNum(n) => n == 0.0
    case JBool(b) => !b
    case _ => false
  }

  /** A direction did I/O when its total_ios or its io_bytes is truthy. */
  predicate DidIo(block: seq<(string, Json)>)
  {
    Truthy(Get(block, "total_ios", JNum(0.0))) || Truthy(Get(block, "io_bytes", JNum(0.0)))
  }

  /** After `or 0`, `== 0` is the same test as falsiness of the raw value. */
  lemma CountZero(members: seq<(string, Json)>, key: string)
    ensures EqualsZero(Count(members, key)) <==> !Truthy(Get(members, key, JNum(0.0)))
  {
  }

  /** `(blk.get(field, 0.0) / 1e6) if blk else None`, blk being `x or {}`:
      None for an empty block, a TypeError for a value that is not a number
      and an AttributeError for a block that is not a dict. */
  function Latency(blk: Json, field: string): (r: Result<Option<real>>)
    ensures r == Ok(None) <==> !Truthy(blk)
    ensures r.Raised? <==> Truthy(blk) && (!blk.JObj? || AsNumber(Get(blk.members, field, JNum(0.0))).None?)
    ensures r.Ok? && r.value.Some? ==> r.value.value * 1000000.0 == AsNumber(Get(blk.members, field, JNum(0.0))).value
  {
    if !Truthy(blk) then Ok(None)
    else
      var members :- AsDict(blk);
      var x :- Divide(Get(members, field, JNum(0.0)), 1000000.0);
      Ok(Some(x))
  }

  /** The clat percentile table: `(clat.get("percentile") or {})` when clat
      is a dict, `{}` otherwise. */
  function Percentiles(clat: Json): Json
  {
    if clat.JObj? then Block(clat.members, "percentile") else JObj([])
  }

  /** Some figure of a direction block fails: a latency (a block that is
      not a dict, a value that is not a number) or a percentile lookup. */
  predicate FiguresRaise(d: seq<(string, Json)>)
  {
    || Latency(Block(d, "slat_ns"), "mean").Raised? || Latency(Block(d, "slat_ns"), "max").Raised?
    || Latency(Block(d, "clat_ns"), "mean").Raised? || Latency(Block(d, "clat_ns"), "max").Raised?
    || Latency(Block(d, "lat_ns"), "mean").Raised? || Latency(Block(d, "lat_ns"), "max").Raised?
    || PercentileColumns(Percentiles(Block(d, "clat_ns")), ClatPercentiles).Raised?
  }

  /** The row of one direction of a job (a dict): none when it did no I/O,
      an exception when a block the row reads is not a dict or a latency is
      not a number; otherwise every column is the figure of its source
      field. */
  function DirectionRow(job: seq<(string, Json)>, direction: string, fioVersion: Json,
                        fioRw: Json, bs: Json, path: string): (r: Result<Option<FioRow>>)
    ensures r.Ok? && Block(job, direction).JObj? ==> (r.value.Some? <==> DidIo(Block(job, direction).members))
    ensures r.Ok? ==> Block(job, direction).JObj?
    ensures Block(job, direction).JObj? && !DidIo(Block(job, direction).members) ==> r == Ok(None)
    ensures r.Ok? && r.value.Some? ==>
      var row := r.value.value;
      && row.rw == direction && row.fioVersion == fioVersion && row.sourceFile == path
      && row.stamp.None? && row.jobname == Get(job, "jobname", JNull)
      && row.fioRw == fioRw && row.bs == bs
  {
    var d :- AsDict(Block(job, direction));
    var totalIos := Count(d, "total_ios");
    var ioBytes := Count(d, "io_bytes");
    CountZero(d, "total_ios");
    CountZero(d, "io_bytes");
    if EqualsZero(totalIos) && EqualsZero(ioBytes) then Ok(None)
    else
      var f :- DirectionFigures(d);
      Ok(Some(FioRow(
        Get(job, "jobname", JNull), direction, fioVersion, fioRw, bs,
        Get(d, "runtime", JNull), ioBytes, Get(d, "bw", JNull), Get(d, "bw_bytes", JNull),
        Get(d, "iops", JNull), totalIos,
        f.slatMean, f.slatMax, f.clatMean, f.clatMax, f.latMean, f.latMax,
        f.pcts, path, None)))
  }

  /** The computed columns of a direction row. */
  datatype Figures = Figures(
    slatMean: Option<real>, slatMax: Option<real>,
    clatMean: Option<real>, clatMax: Option<real>,
    latMean: Option<real>, latMax: Option<real>,
    pcts: seq<Option<real>>)

  /** The latencies and percentiles of a direction block, in the order the
      row dict evaluates them; the first one that fails raises. */
  function DirectionFigures(d: seq<(string, Json)>): (r: Result<Figures>)
    ensures r.Raised? <==> FiguresRaise(d)
    ensures r.Ok? ==>
      && Latency(Block(d, "slat_ns"), "mean") == Ok(r.value.slatMean)
      && Latency(Block(d, "slat_ns"), "max") == Ok(r.value.slatMax)
      && Latency(Block(d, "clat_ns"), "mean") == Ok(r.value.clatMean)
      && Latency(Block(d, "clat_ns"), "max") == Ok(r.value.clatMax)
      && Latency(Block(d, "lat_ns"), "mean") == Ok(r.value.latMean)
      && Latency(Block(d, "lat_ns"), "max") == Ok(r.value.latMax)
      && PercentileColumns(Percentiles(Block(d, "clat_ns")), ClatPercentiles) == Ok(r.value.pcts)
  {
    var slat, clat, lat := Block(d, "slat_ns"), Block(d, "clat_ns"), Block(d, "lat_ns");
    var slatMean :- Latency(slat, "mean");
    var slatMax :- Latency(slat, "max");
    var clatMean :- Latency(clat, "mean");
    var clatMax :- Latency(clat, "max");
    var latMean :- Latency(lat, "mean");
    var latMax :- Latency(lat, "max");
    var pcts :- PercentileColumns(Percentiles(clat), ClatPercentiles);
    Ok(Figures(slatMean, slatMax, clatMean, clatMax, latMean, latMax, pcts))
  }

  /** A direction row raises exactly when its block is not a dict, or when
      the direction did I/O and one of its figures fails. */
  lemma DirectionRowRaises(job: seq<(string, Json)>, direction: string, fioVersion: Json,
                           fioRw: Json, bs: Json, path: string)
    ensures DirectionRow(job, direction, fioVersion, fioRw, bs, path).Raised? <==>
      (!Block(job, direction).JObj? || (DidIo(Block(job, direction).members) && FiguresRaise(Block(job, direction).members)))
  {
  }

  /** The columns of a direction row: the block's fields as they stand,
      `total_ios` and `io_bytes` after `or 0`, each latency the block's
      figure in milliseconds and the percentile columns the lookups in the
      clat table. */
  lemma DirectionRowColumns(job: seq<(string, Json)>, direction: string, fioVersion: Json,
                            fioRw: Json, bs: Json, path: string)
    requires DirectionRow(job, direction, fioVersion, fioRw, bs, path).Ok?
    requires DirectionRow(job, direction, fioVersion, fioRw, bs, path).value.Some?
    ensures var row, d := DirectionRow(job, direction, fioVersion, fioRw, bs, path).value.value, Block(job, direction).members;
      && row.runtimeMs == Get(d, "runtime", JNull) && row.ioBytes == Count(d, "io_bytes")
      && row.bwKibS == Get(d, "bw", JNull) && row.bwBytesS == Get(d, "bw_bytes", JNull)
      && row.iops == Get(d, "iops", JNull) && row.totalIos == Count(d, "total_ios")
    ensures var row, d := DirectionRow(job, direction, fioVersion, fioRw, bs, path).value.value, Block(job, direction).members;
      && DirectionFigures(d) == Ok(Figures(row.slatMeanMs, row.slatMaxMs, row.clatMeanMs, row.clatMaxMs,
                                           row.latMeanMs, row.latMaxMs, row.clatPctMs))
  {
  }

  function OptionSeq<T>(o: Option<T>): (s: seq<T>)
    ensures |s| == (if o.Some? then 1 else 0)
    ensures o.Some? ==> s == [o.value]
  {
    if o.Some? then [o.value] else []
  }

  /** The job's bs and rw options: `job.get("job options") or {}` must be a
      dict for the two `.get` calls. */
  function JobOptions(job: seq<(string, Json)>): (r: Result<(Json, Json)>)
    ensures r.Ok? <==> Block(job, "job options").JObj?
  {
    var opts :- AsDict(Block(job, "job options"));
    Ok((Get(opts, "bs", JNull), Get(opts, "rw", JNull)))
  }

  /** The rows of one job: at most two, the read row before the write row,
      one for each direction that did I/O. */
  function JobRows(job: Json, fioVersion: Json, path: string): (r: Result<seq<FioRow>>)
    ensures r.Ok? ==> job.JObj? && |r.value| <= 2
    ensures r.Ok? ==>
      var (read, write) := (Block(job.members, "read"), Block(job.members, "write"));
      && read.JObj? && write.JObj?
      && |r.value| == (if DidIo(read.members) then 1 else 0) + (if DidIo(write.members) then 1 else 0)
      && (DidIo(read.members) ==> r.value[0].rw == "read")
      && (DidIo(write.members) ==> r.value[|r.value| - 1].rw == "write")
    ensures r.Ok? ==> forall i :: 0 <= i < |r.value| ==>
      r.value[i].fioVersion == fioVersion && r.value[i].sourceFile == path && r.value[i].stamp.None?
      && (r.value[i].rw == "read" || r.value[i].rw == "write")
  {
    var members :- AsDict(job);
    var (bs, rw) :- JobOptions(members);
    var read :- DirectionRow(members, "read", fioVersion, rw, bs, path);
    var write :- DirectionRow(members, "write", fioVersion, rw, bs, path);
    BothDirections(read, write, fioVersion, path);
    Ok(OptionSeq(read) + OptionSeq(write))
  }

  /** The read row and the write row, each when there is one, carry the
      report's version and path and no stamp yet. */
  lemma BothDirections(read: Option<FioRow>, write: Option<FioRow>, fioVersion: Json, path: string)
    requires read.Some? ==> read.value.rw == "read" && read.value.fioVersion == fioVersion && read.value.sourceFile == path && read.value.stamp.None?
    requires write.Some? ==> write.value.rw == "write" && write.value.fioVersion == fioVersion && write.value.sourceFile == path && write.value.stamp.None?
    ensures var rows := OptionSeq(read) + OptionSeq(write);
      forall i :: 0 <= i < |rows| ==>
        rows[i].fioVersion == fioVersion && rows[i].sourceFile == path && rows[i].stamp.None?
        && (rows[i].rw == "read" || rows[i].rw == "write")
  {
  }

  /** `data.get("jobs") or []`, iterated: a list gives its items; any other
      truthy value makes `for job in jobs` or `job.get` raise. */
  function Jobs(data: seq<(string, Json)>): (r: Result<seq<Json>>)
    ensures !Truthy(Get(data, "jobs", JNull)) ==> r == Ok([])
    ensures Get(data, "jobs", JNull).JArr? ==> r == Ok(Get(data, "jobs", JNull).items)
  {
    match Or(Get(data, "jobs", JNull), JArr([]))
    case JArr(items) => Ok(items)
    case _ => Raised
  }

  /** The rows of a list of jobs, job after job. */
  function AllRows(jobs: seq<Json>, fioVersion: Json, path: string): (r: Result<seq<FioRow>>)
    ensures r.Ok? ==> |r.value| <= 2 * |jobs|
    ensures r.Ok? ==> forall i :: 0 <= i < |r.value| ==>
      r.value[i].fioVersion == fioVersion && r.value[i].sourceFile == path && r.value[i].stamp.None?
      && (r.value[i].rw == "read" || r.value[i].rw == "write")
  {
    if jobs == [] then Ok([])
    else
      var init :- AllRows(jobs[..|jobs| - 1], fioVersion, path);
      var last :- JobRows(jobs[|jobs| - 1], fioVersion, path);
      Ok(init + last)
  }

  /** What `parse_fio_json` returns for a report: the rows of every job in
      order, or the exception that stops the script. */
  function FioRows(data: Json, path: string): (r: Result<seq<FioRow>>)
    ensures !data.JObj? ==> r.Raised?
    ensures r.Ok? ==> data.JObj? && forall i :: 0 <= i < |r.value| ==>
      && r.value[i].fioVersion == Get(data.members, "fio version", JNull)
      && r.value[i].sourceFile == path && r.value[i].stamp.None?
  {
    var top :- AsDict(data);
    var jobs :- Jobs(top);
    AllRows(jobs, Get(top, "fio version", JNull), path)
  }

  /** `parse_fio_json`: a loop over the jobs and, inside it, over the two
      directions, appending a row for each direction that did I/O. */
  method ParseFioJson(data: Json, path: string) returns (r: Result<seq<FioRow>>)
    ensures r == FioRows(data, path)
  {
    if !data.JObj? {
      return Raised;
    }
    var top := data.members;
    var fioVersion := Get(top, "fio version", JNull);
    var found := Jobs(top);
    if found.Raised? {
      return Raised;
    }
    var jobs := found.value;
    var rows: seq<FioRow> := [];
    for i := 0 to |jobs|
      invariant AllRows(jobs[..i], fioVersion, path) == Ok(rows)
    {
      AllRowsStep(jobs, fioVersion, path, i);
      var job := jobs[i];
      var more := JobRowsLoop(job, fioVersion, path);
      if more.Raised? {
        PrefixRaised(jobs, fioVersion, path, i + 1);
        return Raised;
      }
      rows := rows + more.value;
    }
    assert jobs[..|jobs|] == jobs;
    return Ok(rows);
  }

  /** The inner loop over the two directions of one job. */
  method JobRowsLoop(job: Json, fioVersion: Json, path: string) returns (r: Result<seq<FioRow>>)
    ensures r == JobRows(job, fioVersion, path)
  {
    if !job.JObj? {
      return Raised;
    }
    var options := JobOptions(job.members);
    if options.Raised? {
      return Raised;
    }
    var (bs, rw) := options.value;
    var rows: seq<FioRow> := [];
    ghost var read := DirectionRow(job.members, "read", fioVersion, rw, bs, path);
    ghost var write := DirectionRow(job.members, "write", fioVersion, rw, bs, path);
    for k := 0 to |Directions|
      invariant k >= 1 ==> read.Ok?
      invariant k == 2 ==> write.Ok?
      invariant k == 0 ==> rows == []
      invariant k == 1 ==> rows == OptionSeq(read.value)
      invariant k == 2 ==> rows == OptionSeq(read.value) + OptionSeq(write.value)
    {
      var row := DirectionRow(job.members, Directions[k], fioVersion, rw, bs, path);
      assert row == if k == 0 then read else write;
      if row.Raised? {
        return Raised;
      }
      if row.value.Some? {
        rows := rows + [row.value.value];
      }
    }
    return Ok(rows);
  }

  /** One more job: its rows follow those of the jobs before it, and an
      exception in either stops the list. */
  lemma AllRowsStep(jobs: seq<Json>, fioVersion: Json, path: string, i: nat)
    requires i < |jobs|
    ensures var before, own := AllRows(jobs[..i], fioVersion, path), JobRows(jobs[i], fioVersion, path);
      AllRows(jobs[..i + 1], fioVersion, path) ==
        if before.Raised? || own.Raised? then Raised else Ok(before.value + own.value)
  {
    assert jobs[..i + 1][..i] == jobs[..i];
  }

  /** Once the jobs up to n raise, so does the whole list. */
  lemma {:induction false} PrefixRaised(jobs: seq<Json>, fioVersion: Json, path: string, n: nat)
    requires n <= |jobs| && AllRows(jobs[..n], fioVersion, path).Raised?
    ensures AllRows(jobs, fioVersion, path).Raised?
    decreases |jobs| - n
  {
    if n < |jobs| {
      assert jobs[..n + 1][..n] == jobs[..n];
      PrefixRaised(jobs, fioVersion, path, n + 1);
    } else {
      assert jobs[..n] == jobs;
    }
  }

  /** A job that read 40960 bytes and wrote nothing, as fio reports it. */
  const ReadOnlyJob: Json := JObj([
    ("jobname", JStr("seq_read")),
    ("read", JObj([("total_ios", JNum(10.0)), ("io_bytes", JNum(40960.0))])),
    ("write", JObj([("total_ios", JNum(0.0)), ("io_bytes", JNum(0.0))]))])

  /** A job that read but wrote nothing gives exactly one row, the read
      row, carrying the report's fio version and the file's path. */
  lemma ExampleReadOnly(path: string)
    ensures var r := FioRows(JObj([("fio version", JStr("fio-3.36")), ("jobs", JArr([ReadOnlyJob]))]), path);
      r.Ok? && |r.value| == 1 && r.value[0].rw == "read"
      && r.value[0].fioVersion == JStr("fio-3.36") && r.value[0].sourceFile == path
  {
    SingleJobReport(JStr("fio-3.36"), ReadOnlyJob, path);
    ReadOnlyJobRows(JStr("fio-3.36"), path);
  }

  /** A report with one job gives that job's rows. */
  lemma SingleJobReport(fioVersion: Json, job: Json, path: string)
    ensures FioRows(JObj([("fio version", fioVersion), ("jobs", JArr([job]))]), path)
            == JobRows(job, fioVersion, path)
  {
    var top := [("fio version", fioVersion), ("jobs", JArr([job]))];
    assert Get(top, "jobs", JNull) == JArr([job]);
    SingleJob([job], fioVersion, path);
  }

  lemma SingleJob(jobs: seq<Json>, fioVersion: Json, path: string)
    requires |jobs| == 1
    ensures AllRows(jobs, fioVersion, path) == JobRows(jobs[0], fioVersion, path)
  {
    assert jobs[..0] == [];
    assert AllRows(jobs[..0], fioVersion, path) == Ok([]);
    match JobRows(jobs[0], fioVersion, path)
    case Raised =>
    case Ok(rows) => assert [] + rows == rows;
  }

  /** The job's rows: the read direction only. */
  lemma ReadOnlyJobRows(fioVersion: Json, path: string)
    ensures var r := JobRows(ReadOnlyJob, fioVersion, path);
      r.Ok? && |r.value| == 1 && r.value[0].rw == "read"
  {
    var m := ReadOnlyJob.members;
    ReadOnlyBlocks();
    ReadOnlyNoOptions();
    ReadRowEmitted(fioVersion, path);
    assert DirectionRow(m, "write", fioVersion, JNull, JNull, path) == Ok(None);
    JobRowsOk(m, fioVersion, path);
  }

  lemma ReadOnlyNoOptions()
    ensures Block(ReadOnlyJob.members, "job options") == JObj([])
  {
    var m := ReadOnlyJob.members;
    assert m[1..][1..] == [m[2]];
    assert Get(m[1..][1..], "job options", JNull) == JNull;
  }

  /** A job without options whose two directions give their rows. */
  lemma JobRowsOk(members: seq<(string, Json)>, fioVersion: Json, path: string)
    requires Block(members, "job options") == JObj([])
    requires DirectionRow(members, "read", fioVersion, JNull, JNull, path).Ok?
    requires DirectionRow(members, "write", fioVersion, JNull, JNull, path).Ok?
    ensures JobRows(JObj(members), fioVersion, path).Ok?
  {
    assert JobOptions(members) == Ok((JNull, JNull));
  }

  lemma ReadOnlyBlocks()
    ensures Block(ReadOnlyJob.members, "read") == ReadOnlyJob.members[1].1
    ensures Block(ReadOnlyJob.members, "write") == ReadOnlyJob.members[2].1
    ensures DidIo(ReadOnlyJob.members[1].1.members) && !DidIo(ReadOnlyJob.members[2].1.members)
  {
    var m := ReadOnlyJob.members;
    assert m[1..][1..] == [m[2]];
    assert Get(m[1..], "read", JNull) == m[1].1;
    assert Get(m[1..][1..], "write", JNull) == m[2].1;
  }

  /** The read direction did I/O and has no latency blocks, so it gives a
      row. */
  lemma ReadRowEmitted(fioVersion: Json, path: string)
    ensures DirectionRow(ReadOnlyJob.members, "read", fioVersion, JNull, JNull, path).Ok?
  {
    ReadOnlyBlocks();
    var d := ReadOnlyJob.members[1].1.members;
    CountersOnly(d);
    BareDirectionRow(ReadOnlyJob.members, "read", fioVersion, JNull, JNull, path, d);
  }

  /** A direction block holding only its two counters has no latency
      blocks. */
  lemma CountersOnly(d: seq<(string, Json)>)
    requires |d| == 2 && d[0].0 == "total_ios" && d[1].0 == "io_bytes"
    ensures Block(d, "slat_ns") == JObj([]) && Block(d, "clat_ns") == JObj([]) && Block(d, "lat_ns") == JObj([])
  {
    assert d[1..][1..] == [];
  }

  /** A direction that did I/O and has none of the three latency blocks
      gives a row. */
  lemma BareDirectionRow(job: seq<(string, Json)>, direction: string, fioVersion: Json,
                         fioRw: Json, bs: Json, path: string, d: seq<(string, Json)>)
    requires Block(job, direction) == JObj(d) && DidIo(d)
    requires Block(d, "slat_ns") == JObj([]) && Block(d, "clat_ns") == JObj([]) && Block(d, "lat_ns") == JObj([])
    ensures DirectionRow(job, direction, fioVersion, fioRw, bs, path).Ok?
  {
    assert Percentiles(JObj([])) == JObj([]);
    NoPercentileColumns(ClatPercentiles);
  }

  lemma NoPercentileColumns(pcts: seq<real>)
    ensures PercentileColumns(JObj([]), pcts).Ok?
  {
    forall i | 0 <= i < |pcts|
      ensures FioPercentile.PercentileMs(JObj([]), pcts[i]) == Ok(None)
    {
    }
  }
}
