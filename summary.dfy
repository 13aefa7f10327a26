/** The scan of the visualiser's main: one summary row per case directory,
    assembled from the fio report, the event timeline and the anomaly
    counts of the case's two logs. */
module Summary {
  import opened Base
  import Json
  import Cases
  import FioWrite
  import Events
  import Signatures

  /** The inputs of one case directory: fio.json parsed (None: no file),
      events.csv read (None: no file), and the text of dmesg_tail.log and
      usbip_port.log ("" when missing). */
  datatype CaseFiles = CaseFiles(fio: Option<Json.Json>, events: Option<Events.Csv>, dmesg: string, usbip: string)

  /** A row of summary_runs.csv once all its updates are applied. The
      injection keys come first; the basics, the fio figures and the seven
      counts follow, each present only when its dict held them; the stall
      metric is None where its key was never set. */
  datatype Row = Row(
    runId: string,
    caseId: string,
    injMode: Option<string>,
    injectAtS: Option<real>,
    injLenS: Option<real>,
    injectionStartTs: Option<int>,
    injectionEndTs: Option<int>,
    basics: Events.Basics,
    fio: FioWrite.Metrics,
    signatures: map<string, nat>,
    clatMaxMinusInjS: Option<real>)

  /** The row dict built key by key: the injection record, then
      `row.update(basics)` (which rewrites inject_at_s and inj_len_s when
      basics is not empty), the fio figures and the counts, then the stall
      metric: max completion latency less the injected outage, set only when
      the row holds both. */
  function Assemble(runId: string, caseId: string, fio: FioWrite.Metrics, basics: Events.Basics,
                    info: Events.Injection, counts: map<string, nat>): (row: Row)
    ensures row.runId == runId && row.caseId == caseId && row.fio == fio && row.signatures == counts
    ensures row.injLenS == (if basics.Basics? then basics.injLenS else info.injLenS)
    ensures row.clatMaxMinusInjS.Some? <==> fio.Metrics? && fio.clatMaxS.Some? && row.injLenS.Some?
    ensures row.clatMaxMinusInjS.Some? ==> row.clatMaxMinusInjS.value + row.injLenS.value == fio.clatMaxS.value
  {
    var injectAt := if basics.Basics? then basics.injectAtS else info.injectAtS;
    var injLen := if basics.Basics? then basics.injLenS else info.injLenS;
    var clatMax := if fio.Metrics? then fio.clatMaxS else None;
    var stall := if clatMax.Some? && injLen.Some? then Some(clatMax.value - injLen.value) else None;
    Row(runId, caseId, info.injMode, injectAt, injLen, info.startTs, info.endTs, basics, fio, counts, stall)
  }

  /** The events export after the row is appended: a frame with rows is
      copied column by column, and `tmp["ts"]`, `tmp["ts_dt"]` or the final
      selection of ts_iso, event and details raises KeyError unless the file
      had the ts, event and details columns. A missing file gives an empty
      frame, which is skipped. */
  predicate ExportRaises(events: Option<Events.Csv>)
  {
    && events.Some? && |events.value.rows| > 0
    && !("ts" in events.value.columns && "event" in events.value.columns && "details" in events.value.columns)
  }

  /** The row of one case; an exception in either parser or in the events
      export ends the scan. */
  function CaseRow(runId: string, caseId: string, files: CaseFiles): (r: Result<Row>)
    ensures r.Raised? <==> (|| FioWrite.WriteMetrics(files.fio).Raised?
                            || Events.ParseEvents(files.events).Raised?
                            || ExportRaises(files.events))
    ensures r.Ok? ==> r.value.runId == runId && r.value.caseId == caseId
    ensures r.Ok? ==> r.value.signatures.Keys == Signatures.Names
    ensures r.Ok? ==> r.value.signatures == Signatures.Counts(files.dmesg + "\n" + files.usbip)
    ensures r.Ok? ==> r.value.fio == FioWrite.WriteMetrics(files.fio).value
    ensures r.Ok? ==> var parsed := Events.ParseEvents(files.events).value;
      && r.value.basics == parsed.0
      && r.value.injMode == parsed.1.injMode
      && r.value.injectionStartTs == parsed.1.startTs && r.value.injectionEndTs == parsed.1.endTs
  {
    var fio :- FioWrite.WriteMetrics(files.fio);
    var parsed :- Events.ParseEvents(files.events);
    if ExportRaises(files.events) then Raised
    else Ok(Assemble(runId, caseId, fio, parsed.0, parsed.1, Signatures.Counts(files.dmesg + "\n" + files.usbip)))
  }

  /** What each case gives, in order. */
  function Outcomes(cases: seq<(string, string)>, files: ((string, string)) -> CaseFiles): (outs: seq<Result<Row>>)
    ensures |outs| == |cases|
    ensures forall i :: 0 <= i < |cases| ==> outs[i] == CaseRow(cases[i].0, cases[i].1, files(cases[i]))
  {
    if cases == [] then [] else [CaseRow(cases[0].0, cases[0].1, files(cases[0]))] + Outcomes(cases[1..], files)
  }

  /** `rows.append(row)` over the outcomes: all the rows, or the first
      exception. */
  function Collected(outs: seq<Result<Row>>): (r: Result<seq<Row>>)
    ensures r.Ok? <==> forall i :: 0 <= i < |outs| ==> outs[i].Ok?
    ensures r.Ok? ==> |r.value| == |outs| && forall i :: 0 <= i < |outs| ==> r.value[i] == outs[i].value
  {
    if outs == [] then Ok([])
    else
      var n := |outs| - 1;
      var before :- Collected(outs[..n]);
      var row :- outs[n];
      Ok(before + [row])
  }

  /** The rows of the cases, in order, or the first exception. */
  function Rows(cases: seq<(string, string)>, files: ((string, string)) -> CaseFiles): (r: Result<seq<Row>>)
    ensures r.Ok? <==> forall i :: 0 <= i < |cases| ==> CaseRow(cases[i].0, cases[i].1, files(cases[i])).Ok?
    ensures r.Ok? ==> |r.value| == |cases|
    ensures r.Ok? ==> forall i :: 0 <= i < |cases| ==> r.value[i] == CaseRow(cases[i].0, cases[i].1, files(cases[i])).value
  {
    var outs := Outcomes(cases, files);
    Collected(outs)
  }

  /** The loop of main over `find_cases(results_root)`; `files` reads a
      case directory. */
  method Scan(root: seq<Cases.Node>, files: ((string, string)) -> CaseFiles) returns (r: Result<seq<Row>>)
    ensures r == Rows(Cases.Discovered(root), files)
  {
    var cases := Cases.FindCases(root);
    r := ScanAll(cases, files);
  }

  /** The loop body run over each case in turn, appending its row. */
  method ScanAll(cases: seq<(string, string)>, files: ((string, string)) -> CaseFiles) returns (r: Result<seq<Row>>)
    ensures r == Rows(cases, files)
  {
    ghost var outs := Outcomes(cases, files);
    var rows: seq<Row> := [];
    for i := 0 to |cases|
      invariant Collected(outs[..i]) == Ok(rows)
    {
      var row := ScanCase(cases[i].0, cases[i].1, files(cases[i]));
      CollectedStep(outs, i, row);
      if row.Raised? {
        return Raised;
      }
      rows := rows + [row.value];
    }
    assert outs[..|cases|] == outs;
    return Ok(rows);
  }

  /** The body of the loop for one case directory. */
  method ScanCase(runId: string, caseId: string, input: CaseFiles) returns (r: Result<Row>)
    ensures r == CaseRow(runId, caseId, input)
  {
    var fio := FioWrite.WriteMetrics(input.fio);
    if fio.Raised? {
      return Raised;
    }
    var parsed := Events.ParseEvents(input.events);
    if parsed.Raised? {
      return Raised;
    }
    var counts := Signatures.CountSignatures(input.dmesg + "\n" + input.usbip);
    if ExportRaises(input.events) {
      return Raised;
    }
    return Ok(Assemble(runId, caseId, fio.value, parsed.value.0, parsed.value.1, counts));
  }

  /** One more outcome: an exception ends the collection, a row is added
      to it. */
  lemma CollectedStep(outs: seq<Result<Row>>, i: nat, row: Result<Row>)
    requires i < |outs| && outs[i] == row && Collected(outs[..i]).Ok?
    ensures row.Raised? ==> Collected(outs).Raised?
    ensures row.Ok? ==> Collected(outs[..i + 1]) == Ok(Collected(outs[..i]).value + [row.value])
  {
    assert outs[..i + 1][..i] == outs[..i];
  }

  // ----- properties ---------------------------------------------------------

  /** The injection keys of a row are those of the injection record, though
      `row.update(basics)` writes them a second time: both dicts carry the
      same values. */
  lemma InjectionKeysAgree(runId: string, caseId: string, files: CaseFiles)
    requires CaseRow(runId, caseId, files).Ok?
    ensures var row := CaseRow(runId, caseId, files).value;
      var info := Events.ParseEvents(files.events).value.1;
      row.injectAtS == info.injectAtS && row.injLenS == info.injLenS && row.injMode == info.injMode
  {
  }

  /** The stall metric exists exactly when the case has a fio report with a
      numeric max latency and an injection length was read; it is then the
      max latency less that length. */
  lemma StallMetric(runId: string, caseId: string, files: CaseFiles)
    requires CaseRow(runId, caseId, files).Ok?
    ensures var row := CaseRow(runId, caseId, files).value;
      var fio := FioWrite.WriteMetrics(files.fio).value;
      var info := Events.ParseEvents(files.events).value.1;
      && (row.clatMaxMinusInjS.Some? <==> fio.Metrics? && fio.clatMaxS.Some? && info.injLenS.Some?)
      && (row.clatMaxMinusInjS.Some? ==> row.clatMaxMinusInjS.value == fio.clatMaxS.value - info.injLenS.value)
  {
    InjectionKeysAgree(runId, caseId, files);
  }

  /** A case without fio.json still gets its row, without fio figures and
      without the stall metric. */
  lemma NoFioReport(runId: string, caseId: string, files: CaseFiles)
    requires files.fio.None? && Events.ParseEvents(files.events).Ok? && !ExportRaises(files.events)
    ensures CaseRow(runId, caseId, files).Ok?
    ensures CaseRow(runId, caseId, files).value.fio.NoMetrics?
    ensures CaseRow(runId, caseId, files).value.clatMaxMinusInjS.None?
  {
  }

  /** A non-empty events.csv without a ts or an event column stops the
      scan: its parse gives empty basics, but the export of its frame
      raises. */
  lemma EventsWithoutTimestamps(runId: string, caseId: string, files: CaseFiles)
    requires files.events.Some? && |files.events.value.rows| > 0
    requires "ts" !in files.events.value.columns || "event" !in files.events.value.columns
    ensures Events.ParseEvents(files.events) == Ok((Events.NoBasics, Events.NoInjection))
    ensures CaseRow(runId, caseId, files).Raised?
  {
  }

  /** One row per case directory, in the order `find_cases` lists them. */
  lemma RowPerCase(root: seq<Cases.Node>, files: ((string, string)) -> CaseFiles, i: nat)
    requires Rows(Cases.Discovered(root), files).Ok? && i < |Cases.Discovered(root)|
    ensures var row := Rows(Cases.Discovered(root), files).value[i];
      (row.runId, row.caseId) == Cases.Discovered(root)[i]
  {
  }
}
