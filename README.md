# usb-quic experiment tooling: the artifact extractors, in Dafny

This project models the part of the usb-quic repository's experiment tooling
that reads an experiment's result tree and turns the files of each run into
table rows. Two scripts are covered:

- the E002 ("bad network") aggregator, `aggregate_usbip.py`:
  - it parses a run's `profile.env`;
  - it reads the netem delays (`_to_ms`);
  - it reads the `ss` socket statistics and the `nstat` counters of
    `sys_net.txt`, and the `tc -s qdisc` header and `Sent` line;
  - it reads the five sections of `preflight.txt`;
  - it builds the read and write rows of every fio JSON report, with their
    latency percentiles;
  - its `main` assembles the profile, fio and net tables, stamps the fio rows
    with the run's parameters and sorts the profile table;
- the E003 ("no migration") visualiser, `viz_usbip_results.py`:
  - it reads the write figures of the first fio job (`_pct_lookup`,
    `parse_fio_json`);
  - it reads the run timeline and the injection parameters from `events.csv`;
  - it counts seven anomaly signatures in the dmesg and usbip logs, with
    the patterns as the script writes them (`Signatures.Table`; the
    `-104` pattern's flaw is under "## Findings");
  - it discovers the `results/<run_id>/<case_id>/` directories;
  - its `main` assembles one summary row per case.

File contents come in as values. Text is `string`, and a parsed JSON document
is a `Json.Json` tree whose objects are ordered member lists. Each extractor
is a function of those values. Where the script loops and accumulates, a
method with loop invariants is proved equal to that function. An exception
that escapes the script (a `TypeError`, `AttributeError`, `KeyError` or
`ValueError` that nothing catches) is the `Raised` case of `Base.Result`.
Caught exceptions are modelled as the value the `except` branch produces.

Each regular expression is modelled by a matcher of its own that follows
Python's `re` semantics for that pattern:
- leftmost match;
- greedy quantifiers that give back one character at a time;
- `\b` as a word/non-word boundary;
- `$` and `^` in multi-line mode where the flag is set.

`float()` is modelled on the decimal-literal grammar, with exact rational
values.

Modules, one file each:
- `base.dfy`:
  - `Base`: `Option`, and `Result` with `Raised`;
  - `Assignments`: a dict built by successive assignments.
- `text.dfy` (`Text`): `strip`, `splitlines`, `float()`, `int()` truncation and
  string order.
- `json.dfy` (`Json`): JSON values, truthiness and `dict.get`.
- `sorting.dfy` (`Sorting`): a stable insertion sort standing for `sorted` and
  `sort_values`.
- E002:
  - `env_file.dfy` (`EnvFile`);
  - `duration.dfy` (`Duration`);
  - `socket_stats.dfy` (`SocketStats`);
  - `nstat.dfy` (`Nstat`);
  - `qdisc.dfy` (`Qdisc`);
  - `preflight.dfy` (`Preflight`);
  - `fio_percentile.dfy` (`FioPercentile`);
  - `fio_jobs.dfy` (`FioJobs`);
  - `profiles.dfy` (`Profiles`, the loop of `main`).
- E003:
  - `pct_lookup.dfy` (`PctLookup`);
  - `fio_write.dfy` (`FioWrite`);
  - `events.dfy` (`Events`);
  - `signatures.dfy` (`Signatures`);
  - `cases.dfy` (`Cases`);
  - `summary.dfy` (`Summary`, the loop of `main`).

Where the code and the repository's own description of it disagree, the model
follows the code:
- The aggregator's percentile lookup sorts the keys before `min`. On a tie it
  therefore takes the smaller key, not the first one in the table
  (`FioPercentile.ClosestSmallestOnTie`). Only the visualiser's `_pct_lookup`
  keeps the first key met (`PctLookup.TieKeepsFirst`).
- The scripts do stop on some malformed input:
  - a LOSS value that is not a number (`Profiles.LossNotNumber`);
  - a latency block that is not a dict, or a latency that is not a number
    (`FioJobs.Latency`);
  - a timestamp in `events.csv` that does not parse (`Events.ParseEvents`);
  - a fio report whose top level is not a dict (`FioWrite.WriteMetrics`).

  The model raises in each of these cases.
- The aggregator does not survive a results tree without any run. A DataFrame
  built from no row has no `delay_ms` column, so `sort_values` raises
  `KeyError` (`Profiles.Aggregate`).
- The `a/b` statistics of `ss` are not "both or neither". `float(a)` is stored
  before `float(b)` is tried (`SocketStats.SlashFirstWithoutSecond`).
- `first_ts("fio_end") or last_ts("fio_end")` is always the first occurrence
  (`Events.FioEndIsFirst`).
- The `try`/`except` around the stall metric cannot fire, because both
  operands are floats whenever they are not None (`Summary.StallMetric`).

## Model

E002 is `docs/experiments/E002-bad-network/aggregate_usbip.py`; E003 is
`docs/experiments/E003-no-migration/viz_usbip_results.py`.

| member | source | states |
|---|---|---|
| EnvFile.ParseEnv | docs/experiments/E002-bad-network/aggregate_usbip.py:42-52 | the loop builds the dict of the lines' assignments: a key is present exactly when some line defines it, and it holds the value of the last such line |
| EnvFile.LineEntryShape | docs/experiments/E002-bad-network/aggregate_usbip.py:45-51 | blank, `#` and `=`-less lines contribute nothing (and only those); a key never contains `=`; key and value come out stripped |
| EnvFile.SplitsAtFirstEquals | docs/experiments/E002-bad-network/aggregate_usbip.py:50-51 | `k=v` splits at the first `=`, so the value keeps any later `=` |
| EnvFile.EnvKeys | docs/experiments/E002-bad-network/aggregate_usbip.py:44-51 | a key is in the dict iff some line of the file defines it |
| EnvFile.EnvLastWins | docs/experiments/E002-bad-network/aggregate_usbip.py:51 | a key holds the value of the last line that defines it |
| Duration.Scan | docs/experiments/E002-bad-network/aggregate_usbip.py:60-62 | a full match is a well-formed `<digits>[.<digits>]<unit>` literal whose text is the whole input |
| Duration.ScanRender | docs/experiments/E002-bad-network/aggregate_usbip.py:60 | every well-formed literal is matched, and the match gives it back (round trip) |
| Duration.ToMsLiteral | docs/experiments/E002-bad-network/aggregate_usbip.py:55-70 | a literal with blanks around it converts to its value in ms: `us` divided by 1000, `ms` as is, `s` times 1000 |
| Duration.ToMsOnlyLiterals | docs/experiments/E002-bad-network/aggregate_usbip.py:56-62 | anything that converts is one literal once stripped, and converts to that literal's value |
| Duration.ExampleMs | docs/experiments/E002-bad-network/aggregate_usbip.py:59-68 | "20ms" is 20 ms |
| Duration.ExampleS | docs/experiments/E002-bad-network/aggregate_usbip.py:69-70 | "0.5s" is 500 ms |
| Duration.ExampleUs | docs/experiments/E002-bad-network/aggregate_usbip.py:65-66 | " 200us" is 0.2 ms |
| Duration.ExamplesRejected | docs/experiments/E002-bad-network/aggregate_usbip.py:57-62 | "", a bare "20" and "1.s" give None |
| SocketStats.Count | docs/experiments/E002-bad-network/aggregate_usbip.py:81 | the dict is empty exactly when no statistic was read |
| SocketStats.EstabStart | docs/experiments/E002-bad-network/aggregate_usbip.py:83 | the leftmost position where `\bESTAB\b` matches, None iff there is none |
| SocketStats.EstabLine | docs/experiments/E002-bad-network/aggregate_usbip.py:83-86 | None iff no `\b`ESTAB`\b` occurs; otherwise the text from the leftmost such position to the end of its line, which starts with `ESTAB` |
| SocketStats.TokenStart | docs/experiments/E002-bad-network/aggregate_usbip.py:89-90 | the leftmost position where `\b<key>:\S` matches in the line, None iff there is none |
| SocketStats.Token | docs/experiments/E002-bad-network/aggregate_usbip.py:89-91 | None iff no `\b<key>:` is followed by a non-space; otherwise the whole run of non-space characters after the leftmost such match, up to a blank or the end of the line |
| SocketStats.IntTok | docs/experiments/E002-bad-network/aggregate_usbip.py:111-137 | present iff `float` accepts the token, and then its truncation toward zero |
| SocketStats.SlashPair | docs/experiments/E002-bad-network/aggregate_usbip.py:93-101 | the `try` over an `a/b` token: the second value is never set without the first |
| SocketStats.ParseSsRtt | docs/experiments/E002-bad-network/aggregate_usbip.py:74-148 | the step-by-step parse gives the statistics `SocketStats.Stats` defines |
| SocketStats.Stats | docs/experiments/E002-bad-network/aggregate_usbip.py:74-148 | nothing without an ESTAB word; each statistic only when its own key has a token on the ESTAB line; rtt_var (retrans_total) only together with rtt (retrans_inflight) |
| SocketStats.FirstEstabLine | docs/experiments/E002-bad-network/aggregate_usbip.py:83-86 | when the lines before it hold no `ESTAB`, the match is the first ESTAB line whole, whatever follows |
| SocketStats.StatsOfFirstLine | docs/experiments/E002-bad-network/aggregate_usbip.py:83-146 | the statistics of a text are those of its first ESTAB line alone |
| SocketStats.TokenAtStart | docs/experiments/E002-bad-network/aggregate_usbip.py:89-91 | `key:v` at the start of a line gives v whole, up to the next blank |
| SocketStats.RetransNotInBytesRetrans | docs/experiments/E002-bad-network/aggregate_usbip.py:118-146 | `retrans:` is not found inside `bytes_retrans:` (no word boundary after the underscore) |
| SocketStats.SlashFirstWithoutSecond | docs/experiments/E002-bad-network/aggregate_usbip.py:95-101 | a readable a and an unreadable b give the first field and no second |
| SocketStats.SlashBoth | docs/experiments/E002-bad-network/aggregate_usbip.py:95-99 | a well-formed `a/b` gives both fields |
| Nstat.ParseNstat | docs/experiments/E002-bad-network/aggregate_usbip.py:151-186 | the loop gives the counters `Nstat.Counters` defines |
| Nstat.Counters | docs/experiments/E002-bad-network/aggregate_usbip.py:157-185 | only allow-listed counters are kept |
| Nstat.ReadRows | docs/experiments/E002-bad-network/aggregate_usbip.py:176-185 | the loop over the rows applies their assignments in order |
| Nstat.ReadRow | docs/experiments/E002-bad-network/aggregate_usbip.py:176-185 | one pass of the loop applies exactly the row's assignment, skips included |
| Nstat.RowEntryShape | docs/experiments/E002-bad-network/aggregate_usbip.py:177-185 | blank and comment rows give nothing; a row gives a wanted name with the truncated float of its second field |
| Nstat.CountersKept | docs/experiments/E002-bad-network/aggregate_usbip.py:157-183 | every key is a wanted counter assigned by some row, and every assigned one is a key |
| Nstat.CountersLastWins | docs/experiments/E002-bad-network/aggregate_usbip.py:183 | a counter holds the value of its last assigning row |
| Nstat.WantedRow | docs/experiments/E002-bad-network/aggregate_usbip.py:180-183 | `<wanted name> <digits>` yields that counter with the digits' value |
| Nstat.UnwantedRow | docs/experiments/E002-bad-network/aggregate_usbip.py:181 | a row of a counter outside the allow-list yields nothing |
| Nstat.WantedNames | docs/experiments/E002-bad-network/aggregate_usbip.py:157-174 | every allow-listed name is a single non-comment field, so a row can carry it |
| Qdisc.Items | docs/experiments/E002-bad-network/aggregate_usbip.py:195-210 | the dict has the two header keys exactly when the header matched, and the five Sent keys exactly when the Sent line matched |
| Qdisc.ParseHeader | docs/experiments/E002-bad-network/aggregate_usbip.py:196-199 | None iff the header pattern matches at no position; otherwise the match at the leftmost position where it matches |
| Qdisc.ParseSent | docs/experiments/E002-bad-network/aggregate_usbip.py:200-209 | None iff the Sent pattern matches at no position; otherwise the match at the leftmost position where it matches |
| Qdisc.ParseQdiscStats | docs/experiments/E002-bad-network/aggregate_usbip.py:189-210 | the two searches are independent: each part is present iff its own pattern matches somewhere |
| Qdisc.SentRoundTrip | docs/experiments/E002-bad-network/aggregate_usbip.py:200-209 | reading a printed Sent line gives its five counters back |
| Qdisc.DropsRoundTrip | docs/experiments/E002-bad-network/aggregate_usbip.py:201 | the `(dropped …, overlimits … requeues …)` part reads back its three counters |
| Qdisc.HeaderRoundTrip | docs/experiments/E002-bad-network/aggregate_usbip.py:196-199 | a header line gives back its kind and its limit |
| Qdisc.HeaderTail | docs/experiments/E002-bad-network/aggregate_usbip.py:196 | the greedy `.*` ends on the last `limit <n>` of the line |
| Qdisc.LimitFirst | docs/experiments/E002-bad-network/aggregate_usbip.py:196 | `\blimit\s+(\d+)` after a non-word character reads the limit |
| Preflight.Match | docs/experiments/E002-bad-network/aggregate_usbip.py:344 | a match yields one captured group per `([^\n]+)`, each a non-empty piece of a single line |
| Preflight.Lookup | docs/experiments/E002-bad-network/aggregate_usbip.py:344-355 | `m.group(1).strip()` is None iff the section pattern matches at no line start |
| Preflight.SecondLookup | docs/experiments/E002-bad-network/aggregate_usbip.py:356-361 | `m.group(2).strip()` is None iff the two-line pattern matches at no line start |
| Preflight.Parse | docs/experiments/E002-bad-network/aggregate_usbip.py:341-361 | each of the five fields is None iff its own pattern matches at no line start |
| Preflight.SearchFrom | docs/experiments/E002-bad-network/aggregate_usbip.py:344 | `re.search` yields as many groups as the pattern has |
| Preflight.SearchNone | docs/experiments/E002-bad-network/aggregate_usbip.py:344-346 | the search fails iff the pattern matches at no line start |
| Preflight.SearchFirst | docs/experiments/E002-bad-network/aggregate_usbip.py:344-346 | a successful search is the match at the first line start where the pattern matches |
| Preflight.NoSections | docs/experiments/E002-bad-network/aggregate_usbip.py:341-361 | a text without `###` leaves all five fields None |
| Preflight.SectionLine | docs/experiments/E002-bad-network/aggregate_usbip.py:344 | `### <name>` then a line captures that whole line |
| Preflight.SectionTwoLines | docs/experiments/E002-bad-network/aggregate_usbip.py:356-358 | the fio_version pattern captures the two lines after its heading |
| Preflight.LookupOpeningSection | docs/experiments/E002-bad-network/aggregate_usbip.py:344-355 | a report opening with `### <name>` gives that section's line, stripped |
| Preflight.SecondLookupOpeningSection | docs/experiments/E002-bad-network/aggregate_usbip.py:356-361 | the fio_version lookup gives the second line after its heading, stripped |
| Preflight.LookupAfterLines | docs/experiments/E002-bad-network/aggregate_usbip.py:344-355 | for a section after any lines without `###`, the lookup passes them by and gives the line after `### <name>`, stripped |
| Preflight.SecondLookupAfterLines | docs/experiments/E002-bad-network/aggregate_usbip.py:356-361 | for a section after any lines without `###`, the fio_version lookup gives the second line after its heading, stripped |
| Preflight.FioVersionAfterCommand | docs/experiments/E002-bad-network/aggregate_usbip.py:356-361 | after a `fio --version` line, the version is the next line |
| Preflight.FioVersionOneLine | docs/experiments/E002-bad-network/aggregate_usbip.py:356-361 | with one line of version text, the next section's heading is taken as the version |
| FioPercentile.NumericKeys | docs/experiments/E002-bad-network/aggregate_usbip.py:222-227 | never more keys than the table has; which keys, and in what order, is stated by `FioPercentile.NumericKeysMembers` and `FioPercentile.NumericKeysConcat` |
| FioPercentile.NumericKeysMembers | docs/experiments/E002-bad-network/aggregate_usbip.py:222-227 | a number is collected iff some member's key parses to it |
| FioPercentile.NumericKeysConcat | docs/experiments/E002-bad-network/aggregate_usbip.py:222-227 | the keys are collected in table order: those of a table split in two are those of the first part, then those of the second |
| FioPercentile.Closest | docs/experiments/E002-bad-network/aggregate_usbip.py:231 | `min` by distance picks one of the keys |
| FioPercentile.CollectKeys | docs/experiments/E002-bad-network/aggregate_usbip.py:222-227 | the loop collects exactly the parsable keys, in table order |
| FioPercentile.ClosestIsFirstNearest | docs/experiments/E002-bad-network/aggregate_usbip.py:231 | `min` by distance returns a key at least distance, and every key before it is strictly farther |
| FioPercentile.ClosestKey | docs/experiments/E002-bad-network/aggregate_usbip.py:231 | the scan returns the same key as `min` |
| FioPercentile.ClosestSmallestOnTie | docs/experiments/E002-bad-network/aggregate_usbip.py:230-231 | after the sort, the chosen key is one of the keys, at least distance, and the smallest of the keys at that distance |
| FioPercentile.RoundHalfEven | docs/experiments/E002-bad-network/aggregate_usbip.py:232 | rounding for `:.6f` lands within one half of the value, and a tie goes to the even neighbour |
| FioPercentile.Format6 | docs/experiments/E002-bad-network/aggregate_usbip.py:232 | `:.6f` ends in a point and six digits, and starts with `-` iff the value is negative |
| FioPercentile.Format6Whole | docs/experiments/E002-bad-network/aggregate_usbip.py:232 | a whole number prints as `<n>.000000` |
| FioPercentile.ReadFormatted | docs/experiments/E002-bad-network/aggregate_usbip.py:224-225 | `<n>.000000` reads back as n |
| FioPercentile.ReadFixed6 | docs/experiments/E002-bad-network/aggregate_usbip.py:224-225 | `float()` reads a six-decimal spelling `<whole>.<micros>` back as whole plus micros millionths |
| FioPercentile.FormatFixed6 | docs/experiments/E002-bad-network/aggregate_usbip.py:232 | `:.6f` of whole plus micros millionths is that spelling again |
| FioPercentile.SpellingRoundTrip | docs/experiments/E002-bad-network/aggregate_usbip.py:224-232 | every key fio writes with six decimals parses, and `:.6f` of its value gives the key back |
| FioPercentile.NearRequested | docs/experiments/E002-bad-network/aggregate_usbip.py:233-241 | the fallback gives the value of the first member whose key lies within 1e-6 of the requested pct, and None iff no key does |
| FioPercentile.FindNear | docs/experiments/E002-bad-network/aggregate_usbip.py:233-241 | the fallback loop stops at the first key within 1e-6 of pct, as `FioPercentile.NearRequested` states |
| FioPercentile.Answer | docs/experiments/E002-bad-network/aggregate_usbip.py:232-243 | a key present with a value is answered by that value in ms; with no such key and nothing within 1e-6, None; never raises |
| FioPercentile.PercentileMs | docs/experiments/E002-bad-network/aggregate_usbip.py:217-247 | a falsy table gives None; raises iff the table is truthy and not a dict; a table without a numeric key gives None |
| FioPercentile.PercentileNsToMs | docs/experiments/E002-bad-network/aggregate_usbip.py:213-247 | the step-by-step lookup agrees with the lookup's definition on every table and pct |
| FioPercentile.FormattedKeyAnswersAnyPct | docs/experiments/E002-bad-network/aggregate_usbip.py:220-247 | a single key in fio's spelling answers every pct, however far: no tolerance on the closest key |
| FioPercentile.PlainKeyOnlyAtItsOwnPct | docs/experiments/E002-bad-network/aggregate_usbip.py:232-243 | a key written without decimals is found only by the fallback, so only for a pct within 1e-6 of it |
| FioPercentile.ExampleP99 | docs/experiments/E002-bad-network/aggregate_usbip.py:217-247 | `{"50.000000": 1e6, "99.000000": 5e6}` gives 5 ms at p99 |
| FioPercentile.SingleKey | docs/experiments/E002-bad-network/aggregate_usbip.py:228-232 | one numeric key: the lookup uses its six-decimal spelling |
| FioPercentile.TwoKeys | docs/experiments/E002-bad-network/aggregate_usbip.py:228-232 | two ascending numeric keys: the lookup uses the closer one's spelling |
| FioPercentile.ClosestKeyAnswers | docs/experiments/E002-bad-network/aggregate_usbip.py:220-247 | for any table whose keys are fio's six-decimal spellings, with values: the lookup is answered by the value under the spelling of the closest key |
| FioPercentile.FioTableSpelled | docs/experiments/E002-bad-network/aggregate_usbip.py:220-232 | a table whose keys are spelled from (whole, micros) pairs meets that spelling condition |
| FioJobs.PercentileColumns | docs/experiments/E002-bad-network/aggregate_usbip.py:292-297 | one column per requested pct, each that pct's lookup; raises iff one lookup raises |
| FioJobs.Block | docs/experiments/E002-bad-network/aggregate_usbip.py:265 | `d.get(key) or {}`: a truthy value as it is, otherwise the empty dict |
| FioJobs.Count | docs/experiments/E002-bad-network/aggregate_usbip.py:266-267 | `d.get(key, 0) or 0`: a truthy value as it is, otherwise 0 |
| FioJobs.CountZero | docs/experiments/E002-bad-network/aggregate_usbip.py:266-268 | `== 0` after `or 0` is falsiness of the raw count |
| FioJobs.Latency | docs/experiments/E002-bad-network/aggregate_usbip.py:286-291 | None iff the block is empty; raises iff it is not a dict or its field is not a number; otherwise the ns figure over 1e6 |
| FioJobs.DirectionRow | docs/experiments/E002-bad-network/aggregate_usbip.py:264-300 | a block that is a dict gives a row iff it did I/O; the row carries the direction, the version, the path, the jobname, rw and bs |
| FioJobs.DirectionFigures | docs/experiments/E002-bad-network/aggregate_usbip.py:286-297 | raises iff a latency or a percentile lookup of the block fails; otherwise each latency column is its block's figure in ms and the percentile columns are the clat lookups |
| FioJobs.DirectionRowRaises | docs/experiments/E002-bad-network/aggregate_usbip.py:264-297 | a direction raises iff its block is not a dict, or it did I/O and one of its figures fails |
| FioJobs.DirectionRowColumns | docs/experiments/E002-bad-network/aggregate_usbip.py:270-297 | every column of a row is its source field: runtime, bw, bw_bytes and iops as they stand, io_bytes and total_ios after `or 0`, and the figures of `FioJobs.DirectionFigures` |
| FioJobs.JobOptions | docs/experiments/E002-bad-network/aggregate_usbip.py:261-263 | the bs and rw reads succeed iff the options are a dict |
| FioJobs.JobRows | docs/experiments/E002-bad-network/aggregate_usbip.py:259-300 | at most two rows per job, one per direction that did I/O, read before write |
| FioJobs.JobRowsLoop | docs/experiments/E002-bad-network/aggregate_usbip.py:264-300 | the loop over the two directions gives exactly the job's rows |
| FioJobs.Jobs | docs/experiments/E002-bad-network/aggregate_usbip.py:258-259 | a falsy `jobs` gives no job; a list gives its items |
| FioJobs.AllRows | docs/experiments/E002-bad-network/aggregate_usbip.py:258-301 | at most two rows per job, each read or write, with the report's version and path and no stamp |
| FioJobs.ParseFioJson | docs/experiments/E002-bad-network/aggregate_usbip.py:250-301 | the nested loops give exactly the rows of every job in order, or the exception |
| FioJobs.FioRows | docs/experiments/E002-bad-network/aggregate_usbip.py:250-301 | a report that is not a dict raises; every row carries the report's `fio version`, the path and no stamp |
| FioJobs.PrefixRaised | docs/experiments/E002-bad-network/aggregate_usbip.py:259 | once a job raises, the whole report raises |
| FioJobs.ExampleReadOnly | docs/experiments/E002-bad-network/aggregate_usbip.py:250-301 | a read-only job gives exactly one row, the read row, with the report's version and path |
| FioJobs.SingleJobReport | docs/experiments/E002-bad-network/aggregate_usbip.py:257-259 | a one-job report gives that job's rows |
| Profiles.LossPct | docs/experiments/E002-bad-network/aggregate_usbip.py:330-331 | None iff nothing is left after strip and `rstrip("%")`; raises iff what is left is not a number |
| Profiles.LimitPkts | docs/experiments/E002-bad-network/aggregate_usbip.py:332-333 | present iff the text is non-empty and all digits |
| Profiles.OrElse | docs/experiments/E002-bad-network/aggregate_usbip.py:387 | `a or b` is one of its operands |
| Profiles.Reprefixed | docs/experiments/E002-bad-network/aggregate_usbip.py:393 | every item keeps its value, and its key gains the `qdisc_` prefix |
| Profiles.Stamped | docs/experiments/E002-bad-network/aggregate_usbip.py:402-405 | every row is kept, with the run's stamp added |
| Profiles.RunFio | docs/experiments/E002-bad-network/aggregate_usbip.py:398-406 | every fio row of a run carries the run's stamp |
| Profiles.ProfileOf | docs/experiments/E002-bad-network/aggregate_usbip.py:323-395 | raises iff LOSS raises; otherwise the row carries the run's name and directory, DELAY and JITTER in ms, LOSS as a percentage, LIMIT as a count, the four preflight fields and the prefixed qdisc items |
| Profiles.NetOf | docs/experiments/E002-bad-network/aggregate_usbip.py:372-377 | the net dict carries the profile_id; without sys_net.txt nothing else, with it the socket statistics and the allow-listed counters of that text |
| Profiles.RunOutput | docs/experiments/E002-bad-network/aggregate_usbip.py:322-410 | a run raises iff its LOSS or one of its reports raises; its fio rows carry its profile's id, delay, jitter and loss; the net row exists iff sys_net.txt gave a statistic |
| Profiles.Combine | docs/experiments/E002-bad-network/aggregate_usbip.py:380-410 | one profile row per run, in order, each from its own run |
| Profiles.Outputs | docs/experiments/E002-bad-network/aggregate_usbip.py:322-410 | one output per run, each that run's own |
| Profiles.AllRuns | docs/experiments/E002-bad-network/aggregate_usbip.py:322-410 | one profile row per run, carrying that run's profile_id |
| Profiles.CombineJoined | docs/experiments/E002-bad-network/aggregate_usbip.py:398-431 | every fio row matches some profile row on the four join keys, and every net row matches some profile_id |
| Profiles.AllRunsJoined | docs/experiments/E002-bad-network/aggregate_usbip.py:398-431 | the tables of all runs are joined in that sense |
| Profiles.Aggregate | docs/experiments/E002-bad-network/aggregate_usbip.py:412-414 | no run means the sort raises |
| Profiles.AggregateOrder | docs/experiments/E002-bad-network/aggregate_usbip.py:412-414 | the profile table is a permutation of the runs' rows, ordered by delay with missing delays last, then by profile_id |
| Sorting.SortStable | docs/experiments/E002-bad-network/aggregate_usbip.py:412-414 | the sort is stable: the rows it ranks equal to any given row come out in the order they went in |
| Sorting.InsertStable | docs/experiments/E002-bad-network/aggregate_usbip.py:412-414 | inserting into a sorted list puts the new row after every row ranked equal to it |
| Profiles.SortedProfiles | docs/experiments/E002-bad-network/aggregate_usbip.py:412-414 | the sort orders by delay with missing delays last, then by profile_id |
| Profiles.AggregateJoined | docs/experiments/E002-bad-network/aggregate_usbip.py:412-431 | the sort keeps the tables joined |
| Profiles.ReorderedJoined | docs/experiments/E002-bad-network/aggregate_usbip.py:412-431 | any permutation of the profile table keeps the join |
| Profiles.LossRoundTrip | docs/experiments/E002-bad-network/aggregate_usbip.py:330-331 | `<n>%` reads back as n |
| Profiles.LossAbsent | docs/experiments/E002-bad-network/aggregate_usbip.py:330-331 | an empty LOSS, or one of only percent signs, gives None |
| Profiles.LossBlankBeforePercent | docs/experiments/E002-bad-network/aggregate_usbip.py:330-331 | "2.5 %" gives 2.5 |
| Profiles.LossNotNumber | docs/experiments/E002-bad-network/aggregate_usbip.py:331 | a LOSS that is not a number stops the script |
| Profiles.LimitRoundTrip | docs/experiments/E002-bad-network/aggregate_usbip.py:333 | LIMIT reads back any decimal whole number |
| Profiles.LimitExamples | docs/experiments/E002-bad-network/aggregate_usbip.py:333 | empty, signed or exponent LIMIT values give None |
| Profiles.QdiscDoublePrefix | docs/experiments/E002-bad-network/aggregate_usbip.py:393 | every qdisc column of the profile table starts with `qdisc_qdisc_` |
| Profiles.FioVersionSource | docs/experiments/E002-bad-network/aggregate_usbip.py:387 | fio_version is the preflight value when it is non-empty, else profile.env's |
| Profiles.CollectFio | docs/experiments/E002-bad-network/aggregate_usbip.py:398-406 | the loop over a run's reports gives its stamped rows, or the exception |
| Profiles.StampRows | docs/experiments/E002-bad-network/aggregate_usbip.py:401-406 | the inner loop stamps every row of a report |
| Profiles.CollectRun | docs/experiments/E002-bad-network/aggregate_usbip.py:322-410 | one iteration of the runs loop gives the run's output |
| Profiles.CollectProfile | docs/experiments/E002-bad-network/aggregate_usbip.py:326-395 | from the parsed profile.env, the step-by-step assembly gives the run's profile row |
| Profiles.CollectNet | docs/experiments/E002-bad-network/aggregate_usbip.py:372-377 | the net dict holds the profile_id and, when sys_net.txt exists, its socket statistics and counters |
| Profiles.CombineRuns | docs/experiments/E002-bad-network/aggregate_usbip.py:322-410 | the runs loop accumulates the three tables |
| Profiles.AggregateRuns | docs/experiments/E002-bad-network/aggregate_usbip.py:322-414 | the runs loop followed by the sort gives the final tables |
| PctLookup.Lookup | docs/experiments/E003-no-migration/viz_usbip_results.py:66-93 | a falsy table gives None; a key present verbatim gives its value; raises exactly on a number, or on a string or list that contains the key |
| PctLookup.PctLookup | docs/experiments/E003-no-migration/viz_usbip_results.py:66-93 | the step-by-step lookup agrees with its definition |
| PctLookup.ScanNearest | docs/experiments/E003-no-migration/viz_usbip_results.py:75-92 | the `try` block with its scan gives the numeric fallback |
| PctLookup.BestNone | docs/experiments/E003-no-migration/viz_usbip_results.py:80-89 | the scan finds no candidate iff no key parses |
| PctLookup.BestIsFirstLeast | docs/experiments/E003-no-migration/viz_usbip_results.py:80-88 | the candidate is the first key at the least distance |
| PctLookup.ClosestWithinTolerance | docs/experiments/E003-no-migration/viz_usbip_results.py:75-90 | for a parsable key not present: a value is found iff some key lies within 1e-6, and then it is the one under the first closest key |
| PctLookup.NonNumericKeySkipped | docs/experiments/E003-no-migration/viz_usbip_results.py:80-84 | a key `float` rejects changes no lookup of a parsable key |
| PctLookup.TieKeepsFirst | docs/experiments/E003-no-migration/viz_usbip_results.py:86-90 | of two equally close keys within tolerance, the first in the table wins |
| FioWrite.Scaled | docs/experiments/E003-no-migration/viz_usbip_results.py:117-131 | present iff the value is a number, and then the value over the divisor |
| FioWrite.PctSeconds | docs/experiments/E003-no-migration/viz_usbip_results.py:135-139 | raises iff the lookup raises; a lookup of None gives None, and a found value x gives x over 1e9 when it is a number |
| FioWrite.PctColumns | docs/experiments/E003-no-migration/viz_usbip_results.py:148-151 | one column per key, each that key's lookup in seconds; raises iff one lookup raises |
| FioWrite.FirstJob | docs/experiments/E003-no-migration/viz_usbip_results.py:110 | `jobs[0]` of a list is its first item; only a list or a string succeeds |
| FioWrite.WriteMetrics | docs/experiments/E003-no-migration/viz_usbip_results.py:96-152 | no file or no jobs gives the empty dict; a report that is not a dict raises; otherwise the metrics of the first job, raising iff taking it or reading it raises |
| FioWrite.JobMetrics | docs/experiments/E003-no-migration/viz_usbip_results.py:111-152 | the ten keys, with runtime_s the job runtime over 1000 when it is a number |
| FioWrite.OnlyFirstJob | docs/experiments/E003-no-migration/viz_usbip_results.py:106-110 | reports whose job lists start with the same job give the same figures |
| FioWrite.OnlyWriteAndRuntime | docs/experiments/E003-no-migration/viz_usbip_results.py:111-118 | jobs that agree on their write block and job_runtime give the same figures |
| FioWrite.NoWriteBlock | docs/experiments/E003-no-migration/viz_usbip_results.py:111-152 | a job without a write block still gives the ten keys, all None except runtime_s |
| FioWrite.Latencies | docs/experiments/E003-no-migration/viz_usbip_results.py:113-131 | the copied fields come from the write block; the latencies are the ns figures over 1e9, present iff they are numbers |
| FioWrite.ExactPercentile | docs/experiments/E003-no-migration/viz_usbip_results.py:133-151 | a percentile under the exact key is its ns figure over 1e9 when it is a number |
| Events.Timed | docs/experiments/E003-no-migration/viz_usbip_results.py:187 | parsing succeeds iff every timestamp parses; each row keeps its event and details |
| Events.FirstOf | docs/experiments/E003-no-migration/viz_usbip_results.py:189-193 | the first row with the event name, or None iff there is none |
| Events.LastOf | docs/experiments/E003-no-migration/viz_usbip_results.py:195-199 | the last row with the event name, or None iff there is none |
| Events.Mode | docs/experiments/E003-no-migration/viz_usbip_results.py:214-216 | None iff `mode=` is never followed by a mode character; otherwise the whole run of mode characters after the leftmost `mode=` that has one |
| Events.Seconds | docs/experiments/E003-no-migration/viz_usbip_results.py:217-219 | None iff `<key><digits>s` occurs nowhere; otherwise the value of the digits after the leftmost match's key |
| Events.ModeFrom | docs/experiments/E003-no-migration/viz_usbip_results.py:214 | the leftmost `mode=<mode char>` at or after a position |
| Events.DigitRun | docs/experiments/E003-no-migration/viz_usbip_results.py:217 | `\d+` is the whole run of digits from a position |
| Events.SecondsFrom | docs/experiments/E003-no-migration/viz_usbip_results.py:217 | the leftmost match from a position |
| Events.WallS | docs/experiments/E003-no-migration/viz_usbip_results.py:247-249 | present iff both instants are, and then end minus start in seconds |
| Events.ParseEvents | docs/experiments/E003-no-migration/viz_usbip_results.py:169-254 | no file, or no ts or event column, gives empty basics and an empty record; otherwise raises iff some timestamp does not parse, and when none raises the result is the summary of the timed rows, details included iff the file has that column |
| Events.Summarise | docs/experiments/E003-no-migration/viz_usbip_results.py:189-232 | the basics hold the first run_start and fio_start instants; the record holds the first injection_start and injection_reverted instants; basics and record agree on inject_at_s and inj_len_s; the mode and the length are read from the details of the first injection_start row, inject_at_s from those of the first inject_wait_done row, and each is None without that row |
| Events.FirstTsIsFirst | docs/experiments/E003-no-migration/viz_usbip_results.py:189-193 | first_ts is known iff the event occurs, and is the instant of its first occurrence |
| Events.FioEndIsFirst | docs/experiments/E003-no-migration/viz_usbip_results.py:203 | `first_ts or last_ts` is always first_ts |
| Events.WallTime | docs/experiments/E003-no-migration/viz_usbip_results.py:243-249 | fio_wall_s is known iff fio_start and fio_end both occur, and is the time between their first occurrences |
| Events.InjectionDetailsRoundTrip | docs/experiments/E003-no-migration/viz_usbip_results.py:212-219 | "mode=<m>;len=<n>s" gives back m and n |
| Events.ModeThenText | docs/experiments/E003-no-migration/viz_usbip_results.py:214-216 | the mode is the whole run of mode characters after `mode=` |
| Events.LenAfterMode | docs/experiments/E003-no-migration/viz_usbip_results.py:217-219 | in "mode=<m>;len=<ds>s" the length is the value of ds |
| Events.WaitDetailsRoundTrip | docs/experiments/E003-no-migration/viz_usbip_results.py:226-232 | "at=<n>s" gives back n |
| Events.LenNeedsUnit | docs/experiments/E003-no-migration/viz_usbip_results.py:217 | "len=<n>" without the `s` gives None |
| Signatures.MatchEnd | docs/experiments/E003-no-migration/viz_usbip_results.py:261-270 | a match starting at a position ends after it, within the text |
| Signatures.CountFrom | docs/experiments/E003-no-migration/viz_usbip_results.py:276 | `findall` from a position finds no more matches than characters are left |
| Signatures.Count | docs/experiments/E003-no-migration/viz_usbip_results.py:276 | `len(re.findall(…))` is at most the length of the text |
| Signatures.PhraseEnd | docs/experiments/E003-no-migration/viz_usbip_results.py:264-268 | the end of an alternative that occurs at the position, ignoring case; None iff none does |
| Signatures.TableWellFormed | docs/experiments/E003-no-migration/viz_usbip_results.py:261-270 | the seven signature names are distinct and every pattern is well formed |
| Signatures.Counts | docs/experiments/E003-no-migration/viz_usbip_results.py:273-277 | the counts of the script's table, as written: exactly the seven signature names as keys |
| Signatures.CountSignatures | docs/experiments/E003-no-migration/viz_usbip_results.py:273-277 | the loop over the table gives those counts |
| Signatures.CountsOfValue | docs/experiments/E003-no-migration/viz_usbip_results.py:275-276 | with distinct names, each name holds its own pattern's count |
| Signatures.CountZeroIff | docs/experiments/E003-no-migration/viz_usbip_results.py:276 | a count is zero iff the pattern matches at no position |
| Signatures.CountsZero | docs/experiments/E003-no-migration/viz_usbip_results.py:273-277 | every signature has a count, which is zero iff its pattern matches nowhere |
| Signatures.FoldUpper | docs/experiments/E003-no-migration/viz_usbip_results.py:276 | with IGNORECASE, the upper-case spelling of a phrase matches the phrase |
| Signatures.ErrnoAfterSpaceMissed | docs/experiments/E003-no-migration/viz_usbip_results.py:263 | as written, `\b-104\b` never matches a `-104` after a non-word character |
| Signatures.ErrnoStandaloneMissed | docs/experiments/E003-no-migration/viz_usbip_results.py:263 | as written, a line whose only `-` is a `-104` after a non-word character (such as "error -104") counts 0 |
| Signatures.ErrnoEntry | docs/experiments/E003-no-migration/viz_usbip_results.py:261-276 | the `ecnnreset_-104` entry is the count of the table's own `-104` pattern, in each table |
| Signatures.ErrnoGluedCounted | docs/experiments/E003-no-migration/viz_usbip_results.py:263 | as written, `-104` glued to a word ("x-104") is matched, which the corrected pattern leaves out |
| Signatures.ErrnoTokenCounted | docs/experiments/E003-no-migration/viz_usbip_results.py:263 | the corrected pattern counts a standalone `-104` |
| Signatures.CorrectedCounts | docs/experiments/E003-no-migration/viz_usbip_results.py:261-277 | the corrected table counts the same seven names |
| Signatures.CorrectedCountsDiffer | docs/experiments/E003-no-migration/viz_usbip_results.py:261-277 | the corrected table differs from the script's only in the `-104` entry |
| Signatures.ErrnoStandalone | docs/experiments/E003-no-migration/viz_usbip_results.py:263 | a standalone `-104` counts 0 under the script's table and more than 0 under the corrected one |
| Cases.FindCases | docs/experiments/E003-no-migration/viz_usbip_results.py:285-297 | the two nested loops give the discovered cases |
| Cases.CasesOf | docs/experiments/E003-no-migration/viz_usbip_results.py:294-296 | a run gives no more cases than it has entries, each under the run's name |
| Cases.CasesIn | docs/experiments/E003-no-migration/viz_usbip_results.py:294-296 | the inner loop gives the sub-directories of one run |
| Cases.DiscoveredExactly | docs/experiments/E003-no-migration/viz_usbip_results.py:285-297 | what `Cases.Discovered` returns: (r, c) is found iff the root has a directory r holding a directory c; files are skipped at both levels |
| Cases.CasesOfMembers | docs/experiments/E003-no-migration/viz_usbip_results.py:294-296 | a run's cases are exactly its sub-directories |
| Cases.CollectMembers | docs/experiments/E003-no-migration/viz_usbip_results.py:291-296 | what `Cases.Collect` returns: the collected cases are exactly those of some run |
| Cases.ListingMembers | docs/experiments/E003-no-migration/viz_usbip_results.py:291 | sorting a listing keeps its entries |
| Cases.CasesOfOrdered | docs/experiments/E003-no-migration/viz_usbip_results.py:294-296 | a run's cases come in case-name order |
| Cases.CollectOrdered | docs/experiments/E003-no-migration/viz_usbip_results.py:291-296 | over sorted, distinct runs, the cases come by run name, then by case name |
| Cases.DiscoveredOrdered | docs/experiments/E003-no-migration/viz_usbip_results.py:285-297 | `find_cases` orders by run name, then case name |
| Summary.Assemble | docs/experiments/E003-no-migration/viz_usbip_results.py:418-442 | the row keeps the ids, fio figures and counts; inj_len_s comes from basics when they are non-empty; the stall metric exists iff clat_max_s and inj_len_s do, and is their difference |
| Summary.ExportRaises | docs/experiments/E003-no-migration/viz_usbip_results.py:446-454 | the events export raises KeyError iff events.csv exists, has rows and lacks a ts, event or details column |
| Summary.CaseRow | docs/experiments/E003-no-migration/viz_usbip_results.py:407-454 | a case raises iff its fio report, its events file or the export of its events raises; the row carries the ids, the seven counts of dmesg_tail.log and usbip_port.log joined by a newline, the fio figures, the basics, and the injection mode and instants of the parsed events |
| Summary.EventsWithoutTimestamps | docs/experiments/E003-no-migration/viz_usbip_results.py:182-184 | a non-empty events.csv without a ts or event column parses to empty basics, yet stops the scan at its export |
| Summary.Outcomes | docs/experiments/E003-no-migration/viz_usbip_results.py:407-454 | one outcome per case, in order, each that case's row or exception |
| Summary.Collected | docs/experiments/E003-no-migration/viz_usbip_results.py:444 | the rows are collected iff no case raised, each in its place |
| Summary.Rows | docs/experiments/E003-no-migration/viz_usbip_results.py:407-454 | one row per case, in order, iff no case raises |
| Summary.Scan | docs/experiments/E003-no-migration/viz_usbip_results.py:407-454 | the loop of main gives the rows of the discovered cases |
| Summary.ScanAll | docs/experiments/E003-no-migration/viz_usbip_results.py:407-444 | the loop over a list of cases gives their rows in order, or the first exception |
| Summary.ScanCase | docs/experiments/E003-no-migration/viz_usbip_results.py:407-454 | one loop body gives that case's row, or its exception |
| Summary.InjectionKeysAgree | docs/experiments/E003-no-migration/viz_usbip_results.py:421-431 | after `row.update(basics)`, the injection keys still hold the injection record's values |
| Summary.StallMetric | docs/experiments/E003-no-migration/viz_usbip_results.py:435-442 | the stall metric exists iff the report has a numeric max latency and a length was read, and is their difference |
| Summary.NoFioReport | docs/experiments/E003-no-migration/viz_usbip_results.py:102-103 | a case without fio.json whose events parse and export still gets a row, with no fio figures and no stall metric |
| Summary.RowPerCase | docs/experiments/E003-no-migration/viz_usbip_results.py:407-409 | row i carries the run_id and case_id of the i-th discovered case |

## Left out

- File reading and directory walking are not modelled: `read_text`, `exists`, `glob`, `rglob`, `safe_read_text`, `extract_if_archive`, `json.loads` and `pd.read_csv`. Their results are parameters: file texts, parsed JSON trees, a `Cases.Node` tree and a list of `Profiles.Run` records.
- A log file that exists but cannot be read (a permission error, a directory) makes `safe_read_text` raise on its second read, which ends the scan. The model takes each log as a text, "" when the file is missing, and does not cover that case.
- `argparse`, `to_csv`, `print` and the output directory are not modelled: they are I/O.
- The E002 merges into summary.csv (lines 424-432) are out of scope. `Profiles.Joined` states only the precondition they rely on, a partner row for every row.
- The E003 events export (lines 446-454) is modelled only as the KeyError it can raise (`Summary.ExportRaises`). The rows it writes go to a CSV file. `make_plots`, the plotting script and the Go QUIC utilities are outside the extraction core.
- Floating point is exact. `float()` gives the exact rational value of a decimal literal, and divisions such as `/ 1e6` are exact, so rounding of IEEE doubles is not modelled.
- `float()` accepts only decimal literals: `inf`, `nan`, underscores and non-ASCII digits are treated as malformed.
- `\d`, `\s` and `\w` are their ASCII sets, with Python's whitespace characters for `\s` and `strip`. IGNORECASE folds ASCII letters only.
- `parse_iso` is not modelled. A timestamp is an integer instant in microseconds, or None where parsing raises, and `isoformat()` text stands as the instant itself.
- pandas frames are a list of rows with a column set. The dtype inference of `read_csv` and NaN cells are not modelled, and the details cell is taken as the text `str()` gives.
- JSON objects are ordered member lists, and `get` reads the first pair with the key. A document with a duplicate key is not modelled as `json.loads` would keep it (the last pair).
- `sorted()` of paths compares the last path component as a string (`Text.LexLe`), which is how it orders the entries of one directory.
- Preflight.SectionLine: proved for headings written `### <name>` with one blank. Other spacings, such as `###<name>` or blanks after the name, go through the same matcher but have no lemma of their own.
- Profiles.LimitPkts: only ASCII digits count. Python's `isdigit` also accepts other digits: `int("١٢")` is 12, and `"²".isdigit()` holds but `int("²")` raises ValueError. Such a LIMIT gives None here.
- Qdisc.HeaderRoundTrip: proved for option text that ends in a non-word character before `limit`, as `tc` prints it. Other header lines are covered only by `Qdisc.ParseHeader`'s contract.

## Findings

| source | as written | input that shows it | evidently intended | confidence | as-written member | corrected member |
|---|---|---|---|---|---|---|
| docs/experiments/E003-no-migration/viz_usbip_results.py:263 | `\b-104\b` needs a word character before the `-`, since `-` is not a word character | the dmesg line "error -104" (also "(-104)" or "-104" at the start of a line) counts 0 | count every `-104` that stands on its own as a token | high; not executed | Signatures.ErrnoStandaloneMissed | Signatures.ErrnoStandalone |
