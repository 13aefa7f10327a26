/** `SIGNATURES` and `count_signatures` of the visualiser: how often each of
    seven known log signatures occurs in the dmesg and usbip logs of a case,
    counted as `len(re.findall(rx, text, re.IGNORECASE))`. Each regular
    expression is modelled by a matcher of its own. */
module Signatures {
  import opened Base
  import opened Text

  /** The shapes of the seven expressions. */
  datatype Signature =
    | Errno          // `\b-104\b`, as the table writes it
    | ErrnoToken     // `-104` not preceded by a word character and ending at `\b`
    | Phrases(alts: seq<string>)   // a literal alternation such as `reset (high-speed|...) USB device`
    | UsbipError     // `\b(usbip|vhci_hcd).*(error|ERR|failed)\b`

  /** ASCII case folding, which is what IGNORECASE does to these patterns. */
  function Lower(c: char): char
  {
    if 'A' <= c <= 'Z' then (c as int + 32) as char else c
  }

  /** t occurs at position i of s, ignoring case. */
  predicate AtFold(s: string, i: nat, t: string)
    ensures AtFold(s, i, t) && t != [] ==> i + |t| <= |s|
    decreases |t|
  {
    t == [] || (i < |s| && Lower(s[i]) == Lower(t[0]) && AtFold(s, i + 1, t[1..]))
  }

  /** The end of the first alternative that occurs at i. */
  function PhraseEnd(s: string, i: nat, alts: seq<string>): (r: Option<nat>)
    ensures r.Some? ==> exists k :: 0 <= k < |alts| && AtFold(s, i, alts[k]) && r.value == i + |alts[k]|
    ensures r.None? <==> forall k :: 0 <= k < |alts| ==> !AtFold(s, i, alts[k])
  {
    if alts == [] then None
    else if AtFold(s, i, alts[0]) then Some(i + |alts[0]|)
    else
      var r := PhraseEnd(s, i, alts[1..]);
      assert forall k :: 1 <= k < |alts| ==> alts[k] == alts[1..][k - 1];
      r
  }

  /** The alternatives of `(error|ERR|failed)`, in order. */
  const Failures: seq<string> := ["error", "ERR", "failed"]

  /** `(error|ERR|failed)\b` at j: the end of the first alternative that
      occurs there and is followed by a word boundary. */
  function FailureEnd(s: string, j: nat, alts: seq<string>): (r: Option<nat>)
    ensures r.Some? ==> j < r.value <= |s|
  {
    if alts == [] then None
    else if alts[0] != [] && AtFold(s, j, alts[0]) && WordBoundary(s, j + |alts[0]|) then Some(j + |alts[0]|)
    else FailureEnd(s, j, alts[1..])
  }

  /** `.*` is greedy: the failure word is tried at the end of the line
      first, then one character earlier each time, down to a. */
  function LastFailure(s: string, a: nat, j: nat): (r: Option<nat>)
    requires a <= j
    ensures r.Some? ==> a < r.value <= |s|
    decreases j - a
  {
    var here := FailureEnd(s, j, Failures);
    if here.Some? then here
    else if j == a then None
    else LastFailure(s, a, j - 1)
  }

  /** `(usbip|vhci_hcd).*(error|ERR|failed)\b` once the name is found at i
      and ends at a: `.` stops at a newline. */
  function AfterName(s: string, a: nat): (r: Option<nat>)
    requires a <= |s|
    ensures r.Some? ==> a < r.value <= |s|
  {
    LastFailure(s, a, Span(s, a, NotNewline))
  }

  /** The end of the match of sig that starts at i, if any. */
  function MatchEnd(sig: Signature, s: string, i: nat): (r: Option<nat>)
    requires i < |s|
    requires sig.Phrases? ==> forall k :: 0 <= k < |sig.alts| ==> sig.alts[k] != []
    ensures r.Some? ==> i < r.value <= |s|
  {
    match sig
    case Errno =>
      if WordBoundary(s, i) && At(s, i, "-104") && WordBoundary(s, i + 4) then Some(i + 4) else None
    case ErrnoToken =>
      if (i == 0 || !IsWordChar(s[i - 1])) && At(s, i, "-104") && WordBoundary(s, i + 4) then Some(i + 4) else None
    case Phrases(alts) =>
      PhraseEnd(s, i, alts)
    case UsbipError =>
      if !WordBoundary(s, i) then None
      else
        var viaUsbip := if AtFold(s, i, "usbip") then AfterName(s, i + 5) else None;
        if viaUsbip.Some? then viaUsbip
        else if AtFold(s, i, "vhci_hcd") then AfterName(s, i + 8)
        else None
  }

  predicate WellFormed(sig: Signature)
  {
    sig.Phrases? ==> forall k :: 0 <= k < |sig.alts| ==> sig.alts[k] != []
  }

  /** `re.findall` from position i: a match is counted and the scan resumes
      where it ended; otherwise it moves on one character. */
  function CountFrom(sig: Signature, s: string, i: nat): (n: nat)
    requires WellFormed(sig)
    ensures i <= |s| ==> n <= |s| - i
    decreases |s| - i
  {
    if i >= |s| then 0
    else
      match MatchEnd(sig, s, i)
      case Some(e) => 1 + CountFrom(sig, s, e)
      case None => CountFrom(sig, s, i + 1)
  }

  /** The number of non-overlapping matches: at most one per character,
      as every match takes at least one. */
  function Count(sig: Signature, s: string): (n: nat)
    requires WellFormed(sig)
    ensures n <= |s|
  {
    CountFrom(sig, s, 0)
  }

  /** `SIGNATURES`, in its order, as the script writes it. */
  const Table: seq<(string, Signature)> := [
    ("ecnnreset_-104", Errno),
    ("vhci_reset", Phrases(["reset high-speed USB device", "reset full-speed USB device", "reset super-speed USB device"])),
    ("setaddress", Phrases(["SetAddress Request"])),
    ("fat_not_unmounted", Phrases(["Volume was not properly unmounted"])),
    ("usb_disconnect", Phrases(["USB disconnect"])),
    ("usb_connect_newdev", Phrases(["new high-speed USB device", "new full-speed USB device", "new super-speed USB device"])),
    ("usbip_error", UsbipError)
  ]

  const Names: set<string> := set e | e in Table :: e.0

  lemma TableWellFormed()
    ensures forall j :: 0 <= j < |Table| ==> WellFormed(Table[j].1)
    ensures forall j, k :: 0 <= j < k < |Table| ==> Table[j].0 != Table[k].0
  {
  }

  /** The dict the loop builds from the entries, one assignment each. */
  function CountsOf(entries: seq<(string, Signature)>, text: string): map<string, nat>
    requires forall j :: 0 <= j < |entries| ==> WellFormed(entries[j].1)
  {
    if entries == [] then map[]
    else
      var last := entries[|entries| - 1];
      CountsOf(entries[..|entries| - 1], text)[last.0 := Count(last.1, text)]
  }

  /** The counts `count_signatures(text)` returns, by signature name. */
  function Counts(text: string): (out: map<string, nat>)
    ensures out.Keys == Names
  {
    TableWellFormed();
    CountsOfKeys(Table, text);
    CountsOf(Table, text)
  }

  /** The table with its `-104` entry in the evidently intended form: a
      `-104` not preceded by a word character (see ErrnoAfterSpaceMissed). */
  const CorrectedTable: seq<(string, Signature)> := [("ecnnreset_-104", ErrnoToken)] + Table[1..]

  /** The counts of the corrected table. */
  function CorrectedCounts(text: string): (out: map<string, nat>)
    ensures out.Keys == Names
  {
    CorrectedWellFormed();
    CountsOfKeys(CorrectedTable, text);
    assert forall e :: e in CorrectedTable <==> e == CorrectedTable[0] || e in Table[1..];
    assert forall e :: e in Table <==> e == Table[0] || e in Table[1..];
    CountsOf(CorrectedTable, text)
  }

  lemma CorrectedWellFormed()
    ensures forall j :: 0 <= j < |CorrectedTable| ==> WellFormed(CorrectedTable[j].1)
    ensures forall j, k :: 0 <= j < k < |CorrectedTable| ==> CorrectedTable[j].0 != CorrectedTable[k].0
  {
    TableWellFormed();
    assert forall j :: 0 < j < |CorrectedTable| ==> CorrectedTable[j] == Table[j];
  }

  /** The loop over `SIGNATURES.items()`. */
  method CountSignatures(text: string) returns (out: map<string, nat>)
    ensures out == Counts(text)
  {
    TableWellFormed();
    out := map[];
    for i := 0 to |Table|
      invariant out == CountsOf(Table[..i], text)
    {
      assert Table[..i + 1][..i] == Table[..i];
      out := out[Table[i].0 := Count(Table[i].1, text)];
    }
    assert Table[..|Table|] == Table;
  }

  lemma {:induction false} CountsOfKeys(entries: seq<(string, Signature)>, text: string)
    requires forall j :: 0 <= j < |entries| ==> WellFormed(entries[j].1)
    ensures CountsOf(entries, text).Keys == set e | e in entries :: e.0
  {
    if entries != [] {
      var init := entries[..|entries| - 1];
      CountsOfKeys(init, text);
      assert entries == init + [entries[|entries| - 1]];
    }
  }

  /** With distinct names, each name holds the count of its own entry. */
  lemma {:induction false} CountsOfValue(entries: seq<(string, Signature)>, text: string, j: nat)
    requires forall k :: 0 <= k < |entries| ==> WellFormed(entries[k].1)
    requires forall k, l :: 0 <= k < l < |entries| ==> entries[k].0 != entries[l].0
    requires j < |entries|
    ensures entries[j].0 in CountsOf(entries, text)
    ensures CountsOf(entries, text)[entries[j].0] == Count(entries[j].1, text)
  {
    var init := entries[..|entries| - 1];
    if j < |entries| - 1 {
      assert init[j] == entries[j];
      CountsOfValue(init, text, j);
    }
  }

  // ----- properties ---------------------------------------------------------

  /** A count is zero exactly when the expression matches nowhere. */
  lemma {:induction false} CountZeroIff(sig: Signature, s: string, i: nat)
    requires WellFormed(sig)
    ensures CountFrom(sig, s, i) == 0 <==> forall k :: i <= k < |s| ==> MatchEnd(sig, s, k).None?
    decreases |s| - i
  {
    if i < |s| && MatchEnd(sig, s, i).None? {
      CountZeroIff(sig, s, i + 1);
    }
  }

  /** Every signature of the table has a count, and it is zero exactly when
      its expression matches nowhere in the text. */
  lemma CountsZero(text: string, j: nat)
    requires j < |Table|
    ensures Table[j].0 in Counts(text)
    ensures WellFormed(Table[j].1)
    ensures Counts(text)[Table[j].0] == Count(Table[j].1, text)
    ensures Counts(text)[Table[j].0] == 0 <==> forall k :: 0 <= k < |text| ==> MatchEnd(Table[j].1, text, k).None?
  {
    TableWellFormed();
    CountsOfValue(Table, text, j);
    CountZeroIff(Table[j].1, text, 0);
  }

  /** As written, `\b-104\b` cannot match a `-104` that follows a space, a
      bracket or the start of the text: `-` is not a word character, so
      there is no word boundary before it. */
  lemma ErrnoAfterSpaceMissed(a: string, b: string)
    requires a == [] || !IsWordChar(a[|a| - 1])
    ensures MatchEnd(Errno, a + "-104" + b, |a|).None?
  {
    var s := a + "-104" + b;
    assert s[|a|] == '-';
  }

  /** The corrected expression counts a `-104` that stands on its own. */
  lemma ErrnoTokenCounted(a: string, b: string)
    requires a == [] || !IsWordChar(a[|a| - 1])
    requires b == [] || !IsWordChar(b[0])
    ensures MatchEnd(ErrnoToken, a + "-104" + b, |a|) == Some(|a| + 4)
    ensures Count(ErrnoToken, a + "-104" + b) > 0
  {
    var s := a + "-104" + b;
    assert s[|a|..|a| + 4] == "-104";
    assert s[|a| + 3] == '4';
    if a != [] {
      assert s[|a| - 1] == a[|a| - 1];
    }
    if b != [] {
      assert s[|a| + 4] == b[0];
    }
    CountZeroIff(ErrnoToken, s, 0);
  }

  /** The two tables differ only in the `-104` entry: every other name gets
      the same count from both. */
  lemma CorrectedCountsDiffer(text: string, j: nat)
    requires j < |Table|
    ensures Table[j].0 in Counts(text) && Table[j].0 in CorrectedCounts(text)
    ensures j == 0 ==> Counts(text)[Table[0].0] == Count(Errno, text)
    ensures j == 0 ==> CorrectedCounts(text)[Table[0].0] == Count(ErrnoToken, text)
    ensures j > 0 ==> CorrectedCounts(text)[Table[j].0] == Counts(text)[Table[j].0]
  {
    TableWellFormed();
    CorrectedWellFormed();
    CountsOfValue(Table, text, j);
    CountsOfValue(CorrectedTable, text, j);
    assert CorrectedTable[j].0 == Table[j].0;
  }

  /** A `-104` standing on its own, as in "error -104" or "(-104)": as
      written, `count_signatures` gives its `ecnnreset_-104` entry 0; the
      corrected table counts it. */
  lemma ErrnoStandalone(line: string, a: string, b: string)
    requires line == a + "-104" + b
    requires '-' !in a && '-' !in b
    requires a == [] || !IsWordChar(a[|a| - 1])
    requires b == [] || !IsWordChar(b[0])
    ensures "ecnnreset_-104" in Counts(line) && Counts(line)["ecnnreset_-104"] == 0
    ensures "ecnnreset_-104" in CorrectedCounts(line) && CorrectedCounts(line)["ecnnreset_-104"] > 0
  {
    ErrnoEntry(line);
    ErrnoStandaloneMissed(a, b);
    ErrnoTokenCounted(a, b);
  }

  /** No position of such a line matches `\b-104\b`. */
  lemma ErrnoStandaloneMissed(a: string, b: string)
    requires '-' !in a && '-' !in b
    requires a == [] || !IsWordChar(a[|a| - 1])
    ensures Count(Errno, a + "-104" + b) == 0
  {
    var s := a + "-104" + b;
    forall k | 0 <= k < |s|
      ensures MatchEnd(Errno, s, k).None?
    {
      if k == |a| {
        ErrnoAfterSpaceMissed(a, b);
      } else {
        assert s[k] != '-' by {
          if k < |a| {
            assert s[k] == a[k];
          } else if k < |a| + 4 {
            assert s[k] == "-104"[k - |a|];
          } else {
            assert s[k] == b[k - |a| - 4];
          }
        }
        if k + 4 <= |s| {
          assert s[k..k + 4][0] == s[k];
        }
      }
    }
    CountZeroIff(Errno, s, 0);
  }

  /** The `ecnnreset_-104` entry of each table is the count of its own
      `-104` expression. */
  lemma ErrnoEntry(text: string)
    ensures "ecnnreset_-104" in Counts(text) && Counts(text)["ecnnreset_-104"] == Count(Errno, text)
    ensures "ecnnreset_-104" in CorrectedCounts(text)
    ensures CorrectedCounts(text)["ecnnreset_-104"] == Count(ErrnoToken, text)
  {
    assert Table[0].0 == "ecnnreset_-104";
    CorrectedCountsDiffer(text, 0);
  }

  /** Conversely, `\b-104\b` does count a `-104` glued to a word, as in
      "x-104", which the corrected pattern leaves out. */
  lemma ErrnoGluedCounted()
    ensures MatchEnd(Errno, "x-104", 1) == Some(5)
    ensures MatchEnd(ErrnoToken, "x-104", 1).None?
  {
    var s := "x-104";
    assert s[1..5] == "-104";
  }

  /** Case does not matter: the upper-case spelling of a phrase is counted
      like the phrase. */
  lemma {:induction false} FoldUpper(t: string)
    ensures AtFold(Upper(t), 0, t)
  {
    if t != [] {
      assert Upper(t)[1..] == Upper(t[1..]);
      FoldShift(Upper(t), t);
    }
  }

  /** Upper-case ASCII letters of t. */
  function Upper(t: string): (u: string)
    ensures |u| == |t|
  {
    if t == [] then [] else [if 'a' <= t[0] <= 'z' then (t[0] as int - 32) as char else t[0]] + Upper(t[1..])
  }

  lemma {:induction false} FoldShift(u: string, t: string)
    requires |u| == |t| && t != [] && u == Upper(t)
    ensures AtFold(u, 0, t)
    decreases |t|
  {
    assert Lower(u[0]) == Lower(t[0]);
    AtFoldSuffix(u, t);
  }

  /** AtFold of the tails at 1 is AtFold of the tail strings at 0. */
  lemma {:induction false} AtFoldSuffix(u: string, t: string)
    requires |u| == |t| && t != [] && u == Upper(t)
    ensures AtFold(u, 1, t[1..])
    decreases |t|
  {
    AtFoldUpperFrom(t, 1);
  }

  /** Upper(t) matches t ignoring case from every position k onwards. */
  lemma {:induction false} AtFoldUpperFrom(t: string, k: nat)
    requires k <= |t|
    ensures AtFold(Upper(t), k, t[k..])
    decreases |t| - k
  {
    if k < |t| {
      UpperAt(t, k);
      AtFoldUpperFrom(t, k + 1);
      assert t[k..][1..] == t[k + 1..];
    }
  }

  lemma {:induction false} UpperAt(t: string, k: nat)
    requires k < |t|
    ensures Lower(Upper(t)[k]) == Lower(t[k])
  {
    if k > 0 {
      assert Upper(t)[k] == Upper(t[1..])[k - 1];
      UpperAt(t[1..], k - 1);
    }
  }
}
