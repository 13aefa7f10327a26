/** `parse_nstat`: selected kernel counters from the `nstat` table in
    sys_net.txt, one `Name value rate` row per counter. */
module Nstat {
  import opened Base
  import opened Text
  import Assignments

  /** The counters that are kept; every other row is ignored. */
  const Wanted: set<string> := {
    "TcpRetransSegs", "TcpTimeouts", "TcpAttemptFails", "TcpEstabResets",
    "TcpInErrs", "IpOutDiscards", "TcpOutSegs", "TcpInSegs",
    "TcpExtTCPLostRetransmit", "TcpExtTCPLossUndo", "TcpExtTCPLossProbes",
    "TcpExtTCPLossProbeRecovery", "TcpExtDelayedACKs", "TcpExtDelayedACKLost",
    "TcpExtTCPOFOQueue"
  }

  /** What one row contributes: for a wanted name with a numeric second
      field, the name and the truncation of that number; nothing for a
      blank or `#` row, an unwanted name, a row with one field, or a second
      field `float` rejects. */
  function RowEntry(raw: string): Option<(string, int)>
  {
    var line := Strip(raw);
    if line == [] || line[0] == '#' then None
    else
      var parts := Fields(line);
      if |parts| >= 2 && parts[0] in Wanted then
        match ParseFloat(parts[1])
        case None => None
        case Some(x) => Some((parts[0], Trunc(x)))
      else None
  }

  /** The assignment each row makes, in order. */
  function Entries(ls: seq<string>): (es: seq<Option<(string, int)>>)
    ensures |es| == |ls| && forall i :: 0 <= i < |ls| ==> es[i] == RowEntry(ls[i])
  {
    seq(|ls|, i requires 0 <= i < |ls| => RowEntry(ls[i]))
  }

  /** A row contributes only a wanted name, whose value is the truncated
      second field; blank and comment rows contribute nothing. */
  lemma RowEntryShape(raw: string)
    ensures Strip(raw) == [] || Strip(raw)[0] == '#' ==> RowEntry(raw).None?
    ensures RowEntry(raw).Some? ==>
      var parts := Fields(Strip(raw));
      && |parts| >= 2 && ParseFloat(parts[1]).Some?
      && RowEntry(raw).value == (parts[0], Trunc(ParseFloat(parts[1]).value))
      && parts[0] in Wanted
  {
  }

  /** The counters the rows of a text assign, the last assignment of each
      winning: only wanted counters. */
  function Counters(text: string): (out: map<string, int>)
    ensures out.Keys <= Wanted
  {
    CountersKept(SplitLines(text), Assignments.Apply(Entries(SplitLines(text))));
    Assignments.Apply(Entries(SplitLines(text)))
  }

  /** `parse_nstat`, over the lines of the text. Every key is a wanted
      counter that some row assigns, and its value is that of the last row
      that assigns it. */
  method ParseNstat(text: string) returns (out: map<string, int>)
    ensures out == Counters(text)
    ensures out.Keys <= Wanted
    ensures var es := Entries(SplitLines(text));
      forall k :: k in out <==> exists j :: 0 <= j < |es| && Assignments.Assigns(es[j], k)
    ensures var es := Entries(SplitLines(text));
      forall j :: 0 <= j < |es| && es[j].Some?
                  && (forall m :: j < m < |es| ==> !Assignments.Assigns(es[m], es[j].value.0))
                  ==> es[j].value.0 in out && out[es[j].value.0] == es[j].value.1
  {
    var ls := SplitLines(text);
    out := ReadRows(ls);
    CountersKept(ls, out);
    CountersLastWins(Entries(ls), out);
  }

  /** The loop of `parse_nstat`: each row in turn applies its assignment. */
  method ReadRows(ls: seq<string>) returns (out: map<string, int>)
    ensures out == Assignments.Apply(Entries(ls))
  {
    ghost var es := Entries(ls);
    out := map[];
    for i := 0 to |ls|
      invariant out == Assignments.Apply(es[..i])
    {
      out := ReadRow(out, ls[i], es, i);
    }
    assert es[..|ls|] == es;
  }

  /** One row of the loop: blank and `#` rows are skipped, a wanted counter
      with a numeric value is stored. */
  method ReadRow(out: map<string, int>, raw: string, ghost es: seq<Option<(string, int)>>, ghost i: nat)
    returns (out': map<string, int>)
    requires i < |es| && es[i] == RowEntry(raw) && out == Assignments.Apply(es[..i])
    ensures out' == Assignments.Apply(es[..i + 1])
  {
    assert es[..i + 1][..i] == es[..i];
    out' := out;
    var line := Strip(raw);
    if line == [] || line[0] == '#' {
      return;
    }
    var parts := Fields(line);
    if |parts| >= 2 && parts[0] in Wanted {
      var x := ParseFloat(parts[1]);
      if x.Some? {
        out' := out[parts[0] := Trunc(x.value)];
      }
    }
  }

  /** The counters the rows build are wanted ones, each assigned by a row. */
  lemma CountersKept(ls: seq<string>, out: map<string, int>)
    requires out == Assignments.Apply(Entries(ls))
    ensures out.Keys <= Wanted
    ensures var es := Entries(ls);
      forall k :: k in out <==> exists j :: 0 <= j < |es| && Assignments.Assigns(es[j], k)
  {
    var es := Entries(ls);
    forall k {
      Assignments.ApplyKeys(es, k);
    }
    forall k | k in out ensures k in Wanted {
      var j :| 0 <= j < |es| && Assignments.Assigns(es[j], k);
      RowEntryShape(ls[j]);
    }
  }

  /** Each counter holds the value of the last row that assigns it. */
  lemma CountersLastWins(es: seq<Option<(string, int)>>, out: map<string, int>)
    requires out == Assignments.Apply(es)
    ensures forall j :: 0 <= j < |es| && es[j].Some?
                  && (forall m :: j < m < |es| ==> !Assignments.Assigns(es[m], es[j].value.0))
                  ==> es[j].value.0 in out && out[es[j].value.0] == es[j].value.1
  {
    forall j | 0 <= j < |es| && es[j].Some?
               && (forall m :: j < m < |es| ==> !Assignments.Assigns(es[m], es[j].value.0))
    {
      Assignments.ApplyLastWins(es, j);
    }
  }

  /** A row `<name> <digits>` of a wanted counter yields that counter with
      the digits' value. */
  lemma WantedRow(name: string, ds: string)
    requires name in Wanted
    requires ds != [] && AllDigits(ds)
    ensures RowEntry(name + " " + ds) == Some((name, DigitsValue(ds) as int))
  {
    var raw := name + " " + ds;
    WantedNames(name);
    assert forall j :: 0 <= j < |ds| ==> !IsSpace(ds[j]);
    StripFixed(raw);
    FieldsTwo(name, " ", ds);
    ParseFloatDigits(ds);
  }

  /** Every wanted name is one non-empty field that is not a comment. */
  lemma WantedNames(name: string)
    requires name in Wanted
    ensures PlainName(name)
  {
    if name == "TcpRetransSegs" || name == "TcpTimeouts" || name == "TcpAttemptFails"
      || name == "TcpEstabResets" || name == "TcpInErrs" {
      TcpNames(name);
    } else if name == "IpOutDiscards" || name == "TcpOutSegs" || name == "TcpInSegs"
      || name == "TcpExtTCPLostRetransmit" || name == "TcpExtTCPLossUndo" {
      MixedNames(name);
    } else {
      ExtNames(name);
    }
  }

  /** One non-empty field that is not a comment. */
  predicate PlainName(name: string)
  {
    name != [] && name[0] != '#' && forall j :: 0 <= j < |name| ==> !IsSpace(name[j])
  }

  lemma TcpNames(name: string)
    requires name == "TcpRetransSegs" || name == "TcpTimeouts" || name == "TcpAttemptFails"
      || name == "TcpEstabResets" || name == "TcpInErrs"
    ensures PlainName(name)
  {
  }

  lemma MixedNames(name: string)
    requires name == "IpOutDiscards" || name == "TcpOutSegs" || name == "TcpInSegs"
      || name == "TcpExtTCPLostRetransmit" || name == "TcpExtTCPLossUndo"
    ensures PlainName(name)
  {
  }

  lemma ExtNames(name: string)
    requires name == "TcpExtTCPLossProbes" || name == "TcpExtTCPLossProbeRecovery" || name == "TcpExtDelayedACKs"
      || name == "TcpExtDelayedACKLost" || name == "TcpExtTCPOFOQueue"
    ensures PlainName(name)
  {
  }

  /** A row of a counter outside the allow-list yields nothing. */
  lemma UnwantedRow(name: string, ds: string)
    requires name != [] && name[0] != '#' && name !in Wanted
    requires forall j :: 0 <= j < |name| ==> !IsSpace(name[j])
    requires ds != [] && AllDigits(ds)
    ensures RowEntry(name + " " + ds) == None
  {
    var raw := name + " " + ds;
    assert forall j :: 0 <= j < |ds| ==> !IsSpace(ds[j]);
    StripFixed(raw);
    FieldsTwo(name, " ", ds);
  }
}
