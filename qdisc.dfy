/** `parse_qdisc_stats`: the header and the `Sent` counters of `tc -s qdisc
    show`, such as
      qdisc netem 1: root refcnt 2 limit 1000
       Sent 103678816 bytes 119425 pkt (dropped 0, overlimits 0 requeues 0) */
module Qdisc {
  import opened Base
  import opened Text

  /** qdisc_type and qdisc_limit_pkts. */
  datatype Header = Header(kind: string, limit: nat)

  /** qdisc_sent_bytes, qdisc_sent_pkts, qdisc_dropped_pkts,
      qdisc_overlimits and qdisc_requeues. */
  datatype Sent = Sent(bytes: nat, pkts: nat, dropped: nat, overlimits: nat, requeues: nat)

  /** The dict the parser returns: the header keys are there exactly when the
      header pattern matched, the five Sent keys exactly when the Sent
      pattern did. */
  datatype QdiscStats = QdiscStats(header: Option<Header>, sent: Option<Sent>)

  /** The dict's items in insertion order, keys as the parser writes them. */
  datatype Value = Text(s: string) | Count(n: nat)

  function Items(st: QdiscStats): (r: seq<(string, Value)>)
    ensures |r| == (if st.header.Some? then 2 else 0) + (if st.sent.Some? then 5 else 0)
  {
    (match st.header
     case None => []
     case Some(h) => [("qdisc_type", Text(h.kind)), ("qdisc_limit_pkts", Count(h.limit))])
    + (match st.sent
       case None => []
       case Some(s) =>
         [("qdisc_sent_bytes", Count(s.bytes)), ("qdisc_sent_pkts", Count(s.pkts)),
          ("qdisc_dropped_pkts", Count(s.dropped)), ("qdisc_overlimits", Count(s.overlimits)),
          ("qdisc_requeues", Count(s.requeues))])
  }

  // ----- pieces of a pattern, each reading the head of a suffix -----------

  /** A literal word at the head of t; what follows it. */
  function Word(t: string, w: string): (r: Option<string>)
    ensures r.Some? ==> t == w + r.value
  {
    if |w| <= |t| && t[..|w|] == w then
      assert t == t[..|w|] + t[|w|..];
      Some(t[|w|..])
    else None
  }

  /** `\s+` at the head of t: the longest run, which must not be empty. */
  function Blanks(t: string): Option<string>
  {
    var j := Span(t, 0, IsSpace);
    if j > 0 then Some(t[j..]) else None
  }

  /** `(\d+)` at the head of t: the longest run of digits and its value. */
  function Number(t: string): Option<(nat, string)>
  {
    var j := Span(t, 0, IsDigit);
    if j > 0 then
      assert AllDigits(t[..j]);
      Some((DigitsValue(t[..j]), t[j..]))
    else None
  }

  // ----- the Sent line -----------------------------------------------------

  /** `<name>\s+(\d+)` at the head of t. */
  function Field(t: string, name: string): Option<(nat, string)>
  {
    var t :- Word(t, name);
    var t :- Blanks(t);
    Number(t)
  }

  /** `\(dropped\s+(\d+),\s+overlimits\s+(\d+)\s+requeues\s+(\d+)\)` at
      the head of t. */
  function DropsFrom(t: string): Option<(nat, nat, nat)>
  {
    var dropped :- Field(t, "(dropped");
    var t :- Word(dropped.1, ",");
    var t :- Blanks(t);
    var overlimits :- Field(t, "overlimits");
    var t :- Blanks(overlimits.1);
    var requeues :- Field(t, "requeues");
    var _ :- Word(requeues.1, ")");
    Some((dropped.0, overlimits.0, requeues.0))
  }

  /** `Sent\s+(\d+)\s+bytes\s+(\d+)\s+pkt\s+` followed by the drop counters,
      at the head of t. Every `\s+` and `\d+` takes its longest run: what
      follows each starts with a character it cannot take, so no shorter
      choice could match. */
  function SentFrom(t: string): Option<Sent>
  {
    var bytes :- Field(t, "Sent");
    var t :- Blanks(bytes.1);
    var pkts :- Field(t, "bytes");
    var t :- Blanks(pkts.1);
    var t :- Word(t, "pkt");
    var t :- Blanks(t);
    var drops :- DropsFrom(t);
    Some(Sent(bytes.0, pkts.0, drops.0, drops.1, drops.2))
  }

  /** `re.search` of the Sent pattern: its leftmost match. */
  function ParseSent(text: string): (r: Option<Sent>)
    ensures r.None? <==> forall p :: 0 <= p < |text| ==> SentFrom(text[p..]).None?
    ensures r.Some? ==> exists p :: 0 <= p < |text| && SentFrom(text[p..]) == r &&
                                    (forall q :: 0 <= q < p ==> SentFrom(text[q..]).None?)
  {
    var at := (p: nat) => p <= |text| && SentFrom(text[p..]).Some?;
    match First(0, |text|, at)
    case None =>
      assert forall p :: 0 <= p < |text| ==> SentFrom(text[p..]).None? by {
        forall p | 0 <= p < |text| ensures SentFrom(text[p..]).None? {
          assert !at(p);
        }
      }
      None
    case Some(p) =>
      assert forall q :: 0 <= q < p ==> SentFrom(text[q..]).None? by {
        forall q | 0 <= q < p ensures SentFrom(text[q..]).None? {
          assert !at(q);
        }
      }
      SentFrom(text[p..])
  }

  // ----- the header --------------------------------------------------------

  /** `\blimit\s+(\d+)` at position q of t: the limit's value. */
  function LimitAt(t: string, q: nat): Option<nat>
  {
    if q <= |t| && WordBoundary(t, q) then
      var r :- Word(t[q..], "limit");
      var r :- Blanks(r);
      var n :- Number(r);
      Some(n.0)
    else None
  }

  /** `qdisc\s+(\S+)\s+.*\blimit\s+(\d+)` matched at the head of t. The kind
      is the whole non-space run after `qdisc`; `.*` cannot pass a newline
      and is greedy, so the limit is the last `\blimit\s+\d+` on the line
      where the run of whitespace after the kind ends. */
  function HeaderFrom(t: string): Option<Header>
  {
    var t :- Word(t, "qdisc");
    var t :- Blanks(t);
    var k := Span(t, 0, NotSpace);
    if k == 0 then None
    else
      var rest :- Blanks(t[k..]);
      var e := Span(rest, 0, NotNewline);
      var q :- Last(0, e, (i: nat) => LimitAt(rest, i).Some?);
      var n :- LimitAt(rest, q);
      Some(Header(t[..k], n))
  }

  /** `re.search` of the header pattern: its leftmost match. */
  function ParseHeader(text: string): (r: Option<Header>)
    ensures r.None? <==> forall p :: 0 <= p < |text| ==> HeaderFrom(text[p..]).None?
    ensures r.Some? ==> exists p :: 0 <= p < |text| && HeaderFrom(text[p..]) == r &&
                                    (forall q :: 0 <= q < p ==> HeaderFrom(text[q..]).None?)
  {
    var at := (p: nat) => p <= |text| && HeaderFrom(text[p..]).Some?;
    match First(0, |text|, at)
    case None =>
      assert forall p :: 0 <= p < |text| ==> HeaderFrom(text[p..]).None? by {
        forall p | 0 <= p < |text| ensures HeaderFrom(text[p..]).None? {
          assert !at(p);
        }
      }
      None
    case Some(p) =>
      assert forall q :: 0 <= q < p ==> HeaderFrom(text[q..]).None? by {
        forall q | 0 <= q < p ensures HeaderFrom(text[q..]).None? {
          assert !at(q);
        }
      }
      HeaderFrom(text[p..])
  }

  /** `parse_qdisc_stats`: the two patterns are searched independently. */
  function ParseQdiscStats(text: string): (r: QdiscStats)
    ensures r.header.Some? <==> exists p :: 0 <= p < |text| && HeaderFrom(text[p..]).Some?
    ensures r.sent.Some? <==> exists p :: 0 <= p < |text| && SentFrom(text[p..]).Some?
  {
    QdiscStats(ParseHeader(text), ParseSent(text))
  }

  // ----- round trips -------------------------------------------------------

  lemma WordHead(w: string, rest: string)
    ensures Word(w + rest, w) == Some(rest)
  {
    assert (w + rest)[..|w|] == w;
    assert (w + rest)[|w|..] == rest;
  }

  lemma BlankHead(rest: string)
    requires rest == [] || !IsSpace(rest[0])
    ensures Blanks(" " + rest) == Some(rest)
  {
    SpanStops(" " + rest, 0, 1, IsSpace);
    assert (" " + rest)[1..] == rest;
  }

  lemma NumberHead(n: nat, rest: string)
    requires rest == [] || !IsDigit(rest[0])
    ensures Number(NatToString(n) + rest) == Some((n, rest))
  {
    var ds := NatToString(n);
    var t := ds + rest;
    SpanStops(t, 0, |ds|, IsDigit);
    assert t[..|ds|] == ds && t[|ds|..] == rest;
    NatToStringValue(n);
  }

  lemma FieldHead(name: string, n: nat, rest: string)
    requires rest == [] || !IsDigit(rest[0])
    ensures Field(name + (" " + (NatToString(n) + rest)), name) == Some((n, rest))
  {
    WordHead(name, " " + (NatToString(n) + rest));
    BlankHead(NatToString(n) + rest);
    NumberHead(n, rest);
  }

  /** `<name> <n>`. */
  function Labelled(name: string, n: nat, rest: string): string
  {
    name + (" " + (NatToString(n) + rest))
  }

  function DropsText(dropped: nat, overlimits: nat, requeues: nat): string
  {
    Labelled("(dropped", dropped, "," + (" " + Labelled("overlimits", overlimits, " " + Labelled("requeues", requeues, ")"))))
  }

  /** The line `tc` prints. */
  function SentLine(s: Sent): string
  {
    Labelled("Sent", s.bytes, " " + Labelled("bytes", s.pkts, " " + ("pkt" + (" " + DropsText(s.dropped, s.overlimits, s.requeues)))))
  }

  lemma DropsRoundTrip(dropped: nat, overlimits: nat, requeues: nat)
    ensures DropsFrom(DropsText(dropped, overlimits, requeues)) == Some((dropped, overlimits, requeues))
  {
    var r := Labelled("requeues", requeues, ")");
    var o := Labelled("overlimits", overlimits, " " + r);
    FieldHead("(dropped", dropped, "," + (" " + o));
    WordHead(",", " " + o);
    BlankHead(o);
    FieldHead("overlimits", overlimits, " " + r);
    BlankHead(r);
    FieldHead("requeues", requeues, ")");
    WordHead(")", []);
    assert ")" + [] == ")";
  }

  /** Reading a printed Sent line gives its five counters back. */
  lemma SentRoundTrip(s: Sent)
    ensures SentFrom(SentLine(s)) == Some(s)
  {
    var d := DropsText(s.dropped, s.overlimits, s.requeues);
    var b := Labelled("bytes", s.pkts, " " + ("pkt" + (" " + d)));
    FieldHead("Sent", s.bytes, " " + b);
    BlankHead(b);
    FieldHead("bytes", s.pkts, " " + ("pkt" + (" " + d)));
    BlankHead("pkt" + (" " + d));
    WordHead("pkt", " " + d);
    BlankHead(d);
    DropsRoundTrip(s.dropped, s.overlimits, s.requeues);
  }

  /** A header line: `qdisc <kind> <mid>limit <n>`, where mid holds the
      handle, parent and the other options. */
  function HeaderLine(kind: string, mid: string, n: nat): string
  {
    "qdisc" + (" " + (kind + (" " + (mid + ("limit" + (" " + NatToString(n)))))))
  }

  /** Reading a header line gives its kind and limit back, provided the kind
      is one word and the options before `limit` stay on the line and end
      in a non-word character. */
  lemma HeaderRoundTrip(kind: string, mid: string, n: nat)
    requires kind != [] && forall j :: 0 <= j < |kind| ==> !IsSpace(kind[j])
    requires '\n' !in mid
    requires mid == [] || (!IsSpace(mid[0]) && !IsWordChar(mid[|mid| - 1]))
    ensures HeaderFrom(HeaderLine(kind, mid, n)) == Some(Header(kind, n))
  {
    var rest := mid + ("limit" + (" " + NatToString(n)));
    var t := kind + (" " + rest);
    assert HeaderLine(kind, mid, n) == "qdisc" + (" " + t);
    HeaderHead(kind, rest);
    HeaderTail(mid, n);
  }

  /** The head of a header line: the keyword, the blanks and the kind. */
  lemma HeaderHead(kind: string, rest: string)
    requires kind != [] && forall j :: 0 <= j < |kind| ==> !IsSpace(kind[j])
    requires rest == [] || !IsSpace(rest[0])
    ensures var t := kind + (" " + rest);
      && Word("qdisc" + (" " + t), "qdisc") == Some(" " + t)
      && Blanks(" " + t) == Some(t)
      && Span(t, 0, NotSpace) == |kind| && t[..|kind|] == kind
      && Blanks(t[|kind|..]) == Some(rest)
  {
    var t := kind + (" " + rest);
    WordHead("qdisc", " " + t);
    BlankHead(t);
    SpanStops(t, 0, |kind|, NotSpace);
    assert t[..|kind|] == kind && t[|kind|..] == " " + rest;
    BlankHead(rest);
  }

  /** The tail of a header line: `limit <n>` is its last limit. */
  lemma HeaderTail(mid: string, n: nat)
    requires '\n' !in mid
    requires mid == [] || (!IsSpace(mid[0]) && !IsWordChar(mid[|mid| - 1]))
    ensures var rest := mid + ("limit" + (" " + NatToString(n)));
      && Span(rest, 0, NotNewline) == |rest|
      && Last(0, |rest|, (i: nat) => LimitAt(rest, i).Some?) == Some(|mid|)
      && LimitAt(rest, |mid|) == Some(n)
  {
    var rest := mid + ("limit" + (" " + NatToString(n)));
    LimitTail(mid, n);
    SpanAll(rest, 0, NotNewline);
    LastIs(0, |rest|, (i: nat) => LimitAt(rest, i).Some?, |mid|);
  }

  /** The characters of `limit <n>`: no newline, and only the first is an
      `l`. */
  lemma LimitChars(n: nat)
    ensures var lim := "limit" + (" " + NatToString(n));
      forall k :: 0 <= k < |lim| ==> lim[k] != '\n' && (k > 0 ==> lim[k] != 'l')
  {
    var ds := NatToString(n);
    var lim := "limit" + (" " + ds);
    assert forall k :: 6 <= k < |lim| ==> lim[k] == ds[k - 6];
  }

  /** After options that end in a non-word character, `limit <n>` is the
      last limit on the line, and nothing after it is a newline. */
  lemma LimitTail(mid: string, n: nat)
    requires '\n' !in mid
    requires mid == [] || !IsWordChar(mid[|mid| - 1])
    ensures var rest := mid + ("limit" + (" " + NatToString(n)));
      && (forall j :: 0 <= j < |rest| ==> NotNewline(rest[j]))
      && LimitAt(rest, |mid|) == Some(n)
      && forall i :: |mid| < i < |rest| ==> LimitAt(rest, i).None?
  {
    var ds := NatToString(n);
    var lim := "limit" + (" " + ds);
    var rest := mid + lim;
    LimitChars(n);
    assert forall j :: |mid| <= j < |rest| ==> rest[j] == lim[j - |mid|];
    LimitFirst(mid, n);
    forall i | |mid| < i < |rest| ensures LimitAt(rest, i).None? {
      NoLimitAt(rest, i);
    }
  }

  lemma NoLimitAt(t: string, i: nat)
    requires i < |t| && t[i] != 'l'
    ensures LimitAt(t, i).None?
  {
    assert t[i..][0] == t[i];
  }

  lemma LimitFirst(mid: string, n: nat)
    requires mid == [] || !IsWordChar(mid[|mid| - 1])
    ensures LimitAt(mid + ("limit" + (" " + NatToString(n))), |mid|) == Some(n)
  {
    var ds := NatToString(n);
    var lim := "limit" + (" " + ds);
    var rest := mid + lim;
    assert rest[|mid|..] == lim;
    WordHead("limit", " " + ds);
    BlankHead(ds);
    NumberHead(n, []);
    assert ds + [] == ds;
  }
}
