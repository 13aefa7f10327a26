/** `parse_ss_rtt`: a few TCP statistics from the first `ESTAB` line that
    `ss -ti` printed into sys_net.txt, such as
    `ESTAB 0 0 ... rtt:1.547/2.559 rto:202 cwnd:6 bytes_retrans:5897 ...`. */
module SocketStats {
  import opened Base
  import opened Text

  /** The dict the parser returns, one optional field per key it may hold:
      tcp_rtt_ms, tcp_rtt_var_ms and tcp_rto_ms are floats, the others the
      truncation of a float to an int. */
  datatype SsStats = SsStats(
    rttMs: Option<real>,
    rttVarMs: Option<real>,
    rtoMs: Option<real>,
    cwnd: Option<int>,
    bytesRetrans: Option<int>,
    segsOut: Option<int>,
    segsIn: Option<int>,
    retransInflight: Option<int>,
    retransTotal: Option<int>)

  const NoStats := SsStats(None, None, None, None, None, None, None, None, None)

  /** The number of keys of the dict. */
  function Count(st: SsStats): (n: nat)
    ensures n == 0 <==> st == NoStats
  {
    (if st.rttMs.Some? then 1 else 0) + (if st.rttVarMs.Some? then 1 else 0)
    + (if st.rtoMs.Some? then 1 else 0) + (if st.cwnd.Some? then 1 else 0)
    + (if st.bytesRetrans.Some? then 1 else 0) + (if st.segsOut.Some? then 1 else 0)
    + (if st.segsIn.Some? then 1 else 0) + (if st.retransInflight.Some? then 1 else 0)
    + (if st.retransTotal.Some? then 1 else 0)
  }

  /** `\bESTAB\b` matches at i. */
  predicate EstabAt(s: string, i: nat)
  {
    i + 5 <= |s| && WordBoundary(s, i) && At(s, i, "ESTAB") && WordBoundary(s, i + 5)
  }

  /** Where `re.search` finds `\bESTAB\b`: the leftmost position it matches. */
  function EstabStart(text: string): (p: Option<nat>)
    ensures p.Some? ==> p.value <= |text| && EstabAt(text, p.value)
    ensures p.Some? ==> forall i :: 0 <= i < p.value ==> !EstabAt(text, i)
    ensures p.None? <==> forall i :: 0 <= i <= |text| ==> !EstabAt(text, i)
  {
    var at := (i: nat) => EstabAt(text, i);
    var r := First(0, |text| + 1, at);
    assert r.None? ==> forall i :: 0 <= i <= |text| ==> !EstabAt(text, i) by {
      if r.None? {
        forall i | 0 <= i <= |text| ensures !EstabAt(text, i) {
          assert !at(i);
        }
      }
    }
    assert r.Some? ==> forall i :: 0 <= i < r.value ==> !EstabAt(text, i) by {
      if r.Some? {
        forall i | 0 <= i < r.value ensures !EstabAt(text, i) {
          assert !at(i);
        }
      }
    }
    r
  }

  /** `re.search(r"\bESTAB\b.*", text)`: from the first `ESTAB` word to the
      end of its line (`.` does not match a newline). */
  function EstabLine(text: string): (r: Option<string>)
    ensures r.None? <==> forall i :: 0 <= i <= |text| ==> !EstabAt(text, i)
    ensures r.Some? ==> EstabStart(text).Some?
    ensures r.Some? ==> var p := EstabStart(text).value;
      && p + |r.value| <= |text| && r.value == text[p..p + |r.value|]
      && (p + |r.value| == |text| || text[p + |r.value|] == '\n')
    ensures r.Some? ==> '\n' !in r.value && |r.value| >= 5 && r.value[..5] == "ESTAB"
  {
    match EstabStart(text)
    case None => None
    case Some(p) =>
      EstabRest(text, p);
      Some(text[p..Span(text, p, NotNewline)])
  }

  /** The rest of the line from an `ESTAB` word starts with that word. */
  lemma EstabRest(text: string, p: nat)
    requires p <= |text| && EstabAt(text, p)
    ensures var e := Span(text, p, NotNewline);
      p + 5 <= e && '\n' !in text[p..e] && text[p..e][..5] == "ESTAB"
  {
    var e := Span(text, p, NotNewline);
    assert text[p..p + 5] == "ESTAB";
    assert text[p..e][..5] == text[p..p + 5];
    assert forall c | c in text[p..e] :: c != '\n';
  }

  /** `\b<key>:` followed by at least one non-space character starts at i. */
  predicate TokenAt(line: string, i: nat, key: string)
  {
    i + |key| + 1 < |line| && WordBoundary(line, i) && At(line, i, key + ":")
    && NotSpace(line[i + |key| + 1])
  }

  /** Where `re.search` finds `\b<key>:(\S+)` in the line: the leftmost
      position it matches. */
  function TokenStart(line: string, key: string): (p: Option<nat>)
    ensures p.Some? ==> p.value + |key| + 1 < |line| && TokenAt(line, p.value, key)
    ensures p.Some? ==> forall i :: 0 <= i < p.value ==> !TokenAt(line, i, key)
    ensures p.None? <==> forall i :: 0 <= i < |line| ==> !TokenAt(line, i, key)
  {
    var at := (i: nat) => TokenAt(line, i, key);
    var r := First(0, |line|, at);
    assert r.None? ==> forall i :: 0 <= i < |line| ==> !TokenAt(line, i, key) by {
      if r.None? {
        forall i | 0 <= i < |line| ensures !TokenAt(line, i, key) {
          assert !at(i);
        }
      }
    }
    assert r.Some? ==> forall i :: 0 <= i < r.value ==> !TokenAt(line, i, key) by {
      if r.Some? {
        forall i | 0 <= i < r.value ensures !TokenAt(line, i, key) {
          assert !at(i);
        }
      }
    }
    r
  }

  /** `get_tok(key)`: group 1 of the leftmost match, the whole run of
      non-space characters after `<key>:`. */
  function Token(line: string, key: string): (r: Option<string>)
    ensures r.Some? ==> TokenStart(line, key).Some?
    ensures r.Some? ==> var q := TokenStart(line, key).value + |key| + 1;
      && q + |r.value| <= |line| && r.value == line[q..q + |r.value|]
      && (q + |r.value| == |line| || IsSpace(line[q + |r.value|]))
    ensures r.Some? ==> r.value != [] && forall j :: 0 <= j < |r.value| ==> !IsSpace(r.value[j])
    ensures r.None? <==> forall i :: 0 <= i < |line| ==> !TokenAt(line, i, key)
  {
    var p := TokenStart(line, key);
    if p.None? then None else Some(NonSpaceRun(line, p.value + |key| + 1))
  }

  /** `\S+` at q: the run of non-space characters that starts there. */
  function NonSpaceRun(line: string, q: nat): (t: string)
    requires q < |line| && NotSpace(line[q])
    ensures t != [] && q + |t| <= |line| && t == line[q..q + |t|]
    ensures q + |t| == |line| || IsSpace(line[q + |t|])
    ensures forall j :: 0 <= j < |t| ==> !IsSpace(t[j])
  {
    var e := Span(line, q, NotSpace);
    assert forall j :: 0 <= j < e - q ==> line[q..e][j] == line[q + j];
    line[q..e]
  }

  /** `float(tok)` of a present token; None where the token is absent or
      `float` raises ValueError. */
  function FloatTok(line: string, key: string): Option<real>
  {
    match Token(line, key)
    case None => None
    case Some(t) => ParseFloat(t)
  }

  /** `int(float(tok))`. */
  function IntTok(line: string, key: string): (r: Option<int>)
    ensures r.Some? <==> FloatTok(line, key).Some?
    ensures r.Some? ==> r.value == Trunc(FloatTok(line, key).value)
  {
    match FloatTok(line, key)
    case None => None
    case Some(x) => Some(Trunc(x))
  }

  /** The two assignments of an `a/b` token inside one `try`: the first is
      made as soon as `float(a)` succeeds, so a malformed b leaves it in
      place and only drops the second. */
  function SlashFloats(line: string, key: string): (Option<real>, Option<real>)
  {
    match Token(line, key)
    case None => (None, None)
    case Some(t) =>
      match SplitFirst(t, '/')
      case None => (None, None)
      case Some((a, b)) =>
        match ParseFloat(a)
        case None => (None, None)
        case Some(x) => (Some(x), ParseFloat(b))
  }

  function TruncOpt(x: Option<real>): (r: Option<int>)
    ensures r.Some? <==> x.Some?
    ensures r.Some? ==> r.value == Trunc(x.value)
  {
    match x
    case None => None
    case Some(v) => Some(Trunc(v))
  }

  /** One `a/b` token inside its `try`: `float(a)` is stored before
      `float(b)` is attempted. */
  method SlashPair(line: string, key: string) returns (first: Option<real>, second: Option<real>)
    ensures (first, second) == SlashFloats(line, key)
    ensures second.Some? ==> first.Some?
  {
    first, second := None, None;
    var tok := Token(line, key);
    if tok.Some? && '/' in tok.value {
      var halves := SplitFirst(tok.value, '/').value;
      var a := ParseFloat(halves.0);
      if a.Some? {
        first := a;
        var b := ParseFloat(halves.1);
        if b.Some? {
          second := b;
        }
      }
    }
  }

  /** The text has an ESTAB line and that line a `key:` token. */
  predicate Present(text: string, key: string)
  {
    EstabLine(text).Some? && Token(EstabLine(text).value, key).Some?
  }

  /** The dict `parse_ss_rtt` returns for a text, field by field. */
  function Stats(text: string): (r: SsStats)
    ensures EstabLine(text).None? ==> r == NoStats
    ensures r.rttVarMs.Some? ==> r.rttMs.Some?
    ensures r.retransTotal.Some? ==> r.retransInflight.Some?
    ensures r.rttMs.Some? ==> Present(text, "rtt")
    ensures r.rtoMs.Some? ==> Present(text, "rto")
    ensures r.cwnd.Some? ==> Present(text, "cwnd")
    ensures r.bytesRetrans.Some? ==> Present(text, "bytes_retrans")
    ensures r.segsOut.Some? ==> Present(text, "segs_out")
    ensures r.segsIn.Some? ==> Present(text, "segs_in")
    ensures r.retransInflight.Some? ==> Present(text, "retrans")
  {
    match EstabLine(text)
    case None => NoStats
    case Some(line) =>
      SsStats(SlashFloats(line, "rtt").0, SlashFloats(line, "rtt").1, FloatTok(line, "rto"),
              IntTok(line, "cwnd"), IntTok(line, "bytes_retrans"), IntTok(line, "segs_out"),
              IntTok(line, "segs_in"), TruncOpt(SlashFloats(line, "retrans").0),
              TruncOpt(SlashFloats(line, "retrans").1))
  }

  /** `parse_ss_rtt`, filling the result key by key. Nothing when the text has
      no `ESTAB` word; otherwise every field comes from its own token of that
      one line, and the second half of an `a/b` pair only comes with the
      first. */
  method ParseSsRtt(text: string) returns (out: SsStats)
    ensures out == Stats(text)
  {
    out := NoStats;
    var found := EstabLine(text);
    if found.None? {
      return;
    }
    var line := found.value;

    var rtt, rttVar := SlashPair(line, "rtt");
    if rtt.Some? {
      out := out.(rttMs := rtt);
    }
    if rttVar.Some? {
      out := out.(rttVarMs := rttVar);
    }

    var rto := Token(line, "rto");
    if rto.Some? {
      var x := ParseFloat(rto.value);
      if x.Some? {
        out := out.(rtoMs := x);
      }
    }

    out := out.(cwnd := IntTok(line, "cwnd"));
    out := out.(bytesRetrans := IntTok(line, "bytes_retrans"));
    out := out.(segsOut := IntTok(line, "segs_out"));
    out := out.(segsIn := IntTok(line, "segs_in"));

    var inflight, total := SlashPair(line, "retrans");
    if inflight.Some? {
      out := out.(retransInflight := Some(Trunc(inflight.value)));
    }
    if total.Some? {
      out := out.(retransTotal := Some(Trunc(total.value)));
    }
  }

  /** A token written right after its key at the start of the line is found
      whole: it runs up to the next whitespace. */
  lemma TokenAtStart(key: string, v: string, w: string)
    requires key != [] && IsWordChar(key[0])
    requires v != [] && forall j :: 0 <= j < |v| ==> !IsSpace(v[j])
    requires w == [] || IsSpace(w[0])
    ensures Token(key + ":" + v + w, key) == Some(v)
  {
    var line := key + ":" + v + w;
    var q := |key| + 1;
    assert line[..|key| + 1] == key + ":";
    assert TokenAt(line, 0, key);
    SpanStops(line, q, q + |v|, NotSpace);
    assert line[q..q + |v|] == v;
  }

  /** Only the first `ESTAB` line counts: when the lines before it hold no
      `ESTAB`, the match is that whole line, whatever follows it. */
  lemma FirstEstabLine(pre: string, line: string, rest: string)
    requires pre == [] || pre[|pre| - 1] == '\n'
    requires forall i :: 0 <= i && i + 5 <= |pre| ==> !At(pre, i, "ESTAB")
    requires |line| >= 5 && line[..5] == "ESTAB" && '\n' !in line
    requires |line| == 5 || !IsWordChar(line[5])
    requires rest == [] || rest[0] == '\n'
    ensures EstabLine(pre + line + rest) == Some(line)
  {
    var text := pre + line + rest;
    var p := |pre|;
    EstabAtLine(text, pre, line, rest);
    NoEstabBefore(text, pre, line, rest);
    assert EstabStart(text) == Some(p);
    LineSpan(text, pre, line, rest);
  }

  /** The `ESTAB` at the head of the line is a match. */
  lemma EstabAtLine(text: string, pre: string, line: string, rest: string)
    requires text == pre + line + rest
    requires pre == [] || pre[|pre| - 1] == '\n'
    requires |line| >= 5 && line[..5] == "ESTAB"
    requires |line| == 5 || !IsWordChar(line[5])
    requires rest == [] || rest[0] == '\n'
    ensures EstabAt(text, |pre|)
  {
    var p := |pre|;
    assert text[p..p + 5] == line[..5];
    if p > 0 {
      assert text[p - 1] == pre[p - 1];
    }
    if p + 5 < |text| {
      if 5 < |line| {
        assert text[p + 5] == line[5];
      } else {
        assert text[p + 5] == rest[0];
      }
    }
  }

  /** No match starts before the line: an `ESTAB` cannot span the newline
      that ends pre. */
  lemma NoEstabBefore(text: string, pre: string, line: string, rest: string)
    requires text == pre + line + rest
    requires pre == [] || pre[|pre| - 1] == '\n'
    requires forall i :: 0 <= i && i + 5 <= |pre| ==> !At(pre, i, "ESTAB")
    ensures forall i :: 0 <= i < |pre| ==> !EstabAt(text, i)
  {
    forall i | 0 <= i < |pre|
      ensures !EstabAt(text, i)
    {
      if i + 5 <= |pre| {
        assert !At(pre, i, "ESTAB");
        assert text[i..i + 5] == pre[i..i + 5];
      } else if i + 5 <= |text| {
        assert text[|pre| - 1] == pre[|pre| - 1];
        assert text[i..i + 5][|pre| - 1 - i] == '\n';
      }
    }
  }

  /** `.*` runs to the end of the line. */
  lemma LineSpan(text: string, pre: string, line: string, rest: string)
    requires text == pre + line + rest
    requires '\n' !in line
    requires rest == [] || rest[0] == '\n'
    ensures Span(text, |pre|, NotNewline) == |pre| + |line|
    ensures text[|pre|..|pre| + |line|] == line
  {
    var p := |pre|;
    forall k | p <= k < p + |line|
      ensures NotNewline(text[k])
    {
      assert text[k] == line[k - p];
    }
    if p + |line| < |text| {
      assert text[p + |line|] == rest[0];
    }
    SpanStops(text, p, p + |line|, NotNewline);
    assert text[p..p + |line|] == line;
  }

  /** So the statistics of a sys_net.txt are those of its first `ESTAB`
      line: what follows that line never changes them. */
  lemma StatsOfFirstLine(pre: string, line: string, rest: string)
    requires pre == [] || pre[|pre| - 1] == '\n'
    requires forall i :: 0 <= i && i + 5 <= |pre| ==> !At(pre, i, "ESTAB")
    requires |line| >= 5 && line[..5] == "ESTAB" && '\n' !in line
    requires |line| == 5 || !IsWordChar(line[5])
    requires rest == [] || rest[0] == '\n'
    ensures Stats(pre + line + rest) == Stats(line)
  {
    FirstEstabLine(pre, line, rest);
    FirstEstabLine([], line, []);
    assert [] + line + [] == line;
  }

  /** `retrans:` does not match inside `bytes_retrans:`: the underscore in
      front of it is a word character, so there is no word boundary. */
  lemma RetransNotInBytesRetrans(u: string, w: string)
    ensures !TokenAt(u + "bytes_retrans:" + w, |u| + 6, "retrans")
  {
    var line := u + "bytes_retrans:" + w;
    assert line[|u| + 5] == '_';
    if |u| + 6 < |line| {
      assert IsWordChar(line[|u| + 6]);
    }
  }

  /** The asymmetry of an `a/b` pair: with a readable first half and an
      unreadable second one, the first field is kept and the second is
      missing, so the two fields are not "both or neither". */
  lemma SlashFirstWithoutSecond(line: string, key: string, a: string, b: string)
    requires Token(line, key) == Some(a + "/" + b)
    requires '/' !in a
    requires ParseFloat(a).Some? && ParseFloat(b).None?
    ensures SlashFloats(line, key) == (ParseFloat(a), None)
  {
    SplitFirstAt(a, '/', b);
  }

  /** A well-formed pair gives both fields. */
  lemma SlashBoth(line: string, key: string, a: string, b: string)
    requires Token(line, key) == Some(a + "/" + b)
    requires '/' !in a
    requires ParseFloat(a).Some? && ParseFloat(b).Some?
    ensures SlashFloats(line, key) == (ParseFloat(a), ParseFloat(b))
  {
    SplitFirstAt(a, '/', b);
  }
}
