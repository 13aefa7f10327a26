/** The preflight.txt lookups of the E002 aggregator: five searches of the
    form `^###\s*<label>\s*$\s*([^\n]+)` in multi-line mode, whose group is
    then stripped. A report is made of sections such as
      ### iface
      eth0
    and each lookup takes the first line of text after its label. */
module Preflight {
  import opened Base
  import opened Text

  /** The pieces the five patterns are made of. */
  datatype Piece =
    | Lit(s: string)  // literal text
    | Spaces          // `\s*`, greedy
    | LineEnd         // `$` in multi-line mode: the end of the text or a newline next
    | Line            // `([^\n]+)`, a greedy capturing group

  /** The number of capturing groups. */
  function Groups(ps: seq<Piece>): nat
  {
    if ps == [] then 0 else (if ps[0].Line? then 1 else 0) + Groups(ps[1..])
  }

  /** A captured group: one or more characters of a single line. */
  predicate Captured(g: string)
  {
    g != [] && forall k :: 0 <= k < |g| ==> g[k] != '\n'
  }

  /** The groups of the first way the pieces match from i, in the order a
      backtracking matcher tries them: a greedy piece first takes as much as
      it can, then gives back one character at a time. */
  function Match(t: string, i: nat, ps: seq<Piece>): (r: Option<seq<string>>)
    requires i <= |t|
    ensures r.Some? ==> |r.value| == Groups(ps) && forall k :: 0 <= k < |r.value| ==> Captured(r.value[k])
    decreases |ps|, 0, 0
  {
    if ps == [] then Some([])
    else
      match ps[0]
      case Lit(s) => if At(t, i, s) then Match(t, i + |s|, ps[1..]) else None
      case Spaces => SpacesTo(t, i, Span(t, i, IsSpace), ps[1..])
      case LineEnd => if i == |t| || t[i] == '\n' then Match(t, i, ps[1..]) else None
      case Line => LineTo(t, i, Span(t, i, NotNewline), ps[1..])
  }

  /** `\s*` from i ending at k, then at k - 1, and so on down to i. */
  function SpacesTo(t: string, i: nat, k: nat, rest: seq<Piece>): (r: Option<seq<string>>)
    requires i <= k <= |t|
    ensures r.Some? ==> |r.value| == Groups(rest) && forall g :: 0 <= g < |r.value| ==> Captured(r.value[g])
    decreases |rest|, 1, k - i
  {
    match Match(t, k, rest)
    case Some(gs) => Some(gs)
    case None => if k == i then None else SpacesTo(t, i, k - 1, rest)
  }

  /** `([^\n]+)` from i ending at k, then at k - 1, and so on down to i + 1. */
  function LineTo(t: string, i: nat, k: nat, rest: seq<Piece>): (r: Option<seq<string>>)
    requires i <= k <= |t|
    requires forall j :: i <= j < k ==> t[j] != '\n'
    ensures r.Some? ==> |r.value| == Groups(rest) + 1 && forall g :: 0 <= g < |r.value| ==> Captured(r.value[g])
    decreases |rest|, 1, k - i
  {
    if k == i then None
    else
      match Match(t, k, rest)
      case Some(gs) => Some([t[i..k]] + gs)
      case None => LineTo(t, i, k - 1, rest)
  }

  /** `^` in multi-line mode. */
  predicate LineStart(t: string, p: nat)
  {
    p == 0 || (0 < p <= |t| && t[p - 1] == '\n')
  }

  predicate MatchesAt(t: string, p: nat, ps: seq<Piece>)
  {
    p <= |t| && LineStart(t, p) && Match(t, p, ps).Some?
  }

  /** `re.search`: the match at the first position from p where one starts. */
  function SearchFrom(t: string, p: nat, ps: seq<Piece>): (r: Option<seq<string>>)
    requires p <= |t|
    ensures r.Some? ==> |r.value| == Groups(ps)
    decreases |t| - p
  {
    if MatchesAt(t, p, ps) then Match(t, p, ps)
    else if p == |t| then None
    else SearchFrom(t, p + 1, ps)
  }

  /** `^###\s*<name>\s*$\s*([^\n]+)`. */
  function Section(name: string): seq<Piece>
  {
    [Lit("###"), Spaces, Lit(name), Spaces, LineEnd, Spaces, Line]
  }

  /** `^###\s*fio_version\s*$\s*([^\n]+)\s*$\s*([^\n]+)`: two lines. */
  function TwoLineSection(name: string): seq<Piece>
  {
    Section(name) + [Spaces, LineEnd, Spaces, Line]
  }

  lemma TwoGroups(name: string)
    ensures Groups(Section(name)) == 1 && Groups(TwoLineSection(name)) == 2
  {
    var tail: seq<Piece> := [Spaces, LineEnd, Spaces, Line];
    GroupsCons(Line, []);
    GroupsCons(Spaces, [Line]);
    GroupsCons(LineEnd, [Spaces, Line]);
    GroupsCons(Spaces, [LineEnd, Spaces, Line]);
    assert Groups(tail) == 1;
    GroupsCons(Lit(name), tail);
    GroupsCons(Spaces, [Lit(name)] + tail);
    GroupsCons(Lit("###"), [Spaces, Lit(name)] + tail);
    assert Section(name) == [Lit("###")] + ([Spaces] + ([Lit(name)] + tail));
    GroupsAppend(Section(name), tail);
  }

  lemma GroupsCons(p: Piece, rest: seq<Piece>)
    ensures Groups([p] + rest) == (if p.Line? then 1 else 0) + Groups(rest)
  {
    assert ([p] + rest)[1..] == rest;
  }

  lemma {:induction false} GroupsAppend(a: seq<Piece>, b: seq<Piece>)
    ensures Groups(a + b) == Groups(a) + Groups(b)
  {
    if a == [] {
      assert a + b == b;
    } else {
      assert (a + b)[0] == a[0];
      assert (a + b)[1..] == a[1..] + b;
      GroupsAppend(a[1..], b);
    }
  }

  /** The pattern matches at no line start of the text: `re.search` with
      `re.M` returns None. */
  predicate NoMatch(t: string, ps: seq<Piece>)
  {
    forall q :: 0 <= q <= |t| ==> !MatchesAt(t, q, ps)
  }

  /** `m.group(1).strip()` of the section's search, None when it fails. */
  function Lookup(t: string, name: string): (r: Option<string>)
    ensures r.None? <==> NoMatch(t, Section(name))
  {
    TwoGroups(name);
    SearchNone(t, 0, Section(name));
    match SearchFrom(t, 0, Section(name))
    case None => None
    case Some(gs) => Some(Strip(gs[0]))
  }

  /** `m.group(2).strip()` of the fio_version search. */
  function SecondLookup(t: string, name: string): (r: Option<string>)
    ensures r.None? <==> NoMatch(t, TwoLineSection(name))
  {
    TwoGroups(name);
    SearchNone(t, 0, TwoLineSection(name));
    match SearchFrom(t, 0, TwoLineSection(name))
    case None => None
    case Some(gs) => Some(Strip(gs[1]))
  }

  /** iface, usbip_target, kernel (from `uname`), mount_line and
      fio_version; all None when there is no preflight.txt. */
  datatype Report = Report(
    iface: Option<string>,
    usbipTarget: Option<string>,
    kernel: Option<string>,
    mountLine: Option<string>,
    fioVersion: Option<string>)

  const Missing := Report(None, None, None, None, None)

  /** The five lookups; a field is None exactly when its pattern matches
      at no line start. */
  function Parse(t: string): (r: Report)
    ensures r.iface.None? <==> NoMatch(t, Section("iface"))
    ensures r.usbipTarget.None? <==> NoMatch(t, Section("usbip_target"))
    ensures r.kernel.None? <==> NoMatch(t, Section("uname"))
    ensures r.mountLine.None? <==> NoMatch(t, Section("mount_line"))
    ensures r.fioVersion.None? <==> NoMatch(t, TwoLineSection("fio_version"))
  {
    Report(Lookup(t, "iface"), Lookup(t, "usbip_target"), Lookup(t, "uname"),
           Lookup(t, "mount_line"), SecondLookup(t, "fio_version"))
  }

  // ----- properties ----------------------------------------------------------

  /** The search fails only when no line start from p matches. */
  lemma {:induction false} SearchNone(t: string, p: nat, ps: seq<Piece>)
    requires p <= |t|
    ensures SearchFrom(t, p, ps).None? <==> forall q :: p <= q <= |t| ==> !MatchesAt(t, q, ps)
    decreases |t| - p
  {
    if !MatchesAt(t, p, ps) && p < |t| {
      SearchNone(t, p + 1, ps);
    }
  }

  /** A search that succeeds gives the match at the first line start from p
      where the pattern matches. */
  lemma {:induction false} SearchFirst(t: string, p: nat, ps: seq<Piece>, q: nat)
    requires p <= q <= |t| && MatchesAt(t, q, ps)
    requires forall q' :: p <= q' < q ==> !MatchesAt(t, q', ps)
    ensures SearchFrom(t, p, ps) == Match(t, q, ps)
    decreases q - p
  {
    if p < q {
      SearchFirst(t, p + 1, ps, q);
    }
  }

  /** Text without `###` has none of the five sections. */
  lemma NoSections(t: string)
    requires forall q :: 0 <= q <= |t| ==> !At(t, q, "###")
    ensures Parse(t) == Missing
  {
    NoHeader(t, 0, Section("iface"));
    NoHeader(t, 0, Section("usbip_target"));
    NoHeader(t, 0, Section("uname"));
    NoHeader(t, 0, Section("mount_line"));
    NoHeader(t, 0, TwoLineSection("fio_version"));
  }

  lemma {:induction false} NoHeader(t: string, p: nat, ps: seq<Piece>)
    requires p <= |t| && ps != [] && ps[0] == Lit("###")
    requires forall q :: p <= q <= |t| ==> !At(t, q, "###")
    ensures SearchFrom(t, p, ps).None?
    decreases |t| - p
  {
    if p < |t| {
      NoHeader(t, p + 1, ps);
    }
  }

  /** `### <name>` followed by a line that starts with a non-blank: the
      lookup's group is that whole line. */
  lemma SectionLine(name: string, v: string, post: string)
    requires name != [] && !IsSpace(name[0])
    requires Captured(v) && !IsSpace(v[0])
    requires post == [] || post[0] == '\n'
    ensures Match("### " + name + "\n" + v + post, 0, Section(name)) == Some([v])
  {
    var t := "### " + name + "\n" + v + post;
    assert t == [] + ("### " + name + "\n" + v + post);
    SectionLineAt(t, [], name, v, post);
  }

  /** The two-line pattern takes the two lines after `### <name>`. */
  lemma SectionTwoLines(name: string, v: string, w: string, post: string)
    requires name != [] && !IsSpace(name[0])
    requires Captured(v) && !IsSpace(v[0]) && Captured(w) && !IsSpace(w[0])
    requires post == [] || post[0] == '\n'
    ensures Match("### " + name + "\n" + v + "\n" + w + post, 0, TwoLineSection(name)) == Some([v, w])
  {
    var t := "### " + name + "\n" + v + "\n" + w + post;
    assert t == [] + ("### " + name + "\n" + v + "\n" + w + post);
    TwoLinesAt(t, [], name, v, w, post);
  }

  lemma TwoLinePieces(name: string)
    ensures var tail: seq<Piece> := [Spaces, LineEnd, Spaces, Line];
      TwoLineSection(name) == [Lit("###"), Spaces, Lit(name)] + (tail + tail)
  {
  }

  /** The pieces of a text whose end is a newline, a line and the rest. */
  lemma Pieces(t: string, b: nat, w: string, post: string)
    requires b <= |t| && t[b..] == "\n" + w + post
    ensures b + 1 + |w| + |post| == |t|
    ensures t[b] == '\n' && t[b + 1..b + 1 + |w|] == w && t[b + 1 + |w|..] == post
  {
    assert t[b] == t[b..][0];
    assert t[b + 1..b + 1 + |w|] == t[b..][1..1 + |w|];
    assert t[b + 1 + |w|..] == t[b..][1 + |w|..];
  }

  /** From the newline ending the heading, the two lines that follow. */
  lemma TwoLines(t: string, a: nat, v: string, w: string, post: string)
    requires Captured(v) && !IsSpace(v[0]) && Captured(w) && !IsSpace(w[0])
    requires post == [] || post[0] == '\n'
    requires a + 1 + |v| + 1 + |w| + |post| == |t|
    requires t[a] == '\n' && t[a + 1..a + 1 + |v|] == v && t[a + 1 + |v|..] == "\n" + w + post
    requires var b := a + 1 + |v|;
      t[b] == '\n' && t[b + 1..b + 1 + |w|] == w && t[b + 1 + |w|..] == post
    ensures var tail: seq<Piece> := [Spaces, LineEnd, Spaces, Line];
      Match(t, a, tail + tail) == Some([v, w])
  {
    var b := a + 1 + |v|;
    var tail: seq<Piece> := [Spaces, LineEnd, Spaces, Line];
    assert tail + [] == tail;
    LabelThenLine(t, b, w, post, []);
    assert Match(t, b + 1 + |w|, []) == Some([]);
    assert [w] + [] == [w];
    LabelThenLine(t, a, v, "\n" + w + post, tail);
    assert [v] + [w] == [v, w];
  }

  /** A report that opens with `### <name>` gives that section's line,
      stripped. */
  lemma LookupOpeningSection(name: string, v: string, post: string)
    requires name != [] && !IsSpace(name[0])
    requires Captured(v) && !IsSpace(v[0])
    requires post == [] || post[0] == '\n'
    ensures Lookup("### " + name + "\n" + v + post, name) == Some(Strip(v))
  {
    SectionLine(name, v, post);
  }

  /** The two-line lookup of a report that opens with `### <name>` gives
      the second line after the heading, stripped. */
  lemma SecondLookupOpeningSection(name: string, v: string, w: string, post: string)
    requires name != [] && !IsSpace(name[0])
    requires Captured(v) && !IsSpace(v[0]) && Captured(w) && !IsSpace(w[0])
    requires post == [] || post[0] == '\n'
    ensures SecondLookup("### " + name + "\n" + v + "\n" + w + post, name) == Some(Strip(w))
  {
    SectionTwoLines(name, v, w, post);
  }

  /** A report whose earlier lines hold no `###`: the section's search
      passes them by and the lookup gives the line after `### <name>`,
      stripped. */
  lemma LookupAfterLines(pre: string, name: string, v: string, post: string)
    requires pre == [] || pre[|pre| - 1] == '\n'
    requires forall q :: 0 <= q <= |pre| ==> !At(pre, q, "###")
    requires name != [] && !IsSpace(name[0])
    requires Captured(v) && !IsSpace(v[0])
    requires post == [] || post[0] == '\n'
    ensures Lookup(pre + ("### " + name + "\n" + v + post), name) == Some(Strip(v))
  {
    var t := pre + ("### " + name + "\n" + v + post);
    SectionLineAt(t, pre, name, v, post);
    NothingBefore(t, pre, Section(name));
    SearchFirst(t, 0, Section(name), |pre|);
    TwoGroups(name);
  }

  /** The section pattern matches at the heading after pre. */
  lemma SectionLineAt(t: string, pre: string, name: string, v: string, post: string)
    requires t == pre + ("### " + name + "\n" + v + post)
    requires pre == [] || pre[|pre| - 1] == '\n'
    requires name != [] && !IsSpace(name[0])
    requires Captured(v) && !IsSpace(v[0])
    requires post == [] || post[0] == '\n'
    ensures t[..|pre|] == pre
    ensures MatchesAt(t, |pre|, Section(name)) && Match(t, |pre|, Section(name)) == Some([v])
  {
    SectionLayout(t, pre, name, v, post);
    SectionFrom(t, |pre|, name, v, post);
  }

  /** Where the heading and the line after it sit in the text. */
  lemma SectionLayout(t: string, pre: string, name: string, v: string, post: string)
    requires t == pre + ("### " + name + "\n" + v + post)
    ensures t[..|pre|] == pre
    ensures LineLayout(t, |pre|, name, v, post)
  {
    var a := |pre| + 4 + |name|;
    SectionText(t, pre, name, "\n" + v + post);
    assert t[a..] == "\n" + v + post;
    Pieces(t, a, v, post);
  }

  /** `### <name>` at h, then the line v, then post. */
  predicate LineLayout(t: string, h: nat, name: string, v: string, post: string)
  {
    var a := h + 4 + |name|;
    && a + 1 + |v| + |post| == |t| && t[h..a] == "### " + name
    && t[a] == '\n' && t[a + 1..a + 1 + |v|] == v && t[a + 1 + |v|..] == post
  }

  /** The section pattern at h, over a heading and the line after it. */
  lemma SectionFrom(t: string, h: nat, name: string, v: string, post: string)
    requires name != [] && !IsSpace(name[0])
    requires Captured(v) && !IsSpace(v[0])
    requires post == [] || post[0] == '\n'
    requires LineLayout(t, h, name, v, post)
    ensures Match(t, h, Section(name)) == Some([v])
  {
    var a := h + 4 + |name|;
    var tail: seq<Piece> := [Spaces, LineEnd, Spaces, Line];
    assert tail + [] == tail;
    LabelThenLine(t, a, v, post, []);
    assert Match(t, a + 1 + |v|, []) == Some([]);
    assert [v] + [] == [v];
    Heading(t, h, name, tail);
    assert Section(name) == [Lit("###"), Spaces, Lit(name)] + tail;
  }

  /** The two-line lookup of a section after lines without `###` gives the
      second line after its heading, stripped. */
  lemma SecondLookupAfterLines(pre: string, name: string, v: string, w: string, post: string)
    requires pre == [] || pre[|pre| - 1] == '\n'
    requires forall q :: 0 <= q <= |pre| ==> !At(pre, q, "###")
    requires name != [] && !IsSpace(name[0])
    requires Captured(v) && !IsSpace(v[0]) && Captured(w) && !IsSpace(w[0])
    requires post == [] || post[0] == '\n'
    ensures SecondLookup(pre + ("### " + name + "\n" + v + "\n" + w + post), name) == Some(Strip(w))
  {
    var t := pre + ("### " + name + "\n" + v + "\n" + w + post);
    TwoLinesAt(t, pre, name, v, w, post);
    NothingBefore(t, pre, TwoLineSection(name));
    SearchFirst(t, 0, TwoLineSection(name), |pre|);
    TwoGroups(name);
  }

  /** The two-line pattern matches at the heading after pre. */
  lemma TwoLinesAt(t: string, pre: string, name: string, v: string, w: string, post: string)
    requires t == pre + ("### " + name + "\n" + v + "\n" + w + post)
    requires pre == [] || pre[|pre| - 1] == '\n'
    requires name != [] && !IsSpace(name[0])
    requires Captured(v) && !IsSpace(v[0]) && Captured(w) && !IsSpace(w[0])
    requires post == [] || post[0] == '\n'
    ensures t[..|pre|] == pre
    ensures MatchesAt(t, |pre|, TwoLineSection(name)) && Match(t, |pre|, TwoLineSection(name)) == Some([v, w])
  {
    TwoLinesLayout(t, pre, name, v, w, post);
    TwoLinesFrom(t, |pre|, name, v, w, post);
  }

  /** Where the heading and the two lines after it sit in the text. */
  lemma TwoLinesLayout(t: string, pre: string, name: string, v: string, w: string, post: string)
    requires t == pre + ("### " + name + "\n" + v + "\n" + w + post)
    ensures t[..|pre|] == pre
    ensures TwoLineLayout(t, |pre|, name, v, w, post)
  {
    assert "### " + name + "\n" + v + "\n" + w + post == "### " + name + "\n" + v + ("\n" + w + post);
    SectionLayout(t, pre, name, v, "\n" + w + post);
    Pieces(t, |pre| + 4 + |name| + 1 + |v|, w, post);
  }

  /** `### <name>` at h, then the lines v and w, then post. */
  predicate TwoLineLayout(t: string, h: nat, name: string, v: string, w: string, post: string)
  {
    var a := h + 4 + |name|; var b := a + 1 + |v|;
    && a + 1 + |v| + 1 + |w| + |post| == |t| && t[h..a] == "### " + name
    && t[a] == '\n' && t[a + 1..b] == v && t[b..] == "\n" + w + post
    && t[b] == '\n' && t[b + 1..b + 1 + |w|] == w && t[b + 1 + |w|..] == post
  }

  /** The two-line pattern at h, over a heading and the two lines after
      it. */
  lemma TwoLinesFrom(t: string, h: nat, name: string, v: string, w: string, post: string)
    requires name != [] && !IsSpace(name[0])
    requires Captured(v) && !IsSpace(v[0]) && Captured(w) && !IsSpace(w[0])
    requires post == [] || post[0] == '\n'
    requires TwoLineLayout(t, h, name, v, w, post)
    ensures Match(t, h, TwoLineSection(name)) == Some([v, w])
  {
    var tail: seq<Piece> := [Spaces, LineEnd, Spaces, Line];
    TwoLines(t, h + 4 + |name|, v, w, post);
    Heading(t, h, name, tail + tail);
    TwoLinePieces(name);
  }

  /** Where the heading sits in a text that starts with pre. */
  lemma SectionText(t: string, pre: string, name: string, body: string)
    requires t == pre + ("### " + name + body)
    ensures |pre| + 4 + |name| + |body| == |t|
    ensures t[|pre|..|pre| + 4 + |name|] == "### " + name
    ensures t[|pre| + 4 + |name|..] == body
  {
    assert t[|pre|..] == "### " + name + body;
  }

  /** No line start inside pre matches a pattern that opens with `###`. */
  lemma NothingBefore(t: string, pre: string, ps: seq<Piece>)
    requires |pre| <= |t| && t[..|pre|] == pre
    requires pre == [] || pre[|pre| - 1] == '\n'
    requires forall q :: 0 <= q <= |pre| ==> !At(pre, q, "###")
    requires ps != [] && ps[0] == Lit("###")
    ensures forall q :: 0 <= q < |pre| ==> !MatchesAt(t, q, ps)
  {
    forall q | 0 <= q < |pre|
      ensures !MatchesAt(t, q, ps)
    {
      NoHashAt(t, pre, q);
      StepLit(t, q, "###", ps[1..]);
      assert [Lit("###")] + ps[1..] == ps;
    }
  }

  /** `###` cannot start inside pre: before its last three characters pre
      holds none, and a match reaching past pre's end would cover its
      final newline. */
  lemma NoHashAt(t: string, pre: string, q: nat)
    requires |pre| <= |t| && t[..|pre|] == pre
    requires pre == [] || pre[|pre| - 1] == '\n'
    requires forall q :: 0 <= q <= |pre| ==> !At(pre, q, "###")
    requires q < |pre|
    ensures !At(t, q, "###")
  {
    if q + 3 <= |pre| {
      assert !At(pre, q, "###");
      assert t[q..q + 3] == pre[q..q + 3];
    } else if q + 3 <= |t| {
      assert t[|pre| - 1] == '\n';
      assert t[q..q + 3][|pre| - 1 - q] == t[|pre| - 1];
    }
  }

  /** fio_version is the second line after its heading, whatever it holds:
      after a `fio --version` command line it is the version. */
  lemma FioVersionAfterCommand()
    ensures SecondLookup("### fio_version\n" + "$ fio --version\n" + "fio-3.36" + "\n", "fio_version") == Some("fio-3.36")
  {
    var v, w := "$ fio --version", "fio-3.36";
    Lines(v);
    Lines(w);
    Lines("fio_version");
    assert "### fio_version\n" + "$ fio --version\n" + "fio-3.36" + "\n" == "### " + "fio_version" + "\n" + v + "\n" + w + "\n";
    SecondLookupOpeningSection("fio_version", v, w, "\n");
    StripFixed(w);
  }

  /** With a single line of version text, the second line is the next
      section's heading. */
  lemma FioVersionOneLine()
    ensures SecondLookup("### fio_version\n" + "fio-3.36\n" + "### uname" + "\nLinux 6.8", "fio_version") == Some("### uname")
  {
    var v, w := "fio-3.36", "### uname";
    Lines(v);
    Lines(w);
    Lines("fio_version");
    assert "### fio_version\n" + "fio-3.36\n" + "### uname" + "\nLinux 6.8" == "### " + "fio_version" + "\n" + v + "\n" + w + "\nLinux 6.8";
    SecondLookupOpeningSection("fio_version", v, w, "\nLinux 6.8");
    StripFixed(w);
  }

  /** The example lines: non-blank at both ends, no newline. */
  lemma Lines(s: string)
    requires s != [] && s[0] in "$#f" && s[|s| - 1] in "6en"
    requires forall k :: 0 <= k < |s| ==> s[k] != '\n'
    ensures Captured(s) && !IsSpace(s[0]) && !IsSpace(s[|s| - 1])
  {
  }

  /** `###`, a blank and the name at position h of the text: the pieces
      after them go on from the name's end. */
  lemma Heading(t: string, h: nat, name: string, rest: seq<Piece>)
    requires name != [] && !IsSpace(name[0])
    requires h + 4 + |name| <= |t| && t[h..h + 4 + |name|] == "### " + name
    requires Match(t, h + 4 + |name|, rest).Some?
    ensures Match(t, h, [Lit("###"), Spaces, Lit(name)] + rest) == Match(t, h + 4 + |name|, rest)
  {
    HeadingText(t, h, name);
    var y := [Lit(name)] + rest;
    HeadingPieces(name, rest);
    StepLit(t, h + 4, name, rest);
    SpacesStop(t, h + 3, h + 4, y);
    StepLit(t, h, "###", [Spaces] + y);
  }

  lemma HeadingPieces(name: string, rest: seq<Piece>)
    ensures [Lit("###"), Spaces, Lit(name)] + rest == [Lit("###")] + ([Spaces] + ([Lit(name)] + rest))
  {
  }

  /** `\s*` that runs from i to k and can stop there. */
  lemma SpacesStop(t: string, i: nat, k: nat, rest: seq<Piece>)
    requires i <= k <= |t| && Span(t, i, IsSpace) == k && Match(t, k, rest).Some?
    ensures Match(t, i, [Spaces] + rest) == Match(t, k, rest)
  {
    StepSpaces(t, i, rest);
  }

  /** `\s*` over one character that cannot stop after it gives it back. */
  lemma SpacesGiveBack(t: string, i: nat, rest: seq<Piece>)
    requires i < |t| && Span(t, i, IsSpace) == i + 1 && Match(t, i + 1, rest).None?
    ensures Match(t, i, [Spaces] + rest) == Match(t, i, rest)
  {
    StepSpaces(t, i, rest);
    assert SpacesTo(t, i, i + 1, rest) == SpacesTo(t, i, i, rest);
  }

  /** The characters of a `### <name>` heading. */
  lemma HeadingText(t: string, h: nat, name: string)
    requires name != [] && !IsSpace(name[0])
    requires h + 4 + |name| <= |t| && t[h..h + 4 + |name|] == "### " + name
    ensures At(t, h, "###") && Span(t, h + 3, IsSpace) == h + 4 && At(t, h + 4, name)
  {
    var hd := "### " + name;
    assert t[h..h + 3] == hd[..3] == "###";
    assert t[h + 3] == hd[3] == ' ' && t[h + 4] == hd[4] == name[0];
    assert Span(t, h + 4, IsSpace) == h + 4;
    assert t[h + 4..h + 4 + |name|] == hd[4..] == name;
  }

  /** From the newline that ends a name's line: `\s*$\s*([^\n]+)` takes the
      next line, then the pieces after it go on from its end. */
  lemma LabelThenLine(t: string, a: nat, v: string, post: string, after: seq<Piece>)
    requires a + 1 + |v| + |post| == |t| && t[a] == '\n' && t[a + 1..a + 1 + |v|] == v && t[a + 1 + |v|..] == post
    requires Captured(v) && !IsSpace(v[0])
    requires post == [] || post[0] == '\n'
    requires Match(t, a + 1 + |v|, after).Some?
    ensures Match(t, a, [Spaces, LineEnd, Spaces, Line] + after) == Some([v] + Match(t, a + 1 + |v|, after).value)
  {
    assert t[a + 1] == v[0];
    LineThen(t, a + 1, v, post, after);
    NextLine(t, a, after);
  }

  /** `\s*$\s*` from the newline that ends a line, when the next line
      starts with a non-space: it stops at that next line's start. */
  lemma NextLine(t: string, a: nat, after: seq<Piece>)
    requires a + 1 < |t| && t[a] == '\n' && !IsSpace(t[a + 1])
    requires Match(t, a + 1, [Line] + after).Some?
    ensures Match(t, a, [Spaces, LineEnd, Spaces, Line] + after) == Match(t, a + 1, [Line] + after)
  {
    var b := a + 1;
    var y := [Spaces, Line] + after;
    var x := [LineEnd] + y;
    NextLinePieces(after);
    assert Span(t, a, IsSpace) == b by {
      assert Span(t, b, IsSpace) == b;
    }
    StepLineEnd(t, b, y);
    SpacesGiveBack(t, a, x);
    StepLineEnd(t, a, y);
    SpacesStop(t, a, b, [Line] + after);
  }

  lemma NextLinePieces(after: seq<Piece>)
    ensures [Spaces, LineEnd, Spaces, Line] + after == [Spaces] + ([LineEnd] + ([Spaces, Line] + after))
    ensures [Spaces, Line] + after == [Spaces] + ([Line] + after)
  {
  }

  /** `([^\n]+)` at the start of a line captures the whole line. */
  lemma LineThen(t: string, b: nat, v: string, post: string, after: seq<Piece>)
    requires b + |v| + |post| == |t| && t[b..b + |v|] == v && t[b + |v|..] == post
    requires Captured(v)
    requires post == [] || post[0] == '\n'
    requires Match(t, b + |v|, after).Some?
    ensures Match(t, b, [Line] + after) == Some([v] + Match(t, b + |v|, after).value)
  {
    var e := b + |v|;
    forall j | b <= j < e
      ensures t[j] != '\n'
    {
      assert t[j] == v[j - b];
    }
    SpanUpTo(t, b, e);
    StepLine(t, b, after);
    assert t[b..e] == v;
  }

  lemma StepSpaces(t: string, i: nat, rest: seq<Piece>)
    requires i <= |t|
    ensures Match(t, i, [Spaces] + rest) == SpacesTo(t, i, Span(t, i, IsSpace), rest)
  {
    assert ([Spaces] + rest)[1..] == rest;
  }

  lemma StepLineEnd(t: string, i: nat, rest: seq<Piece>)
    requires i <= |t|
    ensures Match(t, i, [LineEnd] + rest) == if i == |t| || t[i] == '\n' then Match(t, i, rest) else None
  {
    assert ([LineEnd] + rest)[1..] == rest;
  }

  lemma StepLine(t: string, i: nat, rest: seq<Piece>)
    requires i <= |t|
    ensures Match(t, i, [Line] + rest) == LineTo(t, i, Span(t, i, NotNewline), rest)
  {
    assert ([Line] + rest)[1..] == rest;
  }

  lemma StepLit(t: string, i: nat, s: string, rest: seq<Piece>)
    requires i <= |t|
    ensures Match(t, i, [Lit(s)] + rest) == if At(t, i, s) then Match(t, i + |s|, rest) else None
  {
    assert ([Lit(s)] + rest)[1..] == rest;
  }

  lemma {:induction false} SpanUpTo(t: string, b: nat, e: nat)
    requires b <= e <= |t|
    requires forall j :: b <= j < e ==> t[j] != '\n'
    requires e == |t| || t[e] == '\n'
    ensures Span(t, b, NotNewline) == e
    decreases e - b
  {
    if b < e {
      SpanUpTo(t, b + 1, e);
    }
  }
}
