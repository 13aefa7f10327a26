/** `find_cases` of the visualiser: the case directories of a results tree
    laid out as results/<run_id>/<case_id>/, in sorted order. */
module Cases {
  import opened Text
  import Sorting

  /** An entry of a directory listing. */
  datatype Node = File(name: string) | Dir(name: string, entries: seq<Node>)

  /** Paths in one directory compare by their last component, as strings. */
  predicate NameLe(a: Node, b: Node)
  {
    LexLe(a.name, b.name)
  }

  /** `sorted(d.glob("*"))` over the entries of d. */
  function Listing(entries: seq<Node>): seq<Node>
  {
    Sorting.Sort(entries, NameLe)
  }

  /** The cases the inner loop appends for one run: each sub-directory of
      the run, as (run_id, case_id), in listing order. */
  function CasesOf(run: string, entries: seq<Node>): (r: seq<(string, string)>)
    ensures |r| <= |entries|
    ensures forall p :: p in r ==> p.0 == run
  {
    if entries == [] then []
    else
      var last := entries[|entries| - 1];
      CasesOf(run, entries[..|entries| - 1]) + (if last.Dir? then [(run, last.name)] else [])
  }

  /** The cases of one top-level entry: none unless it is a directory. */
  function RunCases(run: Node): seq<(string, string)>
  {
    if run.Dir? then CasesOf(run.name, Listing(run.entries)) else []
  }

  /** The cases the outer loop has collected after the runs. */
  function Collect(runs: seq<Node>): seq<(string, string)>
  {
    if runs == [] then []
    else Collect(runs[..|runs| - 1]) + RunCases(runs[|runs| - 1])
  }

  /** What `find_cases(root)` returns, as (run_id, case_id) pairs, for the
      entries of the results directory. */
  function Discovered(root: seq<Node>): seq<(string, string)>
  {
    Collect(Listing(root))
  }

  /** The outer loop, over the sorted entries of the results directory. */
  method FindCases(root: seq<Node>) returns (cases: seq<(string, string)>)
    ensures cases == Discovered(root)
  {
    cases := [];
    var runs := Listing(root);
    for i := 0 to |runs|
      invariant cases == Collect(runs[..i])
    {
      CollectStep(runs, i);
      if runs[i].Dir? {
        var found := CasesIn(runs[i].name, Listing(runs[i].entries));
        cases := cases + found;
      }
    }
    assert runs[..|runs|] == runs;
  }

  /** The inner loop, over the sorted entries of one run directory. */
  method CasesIn(run: string, entries: seq<Node>) returns (found: seq<(string, string)>)
    ensures found == CasesOf(run, entries)
  {
    found := [];
    for j := 0 to |entries|
      invariant found == CasesOf(run, entries[..j])
    {
      assert entries[..j + 1][..j] == entries[..j];
      if entries[j].Dir? {
        found := found + [(run, entries[j].name)];
      }
    }
    assert entries[..|entries|] == entries;
  }

  lemma CollectStep(runs: seq<Node>, i: nat)
    requires i < |runs|
    ensures Collect(runs[..i + 1]) == Collect(runs[..i]) + RunCases(runs[i])
  {
    assert runs[..i + 1][..i] == runs[..i];
  }

  // ----- which directories --------------------------------------------------

  lemma ListingMembers(entries: seq<Node>)
    ensures forall x :: x in Listing(entries) <==> x in entries
  {
    var l := Listing(entries);
    assert multiset(l) == multiset(entries);
    forall x
      ensures x in l <==> x in entries
    {
      assert x in l <==> x in multiset(l);
      assert x in entries <==> x in multiset(entries);
    }
  }

  lemma {:induction false} CasesOfMembers(run: string, entries: seq<Node>, p: (string, string))
    ensures p in CasesOf(run, entries) <==> p.0 == run && exists e :: e in entries && e.Dir? && e.name == p.1
  {
    if entries != [] {
      var init := entries[..|entries| - 1];
      var last := entries[|entries| - 1];
      CasesOfMembers(run, init, p);
      assert entries == init + [last];
    }
  }

  lemma {:induction false} CollectMembers(runs: seq<Node>, p: (string, string))
    ensures p in Collect(runs) <==> exists d :: d in runs && p in RunCases(d)
  {
    if runs != [] {
      var init, last := runs[..|runs| - 1], runs[|runs| - 1];
      CollectMembers(init, p);
      assert runs == init + [last];
      assert p in Collect(runs) <==> p in Collect(init) || p in RunCases(last);
    }
  }

  /** Exactly the directories at depth two are found: (r, c) is reported
      when the root has a directory r that has a directory c, and only
      then; files at either level are skipped. */
  lemma DiscoveredExactly(root: seq<Node>, r: string, c: string)
    ensures (r, c) in Discovered(root) <==>
      exists d :: d in root && d.Dir? && d.name == r && exists e :: e in d.entries && e.Dir? && e.name == c
  {
    var p := (r, c);
    ListingMembers(root);
    CollectMembers(Listing(root), p);
    if p in Discovered(root) {
      var d :| d in Listing(root) && p in RunCases(d);
      CasesOfMembers(d.name, Listing(d.entries), p);
      ListingMembers(d.entries);
    }
    if exists d :: d in root && d.Dir? && d.name == r && exists e :: e in d.entries && e.Dir? && e.name == c {
      var d :| d in root && d.Dir? && d.name == r && exists e :: e in d.entries && e.Dir? && e.name == c;
      ListingMembers(d.entries);
      CasesOfMembers(d.name, Listing(d.entries), p);
    }
  }

  // ----- in which order -----------------------------------------------------

  /** (run_id, case_id) pairs in order: by run name, then by case name. */
  predicate PairLe(p: (string, string), q: (string, string))
  {
    LexLe(p.0, q.0) && (p.0 == q.0 ==> LexLe(p.1, q.1))
  }

  predicate UniqueNames(entries: seq<Node>)
  {
    forall i, j :: 0 <= i < j < |entries| ==> entries[i].name != entries[j].name
  }

  lemma NameLeTotal()
    ensures Sorting.TotalPreorder(NameLe)
  {
    forall a: Node, b: Node
      ensures NameLe(a, b) || NameLe(b, a)
    {
      LexLeTotal(a.name, b.name);
    }
    forall a: Node, b: Node, c: Node | NameLe(a, b) && NameLe(b, c)
      ensures NameLe(a, c)
    {
      LexLeTrans(a.name, b.name, c.name);
    }
  }

  /** A run's cases come in case-name order. */
  lemma {:induction false} CasesOfOrdered(run: string, entries: seq<Node>)
    requires Sorting.SortedBy(entries, NameLe)
    ensures forall i, j :: 0 <= i < j < |CasesOf(run, entries)| ==> LexLe(CasesOf(run, entries)[i].1, CasesOf(run, entries)[j].1)
  {
    if entries != [] {
      var init := entries[..|entries| - 1];
      var last := entries[|entries| - 1];
      assert Sorting.SortedBy(init, NameLe);
      CasesOfOrdered(run, init);
      var before := CasesOf(run, init);
      forall i | 0 <= i < |before|
        ensures LexLe(before[i].1, last.name)
      {
        assert before[i] in before;
        CasesOfMembers(run, init, before[i]);
        var e :| e in init && e.Dir? && e.name == before[i].1;
        var k :| 0 <= k < |init| && init[k] == e;
        assert NameLe(entries[k], last);
      }
    }
  }

  /** Every pair of a run's cases carries the run's name. */
  lemma RunCasesName(d: Node, p: (string, string))
    requires p in RunCases(d)
    ensures d.Dir? && p.0 == d.name
  {
    if d.Dir? {
      CasesOfMembers(d.name, Listing(d.entries), p);
    }
  }

  /** A listing has as many entries of each kind as the directory. */
  lemma {:induction false} UniqueCount(entries: seq<Node>, x: Node)
    requires UniqueNames(entries)
    ensures multiset(entries)[x] <= 1
  {
    if entries != [] {
      var init := entries[..|entries| - 1];
      var last := entries[|entries| - 1];
      assert entries == init + [last];
      UniqueCount(init, x);
    }
  }

  /** Sorting keeps the names of a directory distinct. */
  lemma ListingUnique(entries: seq<Node>)
    requires UniqueNames(entries)
    ensures UniqueNames(Listing(entries))
  {
    var l := Listing(entries);
    forall i, j | 0 <= i < j < |l|
      ensures l[i].name != l[j].name
    {
      if l[i] == l[j] {
        assert l == l[..j] + [l[j]] + l[j + 1..];
        assert l[i] in l[..j];
        assert multiset(l)[l[j]] >= 2;
        UniqueCount(entries, l[j]);
      } else {
        assert l[i] in multiset(l) && l[j] in multiset(l);
        var a :| 0 <= a < |entries| && entries[a] == l[i];
        var b :| 0 <= b < |entries| && entries[b] == l[j];
        if a < b {
          assert entries[a].name != entries[b].name;
        } else {
          assert entries[b].name != entries[a].name;
        }
      }
    }
  }

  /** The cases of one run follow those of runs with other, smaller names. */
  lemma ConcatOrdered(a: seq<(string, string)>, b: seq<(string, string)>, run: string)
    requires Sorting.SortedBy(a, PairLe)
    requires forall i :: 0 <= i < |a| ==> LexLe(a[i].0, run) && a[i].0 != run
    requires forall i :: 0 <= i < |b| ==> b[i].0 == run
    requires forall i, j :: 0 <= i < j < |b| ==> LexLe(b[i].1, b[j].1)
    ensures Sorting.SortedBy(a + b, PairLe)
  {
    var s := a + b;
    forall i, j | 0 <= i < j < |s|
      ensures PairLe(s[i], s[j])
    {
      if j < |a| {
        assert PairLe(a[i], a[j]);
      } else if i < |a| {
        assert s[j] == b[j - |a|];
      } else {
        assert s[i] == b[i - |a|] && s[j] == b[j - |a|];
        LexLeRefl(run);
      }
    }
  }

  lemma LexLeRefl(s: string)
    ensures LexLe(s, s)
  {
    LexLeTotal(s, s);
  }

  /** Every case found before the last run belongs to a run listed earlier,
      with a smaller name different from the last run's. */
  lemma EarlierRuns(runs: seq<Node>, a: seq<(string, string)>)
    requires |runs| > 0 && Sorting.SortedBy(runs, NameLe) && UniqueNames(runs)
    requires a == Collect(runs[..|runs| - 1])
    ensures forall i :: 0 <= i < |a| ==> LexLe(a[i].0, runs[|runs| - 1].name) && a[i].0 != runs[|runs| - 1].name
  {
    var init := runs[..|runs| - 1];
    forall i | 0 <= i < |a|
      ensures LexLe(a[i].0, runs[|runs| - 1].name) && a[i].0 != runs[|runs| - 1].name
    {
      assert a[i] in a;
      CollectMembers(init, a[i]);
      var d :| d in init && a[i] in RunCases(d);
      RunCasesName(d, a[i]);
      var k :| 0 <= k < |init| && init[k] == d;
      assert NameLe(runs[k], runs[|runs| - 1]);
      assert runs[k].name != runs[|runs| - 1].name;
    }
  }

  /** The cases of one run, all under its name and in case-name order. */
  lemma LastRun(d: Node)
    ensures forall i :: 0 <= i < |RunCases(d)| ==> RunCases(d)[i].0 == d.name
    ensures forall i, j :: 0 <= i < j < |RunCases(d)| ==> LexLe(RunCases(d)[i].1, RunCases(d)[j].1)
  {
    var b := RunCases(d);
    if d.Dir? {
      NameLeTotal();
      Sorting.SortSorted(d.entries, NameLe);
      CasesOfOrdered(d.name, Listing(d.entries));
    }
    forall i | 0 <= i < |b|
      ensures b[i].0 == d.name
    {
      assert b[i] in b;
      RunCasesName(d, b[i]);
    }
  }

  /** Over runs in name order with distinct names, the cases come by run
      name, then by case name. */
  lemma {:induction false} CollectOrdered(runs: seq<Node>)
    requires Sorting.SortedBy(runs, NameLe) && UniqueNames(runs)
    ensures Sorting.SortedBy(Collect(runs), PairLe)
  {
    if runs != [] {
      var init := runs[..|runs| - 1];
      var last := runs[|runs| - 1];
      assert Sorting.SortedBy(init, NameLe) && UniqueNames(init);
      CollectOrdered(init);
      EarlierRuns(runs, Collect(init));
      LastRun(last);
      ConcatOrdered(Collect(init), RunCases(last), last.name);
    }
  }

  /** `find_cases` returns the cases ordered by sorted run name, then sorted
      case name (the names of one directory being distinct). */
  lemma DiscoveredOrdered(root: seq<Node>)
    requires UniqueNames(root)
    ensures Sorting.SortedBy(Discovered(root), PairLe)
  {
    NameLeTotal();
    Sorting.SortSorted(root, NameLe);
    ListingUnique(root);
    CollectOrdered(Listing(root));
  }
}
