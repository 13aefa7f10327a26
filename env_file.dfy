/** `parse_env`: the KEY=VALUE lines of a run's profile.env. */
module EnvFile {
  import opened Base
  import opened Text
  import Assignments

  /** What one line contributes: nothing for a blank line, a `#` comment or a
      line without `=`; otherwise the stripped text before the first `=` and
      the stripped text after it. */
  function LineEntry(raw: string): Option<(string, string)>
  {
    var line := Strip(raw);
    if line == [] || line[0] == '#' then None
    else match IndexOf(line, '=')
      case None => None
      case Some(i) => Some((Strip(line[..i]), Strip(line[i + 1..])))
  }

  /** Blank, comment and `=`-less lines contribute nothing; a key never holds
      `=` (the split is at the first one); key and value are stripped. */
  lemma LineEntryShape(raw: string)
    ensures LineEntry(raw).None? <==> (Strip(raw) == [] || Strip(raw)[0] == '#' || '=' !in Strip(raw))
    ensures LineEntry(raw).Some? ==> '=' !in LineEntry(raw).value.0
    ensures LineEntry(raw).Some? ==>
      var (k, v) := LineEntry(raw).value; Strip(k) == k && Strip(v) == v
  {
    var line := Strip(raw);
    if line != [] && line[0] != '#' && '=' in line {
      var i := IndexOf(line, '=').value;
      StripKeepsOut(line[..i], '=');
      StripIdempotent(line[..i]);
      StripIdempotent(line[i + 1..]);
    }
  }

  lemma {:induction false} StripKeepsOut(s: string, c: char)
    requires c !in s
    ensures c !in Strip(s)
  {
  }

  lemma {:induction false} StripIdempotent(s: string)
    ensures Strip(Strip(s)) == Strip(s)
  {
    StripFixed(Strip(s));
  }

  predicate Defines(line: string, k: string)
  {
    LineEntry(line).Some? && LineEntry(line).value.0 == k
  }

  /** The assignment each line makes, in file order. */
  function Entries(ls: seq<string>): (es: seq<Option<(string, string)>>)
    ensures |es| == |ls| && forall i :: 0 <= i < |ls| ==> es[i] == LineEntry(ls[i])
  {
    seq(|ls|, i requires 0 <= i < |ls| => LineEntry(ls[i]))
  }

  /** A key is present exactly when some line defines it. */
  lemma EnvKeys(ls: seq<string>, k: string)
    ensures k in Assignments.Apply(Entries(ls)) <==> exists j :: 0 <= j < |ls| && Defines(ls[j], k)
  {
    var es := Entries(ls);
    Assignments.ApplyKeys(es, k);
    if k in Assignments.Apply(es) {
      var j :| 0 <= j < |es| && Assignments.Assigns(es[j], k);
      assert Defines(ls[j], k);
    }
  }

  /** A key's value is the one given by the last line that defines it. */
  lemma EnvLastWins(ls: seq<string>, j: nat)
    requires j < |ls| && LineEntry(ls[j]).Some?
    requires forall m :: j < m < |ls| ==> !Defines(ls[m], LineEntry(ls[j]).value.0)
    ensures var (k, v) := LineEntry(ls[j]).value;
      k in Assignments.Apply(Entries(ls)) && Assignments.Apply(Entries(ls))[k] == v
  {
    var es := Entries(ls);
    forall m | j < m < |es|
      ensures !Assignments.Assigns(es[m], es[j].value.0)
    {
      assert !Defines(ls[m], LineEntry(ls[j]).value.0);
    }
    Assignments.ApplyLastWins(es, j);
  }

  /** `parse_env`, over the lines of the file's text. A key is present exactly
      when some line defines it, and its value is that of the last such line. */
  method ParseEnv(text: string) returns (env: map<string, string>)
    ensures env == Assignments.Apply(Entries(SplitLines(text)))
    ensures var ls := SplitLines(text);
      forall k :: k in env <==> exists j :: 0 <= j < |ls| && Defines(ls[j], k)
    ensures var ls := SplitLines(text);
      forall j :: 0 <= j < |ls| && LineEntry(ls[j]).Some?
                  && (forall m :: j < m < |ls| ==> !Defines(ls[m], LineEntry(ls[j]).value.0))
                  ==> var (k, v) := LineEntry(ls[j]).value; k in env && env[k] == v
  {
    var ls := SplitLines(text);
    ghost var es := Entries(ls);
    env := map[];
    for i := 0 to |ls|
      invariant env == Assignments.Apply(es[..i])
    {
      env := AssignLine(env, ls[i], es, i);
    }
    assert es[..|ls|] == es;
    EnvMeaning(ls, env);
  }

  /** One line of the loop: its assignment, if any, is applied. */
  method AssignLine(env: map<string, string>, line: string, ghost es: seq<Option<(string, string)>>, ghost i: nat)
    returns (env': map<string, string>)
    requires i < |es| && es[i] == LineEntry(line) && env == Assignments.Apply(es[..i])
    ensures env' == Assignments.Apply(es[..i + 1])
  {
    assert es[..i + 1][..i] == es[..i];
    var e := LineEntry(line);
    env' := env;
    if e.Some? {
      env' := env[e.value.0 := e.value.1];
    }
  }

  /** The map the lines build holds exactly the defined keys, each with the
      value of its last defining line. */
  lemma EnvMeaning(ls: seq<string>, env: map<string, string>)
    requires env == Assignments.Apply(Entries(ls))
    ensures forall k :: k in env <==> exists j :: 0 <= j < |ls| && Defines(ls[j], k)
    ensures forall j :: 0 <= j < |ls| && LineEntry(ls[j]).Some?
                  && (forall m :: j < m < |ls| ==> !Defines(ls[m], LineEntry(ls[j]).value.0))
                  ==> var (k, v) := LineEntry(ls[j]).value; k in env && env[k] == v
  {
    AllKeys(ls, env);
    AllValues(ls, env);
  }

  lemma AllKeys(ls: seq<string>, env: map<string, string>)
    requires env == Assignments.Apply(Entries(ls))
    ensures forall k :: k in env <==> exists j :: 0 <= j < |ls| && Defines(ls[j], k)
  {
    forall k {
      EnvKeys(ls, k);
    }
  }

  lemma AllValues(ls: seq<string>, env: map<string, string>)
    requires env == Assignments.Apply(Entries(ls))
    ensures forall j :: 0 <= j < |ls| && LineEntry(ls[j]).Some?
                  && (forall m :: j < m < |ls| ==> !Defines(ls[m], LineEntry(ls[j]).value.0))
                  ==> var (k, v) := LineEntry(ls[j]).value; k in env && env[k] == v
  {
    forall j | 0 <= j < |ls| && LineEntry(ls[j]).Some?
               && (forall m :: j < m < |ls| ==> !Defines(ls[m], LineEntry(ls[j]).value.0))
    {
      EnvLastWins(ls, j);
    }
  }

  /** A line splits at its first `=` only: the value keeps any later `=`. */
  lemma {:induction false} SplitsAtFirstEquals(k: string, v: string)
    requires k != [] && !IsSpace(k[0]) && k[0] != '#' && '=' !in k
    requires v == [] || (!IsSpace(v[0]) && !IsSpace(v[|v| - 1]))
    ensures LineEntry(k + "=" + v) == Some((Strip(k), v))
  {
    var line := k + "=" + v;
    StripFixed(line);
    StripFixed(v);
    IndexOfFirst(k, '=', v);
    assert line[..|k|] == k && line[|k| + 1..] == v;
  }
}
