/** Option and the outcome of a Python expression that may raise. */
module Base {

  datatype Option<+T> = None | Some(value: T)
  {
    /** Python's `x or y` on an optional value: the first when present. */
    function OrElse(other: Option<T>): Option<T>
    {
      if Some? then this else other
    }

    predicate IsFailure()
    {
      None?
    }

    function PropagateFailure<U>(): Option<U>
      requires None?
    {
      None
    }

    function Extract(): T
      requires Some?
    {
      value
    }
  }

  /** `Raised` stands for an exception that nothing in the script catches, so
      the whole run stops there. */
  datatype Result<+T> = Ok(value: T) | Raised
  {
    predicate IsFailure()
    {
      Raised?
    }

    function PropagateFailure<U>(): Result<U>
      requires Raised?
    {
      Raised
    }

    function Extract(): T
      requires Ok?
    {
      value
    }
  }
}

/** A dict filled by a loop of `d[k] = v` assignments, one optional assignment
    per input item, in order: a later assignment to a key overwrites. */
module Assignments {
  import opened Base

  function Apply<K(==), V>(es: seq<Option<(K, V)>>): map<K, V>
  {
    if es == [] then map[]
    else
      var before := Apply(es[..|es| - 1]);
      var last := es[|es| - 1];
      if last.Some? then before[last.value.0 := last.value.1] else before
  }

  predicate Assigns<K(==), V>(e: Option<(K, V)>, k: K)
  {
    e.Some? && e.value.0 == k
  }

  /** A key is present exactly when some item assigns it. */
  lemma {:induction false} ApplyKeys<K, V>(es: seq<Option<(K, V)>>, k: K)
    ensures k in Apply(es) <==> exists j :: 0 <= j < |es| && Assigns(es[j], k)
  {
    if es != [] {
      var init := es[..|es| - 1];
      ApplyKeys(init, k);
      if exists j :: 0 <= j < |init| && Assigns(init[j], k) {
        var j :| 0 <= j < |init| && Assigns(init[j], k);
        assert es[j] == init[j];
      }
      if exists j :: 0 <= j < |es| && Assigns(es[j], k) {
        var j :| 0 <= j < |es| && Assigns(es[j], k);
        if j < |init| {
          assert init[j] == es[j];
        }
      }
    }
  }

  /** The value of a key is the one of the last item that assigns it. */
  lemma {:induction false} ApplyLastWins<K, V>(es: seq<Option<(K, V)>>, j: nat)
    requires j < |es| && es[j].Some?
    requires forall m :: j < m < |es| ==> !Assigns(es[m], es[j].value.0)
    ensures es[j].value.0 in Apply(es) && Apply(es)[es[j].value.0] == es[j].value.1
  {
    var init := es[..|es| - 1];
    if j < |es| - 1 {
      assert !Assigns(es[|es| - 1], es[j].value.0);
      forall m | j < m < |init|
        ensures !Assigns(init[m], es[j].value.0)
      {
        assert init[m] == es[m];
      }
      ApplyLastWins(init, j);
    }
  }
}
