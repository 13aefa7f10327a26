/** Python's `sorted` / pandas' `sort_values`: a stable sort under a total
    preorder, written as insertion sort. */
module Sorting {

  ghost predicate TotalPreorder<T(!new)>(le: (T, T) -> bool)
  {
    && (forall a, b :: le(a, b) || le(b, a))
    && (forall a, b, c :: le(a, b) && le(b, c) ==> le(a, c))
  }

  predicate SortedBy<T>(s: seq<T>, le: (T, T) -> bool)
  {
    forall i, j :: 0 <= i < j < |s| ==> le(s[i], s[j])
  }

  /** Insert x after every element of s that is not greater than it. */
  function Insert<T>(x: T, s: seq<T>, le: (T, T) -> bool): (r: seq<T>)
    ensures multiset(r) == multiset(s) + multiset{x}
    ensures |r| == |s| + 1
  {
    if s == [] then [x]
    else if le(s[0], x) then
      var t := Insert(x, s[1..], le);
      assert s == [s[0]] + s[1..];
      [s[0]] + t
    else [x] + s
  }

  /** Stable sort: equal elements keep their relative order. */
  function Sort<T>(s: seq<T>, le: (T, T) -> bool): (r: seq<T>)
    ensures multiset(r) == multiset(s)
    ensures |r| == |s|
  {
    if s == [] then []
    else
      assert s == s[..|s| - 1] + [s[|s| - 1]];
      Insert(s[|s| - 1], Sort(s[..|s| - 1], le), le)
  }

  lemma {:induction false} InsertSorted<T(!new)>(x: T, s: seq<T>, le: (T, T) -> bool)
    requires TotalPreorder(le)
    requires SortedBy(s, le)
    ensures SortedBy(Insert(x, s, le), le)
  {
    if s != [] && le(s[0], x) {
      InsertSorted(x, s[1..], le);
      var t := Insert(x, s[1..], le);
      assert forall k :: 0 <= k < |t| ==> t[k] in multiset(s[1..]) + multiset{x};
      forall k | 0 <= k < |t|
        ensures le(s[0], t[k])
      {
        assert t[k] in multiset(t);
        if t[k] != x {
          assert t[k] in multiset(s[1..]);
          var m :| 0 <= m < |s[1..]| && s[1..][m] == t[k];
          assert s[m + 1] == t[k];
        }
      }
    }
  }

  lemma {:induction false} SortSorted<T(!new)>(s: seq<T>, le: (T, T) -> bool)
    requires TotalPreorder(le)
    ensures SortedBy(Sort(s, le), le)
  {
    if s != [] {
      SortSorted(s[..|s| - 1], le);
      InsertSorted(s[|s| - 1], Sort(s[..|s| - 1], le), le);
    }
  }

  // ----- stability ------------------------------------------------------------

  /** [y] when le ranks y equal to e, else nothing. */
  function Keep<T>(y: T, e: T, le: (T, T) -> bool): seq<T>
  {
    if le(y, e) && le(e, y) then [y] else []
  }

  /** The elements of s that le ranks equal to e, in their order in s. */
  function Equivalents<T>(s: seq<T>, e: T, le: (T, T) -> bool): seq<T>
  {
    if s == [] then [] else Keep(s[0], e, le) + Equivalents(s[1..], e, le)
  }

  /** Equal elements keep their relative order: for every e, the elements
      ranked equal to e come out of the sort in the order they went in. */
  lemma {:induction false} SortStable<T(!new)>(s: seq<T>, e: T, le: (T, T) -> bool)
    requires TotalPreorder(le)
    ensures Equivalents(Sort(s, le), e, le) == Equivalents(s, e, le)
  {
    if s != [] {
      var init, x := s[..|s| - 1], s[|s| - 1];
      calc {
        Equivalents(Sort(s, le), e, le);
        Equivalents(Insert(x, Sort(init, le), le), e, le);
        { SortSorted(init, le); InsertStable(x, Sort(init, le), e, le); }
        Equivalents(Sort(init, le), e, le) + Keep(x, e, le);
        { SortStable(init, e, le); }
        Equivalents(init, e, le) + Keep(x, e, le);
        { EquivalentsLast(s, e, le); }
        Equivalents(s, e, le);
      }
    }
  }

  lemma EquivalentsLast<T>(s: seq<T>, e: T, le: (T, T) -> bool)
    requires s != []
    ensures Equivalents(s, e, le) == Equivalents(s[..|s| - 1], e, le) + Keep(s[|s| - 1], e, le)
  {
    var x := s[|s| - 1];
    assert s == s[..|s| - 1] + [x];
    EquivalentsAppend(s[..|s| - 1], [x], e, le);
    assert Equivalents([x], e, le) == Keep(x, e, le) + Equivalents([], e, le);
  }

  /** Inserting x into a sorted sequence puts it after every element ranked
      equal to it. */
  lemma {:induction false} InsertStable<T(!new)>(x: T, s: seq<T>, e: T, le: (T, T) -> bool)
    requires TotalPreorder(le)
    requires SortedBy(s, le)
    ensures Equivalents(Insert(x, s, le), e, le) == Equivalents(s, e, le) + Keep(x, e, le)
  {
    if s == [] {
      assert Equivalents([x], e, le) == Keep(x, e, le) + Equivalents([], e, le);
    } else if le(s[0], x) {
      var t := Insert(x, s[1..], le);
      InsertStable(x, s[1..], e, le);
      assert Insert(x, s, le) == [s[0]] + t;
      assert ([s[0]] + t)[1..] == t;
      assert Equivalents([s[0]] + t, e, le) == Keep(s[0], e, le) + Equivalents(t, e, le);
      Associative(Keep(s[0], e, le), Equivalents(s[1..], e, le), Keep(x, e, le));
    } else {
      assert Insert(x, s, le) == [x] + s;
      assert ([x] + s)[1..] == s;
      if le(x, e) && le(e, x) {
        Behind(x, s, e, le);
      }
    }
  }

  /** An element that goes in front of a sorted sequence has no equal in it. */
  lemma Behind<T(!new)>(x: T, s: seq<T>, e: T, le: (T, T) -> bool)
    requires TotalPreorder(le) && SortedBy(s, le)
    requires s != [] && !le(s[0], x) && le(x, e) && le(e, x)
    ensures Equivalents(s, e, le) == []
  {
    forall k | 0 <= k < |s|
      ensures !(le(s[k], e) && le(e, s[k]))
    {
      if k > 0 {
        assert le(s[0], s[k]);
      }
    }
    NoEquivalents(s, e, le);
  }

  lemma {:induction false} EquivalentsAppend<T>(a: seq<T>, b: seq<T>, e: T, le: (T, T) -> bool)
    ensures Equivalents(a + b, e, le) == Equivalents(a, e, le) + Equivalents(b, e, le)
  {
    if a == [] {
      assert a + b == b;
    } else {
      EquivalentsAppend(a[1..], b, e, le);
      assert (a + b)[0] == a[0];
      assert (a + b)[1..] == a[1..] + b;
      Associative(Keep(a[0], e, le), Equivalents(a[1..], e, le), Equivalents(b, e, le));
    }
  }

  lemma {:induction false} NoEquivalents<T>(s: seq<T>, e: T, le: (T, T) -> bool)
    requires forall k :: 0 <= k < |s| ==> !(le(s[k], e) && le(e, s[k]))
    ensures Equivalents(s, e, le) == []
  {
    if s != [] {
      NoEquivalents(s[1..], e, le);
    }
  }

  lemma Associative<T>(x: seq<T>, y: seq<T>, z: seq<T>)
    ensures (x + y) + z == x + (y + z)
  {
  }
}
