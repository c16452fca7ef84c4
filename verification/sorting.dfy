/** Python's `list.sort` / `sorted`, as a stable insertion sort over a total preorder
    given by a comparison `le` (the tuple key of the call site). */
module Sorting {

  ghost predicate Total<T(!new)>(le: (T, T) -> bool) {
    forall a, b :: le(a, b) || le(b, a)
  }

  /** Adjacent elements are in order; with a transitive `le` every pair is. */
  predicate Sorted<T>(s: seq<T>, le: (T, T) -> bool) {
    forall i :: 0 <= i < |s| - 1 ==> le(s[i], s[i + 1])
  }

  function Insert<T>(x: T, s: seq<T>, le: (T, T) -> bool): (r: seq<T>)
    ensures |r| == |s| + 1 && multiset(r) == multiset(s) + multiset{x}
    ensures r[0] == x || (s != [] && r[0] == s[0])
  {
    if s == [] then [x]
    else if le(x, s[0]) then [x] + s
    else
      assert s == [s[0]] + s[1..];
      [s[0]] + Insert(x, s[1..], le)
  }

  function Sort<T>(s: seq<T>, le: (T, T) -> bool): (r: seq<T>)
    ensures |r| == |s| && multiset(r) == multiset(s)
  {
    if s == [] then []
    else
      assert s == [s[0]] + s[1..];
      Insert(s[0], Sort(s[1..], le), le)
  }

  lemma {:induction false} InsertSorted<T(!new)>(x: T, s: seq<T>, le: (T, T) -> bool)
    requires Total(le) && Sorted(s, le)
    ensures Sorted(Insert(x, s, le), le)
  {
    if s != [] && !le(x, s[0]) {
      InsertSorted(x, s[1..], le);
      var t := Insert(x, s[1..], le);
      assert le(s[0], x);
      assert |s| > 1 ==> le(s[0], s[1]);
      assert Insert(x, s, le) == [s[0]] + t;
    }
  }

  /** The result of `Sort` is in order. */
  lemma {:induction false} SortSorted<T(!new)>(s: seq<T>, le: (T, T) -> bool)
    requires Total(le)
    ensures Sorted(Sort(s, le), le)
  {
    if s != [] {
      SortSorted(s[1..], le);
      InsertSorted(s[0], Sort(s[1..], le), le);
    }
  }

  lemma SortMembers<T>(s: seq<T>, le: (T, T) -> bool)
    ensures forall x :: x in Sort(s, le) <==> x in s
  {
    var r := Sort(s, le);
    forall x ensures x in r <==> x in s {
      assert x in r <==> x in multiset(r);
      assert x in s <==> x in multiset(s);
    }
  }

  /** An adjacent-sorted sequence is sorted pairwise when `le` is transitive. */
  lemma {:induction false} SortedPairwise<T(!new)>(s: seq<T>, le: (T, T) -> bool, i: int, j: int)
    requires Sorted(s, le) && 0 <= i <= j < |s|
    requires forall a, b, c :: le(a, b) && le(b, c) ==> le(a, c)
    requires forall a :: le(a, a)
    ensures le(s[i], s[j])
    decreases j - i
  {
    if i < j {
      SortedPairwise(s, le, i + 1, j);
    }
  }

  ghost predicate Transitive<T(!new)>(le: (T, T) -> bool) {
    forall a, b, c :: le(a, b) && le(b, c) ==> le(a, c)
  }

  /** Python's `min(s, key=...)`: scanning left to right, an element replaces the current
      minimum only when it is strictly smaller, so the first minimal element wins. */
  function Min<T>(s: seq<T>, le: (T, T) -> bool): (r: T)
    requires s != []
    ensures r in s
  {
    if |s| == 1 then s[0]
    else
      var m := Min(s[..|s| - 1], le);
      assert m in s by {
        assert s == s[..|s| - 1] + [s[|s| - 1]];
      }
      if le(s[|s| - 1], m) && !le(m, s[|s| - 1]) then s[|s| - 1] else m
  }

  /** With a total, transitive `le`, `Min` is below every element. */
  lemma {:induction false} MinLeast<T(!new)>(s: seq<T>, le: (T, T) -> bool, x: T)
    requires x in s && Total(le) && Transitive(le)
    ensures le(Min(s, le), x)
  {
    if |s| > 1 {
      var init := s[..|s| - 1];
      assert s == init + [s[|s| - 1]];
      if x in init {
        MinLeast(init, le, x);
      } else {
        assert x == s[|s| - 1];
      }
    }
  }

  /** No two elements share a value of `f`. */
  predicate DistinctBy<T, U(==)>(s: seq<T>, f: T -> U) {
    forall i, j :: 0 <= i < j < |s| ==> f(s[i]) != f(s[j])
  }

  lemma {:induction false} InsertDistinctBy<T(!new), U>(x: T, s: seq<T>, le: (T, T) -> bool, f: T -> U)
    requires DistinctBy(s, f) && forall y :: y in s ==> f(y) != f(x)
    ensures DistinctBy(Insert(x, s, le), f)
  {
    if s != [] && !le(x, s[0]) {
      var t := Insert(x, s[1..], le);
      InsertDistinctBy(x, s[1..], le, f);
      forall y | y in t ensures f(y) != f(s[0]) {
        assert y in multiset(t);
        if y != x {
          assert y in multiset(s[1..]);
          var j :| 0 <= j < |s[1..]| && s[1..][j] == y;
          assert s[j + 1] == y;
        }
      }
      assert Insert(x, s, le) == [s[0]] + t;
    }
  }

  /** Sorting keeps elements with distinct values of `f` distinct. */
  lemma {:induction false} SortDistinctBy<T(!new), U>(s: seq<T>, le: (T, T) -> bool, f: T -> U)
    requires DistinctBy(s, f)
    ensures DistinctBy(Sort(s, le), f)
  {
    if s != [] {
      SortDistinctBy(s[1..], le, f);
      SortMembers(s[1..], le);
      forall y | y in Sort(s[1..], le) ensures f(y) != f(s[0]) {
        assert y in s[1..];
        var j :| 0 <= j < |s[1..]| && s[1..][j] == y;
        assert s[j + 1] == y;
      }
      InsertDistinctBy(s[0], Sort(s[1..], le), le, f);
    }
  }
}
