/** A stable sort by a comparison, standing for Array.prototype.sort. */
module Sorting {
  ghost predicate IsTotalPreorder<T(!new)>(leq: (T, T) -> bool) {
    && (forall x, y :: leq(x, y) || leq(y, x))
    && (forall x, y, z :: leq(x, y) && leq(y, z) ==> leq(x, z))
  }

  ghost predicate SortedBy<T>(leq: (T, T) -> bool, s: seq<T>) {
    forall i, j :: 0 <= i < j < |s| ==> leq(s[i], s[j])
  }

  /** Insert from the right, behind everything not greater. */
  function Insert<T>(leq: (T, T) -> bool, s: seq<T>, x: T): seq<T> {
    if s == [] || leq(s[|s| - 1], x) then s + [x]
    else Insert(leq, s[..|s| - 1], x) + [s[|s| - 1]]
  }

  function Sort<T>(leq: (T, T) -> bool, s: seq<T>): seq<T> {
    if s == [] then [] else Insert(leq, Sort(leq, s[..|s| - 1]), s[|s| - 1])
  }

  lemma {:induction false} InsertAddsOne<T>(leq: (T, T) -> bool, s: seq<T>, x: T)
    ensures multiset(Insert(leq, s, x)) == multiset(s) + multiset{x}
    decreases |s|
  {
    if s != [] && !leq(s[|s| - 1], x) {
      InsertAddsOne(leq, s[..|s| - 1], x);
      assert s == s[..|s| - 1] + [s[|s| - 1]];
    }
  }

  lemma {:induction false} InsertKeepsSorted<T(!new)>(leq: (T, T) -> bool, s: seq<T>, x: T)
    requires IsTotalPreorder(leq) && SortedBy(leq, s)
    ensures SortedBy(leq, Insert(leq, s, x))
    ensures forall y :: y in Insert(leq, s, x) ==> y in s || y == x
    decreases |s|
  {
    if s != [] && !leq(s[|s| - 1], x) {
      var front := s[..|s| - 1];
      var last := s[|s| - 1];
      InsertKeepsSorted(leq, front, x);
      forall y | y in Insert(leq, front, x) ensures leq(y, last) {
        if y in front {
          var i :| 0 <= i < |front| && front[i] == y;
          assert s[i] == y;
        }
      }
    } else if s != [] {
      assert forall i :: 0 <= i < |s| ==> leq(s[i], x);
    }
  }

  /** The result is a sorted permutation. */
  lemma {:induction false} SortIsASortedPermutation<T(!new)>(leq: (T, T) -> bool, s: seq<T>)
    requires IsTotalPreorder(leq)
    ensures multiset(Sort(leq, s)) == multiset(s)
    ensures SortedBy(leq, Sort(leq, s))
    decreases |s|
  {
    if s != [] {
      var front := s[..|s| - 1];
      SortIsASortedPermutation(leq, front);
      InsertAddsOne(leq, Sort(leq, front), s[|s| - 1]);
      InsertKeepsSorted(leq, Sort(leq, front), s[|s| - 1]);
      assert s == front + [s[|s| - 1]];
    }
  }
}
