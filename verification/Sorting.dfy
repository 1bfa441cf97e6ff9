/** Stable sorting by a key. */
module Sorting {

  predicate SortedBy<T>(key: T -> int, s: seq<T>) {
    forall i, j :: 0 <= i <= j < |s| ==> key(s[i]) <= key(s[j])
  }

  /** Inserts behind every element with the same or a smaller key. */
  function InsertBy<T>(key: T -> int, s: seq<T>, x: T): seq<T> {
    if s == [] || key(s[|s| - 1]) <= key(x) then s + [x]
    else InsertBy(key, s[..|s| - 1], x) + [s[|s| - 1]]
  }

  function SortBy<T>(key: T -> int, s: seq<T>): seq<T> {
    if s == [] then [] else InsertBy(key, SortBy(key, s[..|s| - 1]), s[|s| - 1])
  }

  lemma {:induction false} InsertCounts<T>(key: T -> int, s: seq<T>, x: T)
    ensures multiset(InsertBy(key, s, x)) == multiset(s) + multiset{x}
  {
    if s != [] && key(s[|s| - 1]) > key(x) {
      InsertCounts(key, s[..|s| - 1], x);
      assert s == s[..|s| - 1] + [s[|s| - 1]];
    }
  }

  lemma {:induction false} InsertedAtMost<T>(key: T -> int, s: seq<T>, x: T, bound: int)
    requires key(x) <= bound && forall i :: 0 <= i < |s| ==> key(s[i]) <= bound
    ensures forall i :: 0 <= i < |InsertBy(key, s, x)| ==> key(InsertBy(key, s, x)[i]) <= bound
  {
    if s != [] && key(s[|s| - 1]) > key(x) {
      InsertedAtMost(key, s[..|s| - 1], x, bound);
    }
  }

  lemma {:induction false} InsertSorts<T>(key: T -> int, s: seq<T>, x: T)
    requires SortedBy(key, s)
    ensures SortedBy(key, InsertBy(key, s, x))
  {
    if s != [] && key(s[|s| - 1]) > key(x) {
      InsertSorts(key, s[..|s| - 1], x);
      InsertedAtMost(key, s[..|s| - 1], x, key(s[|s| - 1]));
    }
  }

  /** Sorting yields the same elements in order. */
  lemma {:induction false} SortSorts<T>(key: T -> int, s: seq<T>)
    ensures SortedBy(key, SortBy(key, s)) && multiset(SortBy(key, s)) == multiset(s)
  {
    if s != [] {
      var init, last := s[..|s| - 1], s[|s| - 1];
      assert s == init + [last];
      SortSorts(key, init);
      InsertCounts(key, SortBy(key, init), last);
      InsertSorts(key, SortBy(key, init), last);
    }
  }
}
