/** Facts about sequences, sets and multisets that several modules rely on. */
module Sequences {

  predicate Within(i: int, lo: int, hi: int) {
    lo <= i < hi
  }

  /** The half-open interval `lo .. hi` as a set. */
  function Range(lo: int, hi: int): (s: set<int>)
    ensures forall i :: i in s <==> lo <= i < hi
  {
    set i | lo <= i < hi && Within(i, lo, hi)
  }

  lemma {:induction false} RangeSize(lo: int, hi: int)
    requires lo <= hi
    ensures |Range(lo, hi)| == hi - lo
    decreases hi - lo
  {
    if lo < hi {
      RangeSize(lo, hi - 1);
      assert Range(lo, hi) == Range(lo, hi - 1) + {hi - 1};
    } else {
      assert Range(lo, hi) == {};
    }
  }

  ghost predicate Distinct<T>(s: seq<T>) {
    forall i, j :: 0 <= i < j < |s| ==> s[i] != s[j]
  }

  /** The elements of a sequence without repetitions form a set of the same size. */
  lemma {:induction false} DistinctSize<T>(s: seq<T>)
    requires Distinct(s)
    ensures |(set x | x in s)| == |s|
  {
    if s == [] {
      assert (set x | x in s) == {};
    } else {
      var init, last := s[..|s| - 1], s[|s| - 1];
      DistinctSize(init);
      assert s == init + [last];
      assert (set x | x in s) == (set x | x in init) + {last};
    }
  }

  lemma {:induction false} SizeOfElements<T>(s: seq<T>)
    ensures |(set x | x in s)| <= |s|
  {
    if s == [] {
      assert (set x | x in s) == {};
    } else {
      var init, last := s[..|s| - 1], s[|s| - 1];
      SizeOfElements(init);
      assert s == init + [last];
      assert (set x | x in s) == (set x | x in init) + {last};
    }
  }

  lemma SubsetSize<T>(a: set<T>, b: set<T>)
    requires a <= b
    ensures |a| <= |b|
    ensures |a| == |b| ==> a == b
    decreases a
  {
    if a != {} {
      var x :| x in a;
      SubsetSize(a - {x}, b - {x});
      if |a| == |b| {
        assert a == (a - {x}) + {x};
        assert b == (b - {x}) + {x};
      }
    } else if b != {} {
      var x :| x in b;
      assert |b| == |b - {x}| + 1;
    }
  }

  lemma SameCounts<T>(a: seq<T>, b: seq<T>)
    requires forall x :: x in a || x in b ==> multiset(a)[x] == multiset(b)[x]
    ensures multiset(a) == multiset(b)
    ensures |a| == |b|
  {
    assert multiset(a) == multiset(b);
    assert |multiset(a)| == |a|;
    assert |multiset(b)| == |b|;
  }

  function Map<T, U>(f: T -> U, s: seq<T>): (r: seq<U>)
    ensures |r| == |s|
    ensures forall i :: 0 <= i < |s| ==> r[i] == f(s[i])
  {
    seq(|s|, i requires 0 <= i < |s| => f(s[i]))
  }

  lemma MapAppend<T, U>(f: T -> U, a: seq<T>, b: seq<T>)
    ensures Map(f, a + b) == Map(f, a) + Map(f, b)
  {
  }

  /** The last element of `a` occurs in any reordering `b`; taking it out leaves reorderings. */
  lemma LastInReordering<T>(a: seq<T>, b: seq<T>) returns (k: nat)
    requires multiset(a) == multiset(b) && a != []
    ensures k < |b| && b[k] == a[|a| - 1]
    ensures multiset(b[..k] + b[k + 1..]) == multiset(a[..|a| - 1])
  {
    var n := |a| - 1;
    assert a[n] in multiset(b);
    k :| 0 <= k < |b| && b[k] == a[n];
    assert b == b[..k] + [b[k]] + b[k + 1..];
    assert a == a[..n] + [a[n]];
    assert multiset(b) == multiset(b[..k] + b[k + 1..]) + multiset{b[k]};
    assert multiset(a) == multiset(a[..n]) + multiset{a[n]};
    assert multiset(a[..n]) == multiset(a) - multiset{a[n]};
    assert multiset(b[..k] + b[k + 1..]) == multiset(b) - multiset{b[k]};
  }

  lemma SameSize<T>(a: seq<T>, b: seq<T>)
    requires multiset(a) == multiset(b)
    ensures |a| == |b|
  {
    assert |multiset(a)| == |a|;
    assert |multiset(b)| == |b|;
  }

  /** Mapping commutes with reordering. */
  lemma {:induction false} MapUnderReordering<T, U>(f: T -> U, a: seq<T>, b: seq<T>)
    requires multiset(a) == multiset(b)
    ensures multiset(Map(f, a)) == multiset(Map(f, b))
    decreases |a|
  {
    SameSize(a, b);
    if a == [] {
      assert Map(f, a) == Map(f, b);
    } else {
      var n := |a| - 1;
      var k := LastInReordering(a, b);
      MapUnderReordering(f, a[..n], b[..k] + b[k + 1..]);
      MapAppend(f, b[..k], b[k + 1..]);
      assert Map(f, a) == Map(f, a[..n]) + [f(a[n])];
      assert Map(f, b) == Map(f, b[..k]) + [f(b[k])] + Map(f, b[k + 1..]);
    }
  }

  lemma CountTwice<T>(s: seq<T>, i: nat, j: nat)
    requires i < j < |s| && s[i] == s[j]
    ensures multiset(s)[s[i]] >= 2
  {
    assert s == s[..j] + [s[j]] + s[j + 1..];
    assert s[i] in s[..j];
  }

  lemma {:induction false} CountOnce<T>(s: seq<T>, x: T)
    requires Distinct(s)
    ensures multiset(s)[x] <= 1
  {
    if s != [] {
      var init, last := s[..|s| - 1], s[|s| - 1];
      assert s == init + [last];
      CountOnce(init, x);
    }
  }

  lemma DistinctUnderReordering<T>(a: seq<T>, b: seq<T>)
    requires multiset(a) == multiset(b) && Distinct(a)
    ensures Distinct(b)
  {
    if i, j :| 0 <= i < j < |b| && b[i] == b[j] {
      CountTwice(b, i, j);
      CountOnce(a, b[i]);
    }
  }

  lemma DropLast<T>(s: seq<T>)
    requires s != []
    ensures multiset(s[..|s| - 1]) == multiset(s) - multiset{s[|s| - 1]}
    ensures s == s[..|s| - 1] + [s[|s| - 1]]
  {
    assert s == s[..|s| - 1] + [s[|s| - 1]];
  }

  lemma PairPrefix<T>(a: T, b: T, rest: seq<T>)
    ensures [a, b] + rest == [a] + ([b] + rest)
  {
  }

  lemma Regroup<T>(a: seq<T>, b: seq<T>, c: seq<T>)
    ensures (a + b) + c == a + (b + c)
  {
  }

  lemma PrefixAndRest<T>(prefix: seq<T>, s: seq<T>)
    requires prefix <= s
    ensures s == prefix + s[|prefix|..]
  {
  }

  lemma FirstAndRest<T>(s: seq<T>)
    requires s != []
    ensures s == [s[0]] + s[1..]
  {
  }

  lemma NothingBefore<T>(s: seq<T>)
    ensures [] + s == s
  {
  }

  lemma Peel<T>(a: seq<T>, s: seq<T>)
    requires s != []
    ensures a + s == (a + [s[0]]) + s[1..]
  {
  }

  lemma TakeOut<T>(s: seq<T>, k: nat)
    requires k < |s|
    ensures multiset(s) == multiset(s[..k] + s[k + 1..]) + multiset{s[k]}
  {
    assert s == s[..k] + [s[k]] + s[k + 1..];
  }

  lemma MapTwice<T, U, V>(f: T -> U, g: U -> V, h: T -> V, s: seq<T>)
    requires forall x :: x in s ==> g(f(x)) == h(x)
    ensures Map(g, Map(f, s)) == Map(h, s)
  {
  }
}
