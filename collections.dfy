/**
 Facts about sequences without repetitions and about finite sets that the
 graph model relies on: a repetition-free sequence has as many elements as
 its set of elements, and a sequence longer than a set it lives in repeats.
 */
module Collections {

  /** No element occurs twice in `s`. */
  ghost predicate Distinct<T>(s: seq<T>) {
    forall i, j :: 0 <= i < j < |s| ==> s[i] != s[j]
  }

  /** The set of elements of `s`. */
  ghost function Elems<T>(s: seq<T>): set<T> {
    set x | x in s
  }

  /** A subset is no larger than its superset, and strictly smaller when it is a proper one. */
  lemma SubsetCardinality<T>(a: set<T>, b: set<T>)
    requires a <= b
    ensures |a| <= |b|
    ensures a != b ==> |a| < |b|
  {
    assert b == a + (b - a);
    assert a * (b - a) == {};
    if a != b {
      var x :| x in b && x !in a;
      assert x in b - a;
    }
  }

  /** A repetition-free sequence has exactly |s| distinct elements. */
  lemma {:induction false} DistinctCardinality<T>(s: seq<T>)
    requires Distinct(s)
    ensures |Elems(s)| == |s|
  {
    if s != [] {
      var t := s[..|s| - 1];
      assert Distinct(t);
      DistinctCardinality(t);
      assert Elems(s) == Elems(t) + {s[|s| - 1]};
      assert s[|s| - 1] !in Elems(t);
    }
  }

  /** A repetition-free sequence whose elements lie in `r` and which is as long as `r` lists all of `r`. */
  lemma DistinctCovers<T>(s: seq<T>, r: set<T>)
    requires Distinct(s) && Elems(s) <= r && |s| == |r|
    ensures Elems(s) == r
  {
    DistinctCardinality(s);
    SubsetCardinality(Elems(s), r);
  }

  /** A repetition-free sequence inside `r` whose length differs from |r| misses an element of `r`. */
  lemma DistinctMisses<T>(s: seq<T>, r: set<T>)
    requires Distinct(s) && Elems(s) <= r && |s| != |r|
    ensures exists x :: x in r && x !in s
  {
    DistinctCardinality(s);
    if forall x :: x in r ==> x in s {
      assert Elems(s) == r;
    }
  }

  /** A sequence with more elements than the set it draws them from repeats one. */
  lemma Pigeonhole<T>(s: seq<T>, r: set<T>)
    requires Elems(s) <= r && |s| > |r|
    ensures !Distinct(s)
  {
    if Distinct(s) {
      DistinctCardinality(s);
      SubsetCardinality(Elems(s), r);
    }
  }

  /** Reordering a repetition-free sequence cannot create a repetition. */
  lemma {:induction false} DistinctPermutation<T>(a: seq<T>, b: seq<T>)
    requires Distinct(a) && multiset(a) == multiset(b)
    ensures Distinct(b)
  {
    forall x | x in multiset(a)
      ensures multiset(a)[x] == 1
    {
      DistinctOccursOnce(a, x);
    }
    forall i, j | 0 <= i < j < |b|
      ensures b[i] != b[j]
    {
      TwiceCountsTwice(b, i, j);
      assert b[i] in multiset(a);
    }
  }

  /** Two positions holding the same element make it occur at least twice. */
  lemma TwiceCountsTwice<T>(s: seq<T>, i: nat, j: nat)
    requires i < j < |s|
    ensures s[i] == s[j] ==> multiset(s)[s[i]] >= 2
  {
    assert s == s[..i] + [s[i]] + s[i + 1..j] + [s[j]] + s[j + 1..];
  }

  /** In a repetition-free sequence an element occurs at most once. */
  lemma {:induction false} DistinctOccursOnce<T>(s: seq<T>, x: T)
    requires Distinct(s)
    ensures multiset(s)[x] <= 1
  {
    if s != [] {
      assert s == [s[0]] + s[1..];
      assert Distinct(s[1..]);
      DistinctOccursOnce(s[1..], x);
      if s[0] == x {
        assert x !in s[1..];
      }
    }
  }

  /** Joining two repetition-free sequences with no element in common gives one. */
  lemma DistinctConcat<T>(a: seq<T>, b: seq<T>)
    requires Distinct(a) && Distinct(b) && forall x :: x in a ==> x !in b
    ensures Distinct(a + b)
  {
    var s := a + b;
    forall i, j | 0 <= i < j < |s|
      ensures s[i] != s[j]
    {
      if i < |a| && j >= |a| {
        assert s[i] in a && s[j] == b[j - |a|];
      }
    }
  }
}
