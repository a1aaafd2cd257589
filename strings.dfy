/**
 The order in which the graph lists its identifiers. Go compares strings
 byte by byte; on well-formed UTF-8 that is the order of code points, which
 is what `Less` compares character by character. `SortStrings` stands for
 the `sort.Slice` calls that order `Nodes()` and the cycle report.
 */
module Strings {
  import opened Collections

  /** `a` and `b` agree on their first `k` characters, and there `a` ends while `b` goes on, or `a` holds the smaller character. */
  ghost predicate FirstDifferenceAt(a: string, b: string, k: nat) {
    && k <= |a| && k <= |b| && a[..k] == b[..k]
    && ((k == |a| && k < |b|) || (k < |a| && k < |b| && a[k] < b[k]))
  }

  /** Lexicographic order as Go's `<` on strings defines it: a proper prefix, or a smaller first difference. */
  ghost predicate Lexicographic(a: string, b: string) {
    exists k: nat :: FirstDifferenceAt(a, b, k)
  }

  /** Strict lexicographic order, compared character by character from the front; never between equal strings. */
  predicate Less(a: string, b: string): (r: bool)
    ensures r ==> a != b
    decreases |a|
  {
    if |a| == 0 then |b| > 0
    else if |b| == 0 then false
    else if a[0] != b[0] then a[0] < b[0]
    else Less(a[1..], b[1..])
  }

  /** `Less` is the order of Go's `<` on strings: a proper prefix, or a smaller first difference. */
  lemma {:induction false} LessIsLexicographic(a: string, b: string)
    ensures Less(a, b) <==> Lexicographic(a, b)
    decreases |a|
  {
    if |a| == 0 || |b| == 0 || a[0] != b[0] {
      LexicographicHead(a, b);
    } else {
      LexicographicTail(a, b);
      LessIsLexicographic(a[1..], b[1..]);
    }
  }

  /** When one string is empty or the first characters differ, the first position decides. */
  lemma LexicographicHead(a: string, b: string)
    requires |a| == 0 || |b| == 0 || a[0] != b[0]
    ensures Lexicographic(a, b) <==> if |a| == 0 then |b| > 0 else if |b| == 0 then false else a[0] < b[0]
  {
    if Lexicographic(a, b) {
      var k: nat :| FirstDifferenceAt(a, b, k);
      EqualPrefixesEqualHeads(a, b, k);
    }
    if (|a| == 0 && |b| > 0) || (|a| > 0 && |b| > 0 && a[0] < b[0]) {
      assert FirstDifferenceAt(a, b, 0);
    }
  }

  lemma EqualPrefixesEqualHeads(a: string, b: string, k: nat)
    ensures 0 < k <= |a| && k <= |b| && a[..k] == b[..k] ==> a[0] == b[0]
  {
    if 0 < k <= |a| && k <= |b| && a[..k] == b[..k] {
      assert a[0] == a[..k][0];
    }
  }

  /** When the first characters agree, the order is decided by the rest. */
  lemma LexicographicTail(a: string, b: string)
    requires |a| > 0 && |b| > 0 && a[0] == b[0]
    ensures Lexicographic(a, b) <==> Lexicographic(a[1..], b[1..])
  {
    if Lexicographic(a, b) {
      var k: nat :| FirstDifferenceAt(a, b, k);
      assert k > 0;
      assert a[1..][..k - 1] == a[..k][1..] && b[1..][..k - 1] == b[..k][1..];
      assert FirstDifferenceAt(a[1..], b[1..], k - 1);
    }
    if Lexicographic(a[1..], b[1..]) {
      var k: nat :| FirstDifferenceAt(a[1..], b[1..], k);
      assert a[..k + 1] == [a[0]] + a[1..][..k] && b[..k + 1] == [b[0]] + b[1..][..k];
      assert FirstDifferenceAt(a, b, k + 1);
    }
  }

  lemma {:induction false} LessTransitive(a: string, b: string, c: string)
    requires Less(a, b) && Less(b, c)
    ensures Less(a, c)
  {
    if |a| > 0 && |b| > 0 && |c| > 0 && a[0] == b[0] && b[0] == c[0] {
      LessTransitive(a[1..], b[1..], c[1..]);
    }
  }

  /** Any two different strings are ordered one way or the other. */
  lemma {:induction false} LessTotal(a: string, b: string)
    requires a != b
    ensures Less(a, b) || Less(b, a)
  {
    if |a| > 0 && |b| > 0 && a[0] == b[0] {
      assert a == [a[0]] + a[1..] && b == [b[0]] + b[1..];
      LessTotal(a[1..], b[1..]);
    }
  }

  lemma LessAsymmetric(a: string, b: string)
    requires Less(a, b)
    ensures !Less(b, a)
  {
    if Less(b, a) {
      LessTransitive(a, b, a);
    }
  }

  /** "At most" is transitive: from b >= a and c >= b follows c >= a. */
  lemma NotLessTransitive(a: string, b: string, c: string)
    requires !Less(b, a) && !Less(c, b)
    ensures !Less(c, a)
  {
    if a != b {
      LessTotal(a, b);
      if Less(c, a) {
        LessTransitive(c, a, b);
      }
    }
  }

  /** Ascending, repetitions allowed. */
  ghost predicate Sorted(s: seq<string>) {
    forall i, j :: 0 <= i < j < |s| ==> !Less(s[j], s[i])
  }

  /** Strictly ascending, hence without repetitions. */
  ghost predicate StrictlySorted(s: seq<string>) {
    forall i, j :: 0 <= i < j < |s| ==> Less(s[i], s[j])
  }

  lemma StrictlySortedDistinct(s: seq<string>)
    requires StrictlySorted(s)
    ensures Distinct(s)
  {
  }

  lemma SortedDistinctIsStrict(s: seq<string>)
    requires Sorted(s) && Distinct(s)
    ensures StrictlySorted(s)
  {
    forall i, j | 0 <= i < j < |s|
      ensures Less(s[i], s[j])
    {
      LessTotal(s[i], s[j]);
    }
  }

  /** A set of strings has only one strictly ascending listing. */
  lemma {:induction false} StrictlySortedUnique(a: seq<string>, b: seq<string>)
    requires StrictlySorted(a) && StrictlySorted(b)
    requires forall x :: x in a <==> x in b
    ensures a == b
  {
    HeadIsElement(a);
    HeadIsElement(b);
    if a != [] {
      assert a[0] == b[0] by {
        if a[0] != b[0] {
          LessOrEqualHead(a, b[0]);
          LessOrEqualHead(b, a[0]);
          LessTotal(a[0], b[0]);
          LessAsymmetric(a[0], b[0]);
        }
      }
      forall x
        ensures x in a[1..] <==> x in b[1..]
      {
        if x in a[1..] {
          var k :| 0 < k < |a| && a[k] == x;
          assert x in b && x != b[0];
        }
        if x in b[1..] {
          var k :| 0 < k < |b| && b[k] == x;
          assert x in a && x != a[0];
        }
      }
      StrictlySortedUnique(a[1..], b[1..]);
    }
  }

  lemma HeadIsElement(s: seq<string>)
    ensures s != [] ==> s[0] in s
  {
  }

  /** The head of a strictly ascending sequence is at most any of its elements. */
  lemma LessOrEqualHead(s: seq<string>, x: string)
    requires StrictlySorted(s) && x in s
    ensures x == s[0] || Less(s[0], x)
  {
  }

  /** `s` with `x` placed before the first element that is not smaller than it. */
  function Insert(s: seq<string>, x: string): (r: seq<string>)
    ensures multiset(r) == multiset(s) + multiset{x}
    ensures Sorted(s) ==> Sorted(r)
  {
    if s == [] then [x]
    else if Less(s[0], x) then
      var rest := Insert(s[1..], x);
      assert s == [s[0]] + s[1..];
      InsertSortedCons(s, x, rest);
      [s[0]] + rest
    else
      InsertSortedFront(s, x);
      [x] + s
  }

  lemma InsertSortedCons(s: seq<string>, x: string, rest: seq<string>)
    requires s != [] && Less(s[0], x)
    requires multiset(rest) == multiset(s[1..]) + multiset{x}
    requires Sorted(s[1..]) ==> Sorted(rest)
    ensures Sorted(s) ==> Sorted([s[0]] + rest)
  {
    if Sorted(s) {
      var r := [s[0]] + rest;
      forall i, j | 0 <= i < j < |r|
        ensures !Less(r[j], r[i])
      {
        if i == 0 {
          assert r[j] in multiset(rest);
          if r[j] == x {
            LessAsymmetric(s[0], x);
          } else {
            assert r[j] in s[1..];
          }
        }
      }
    }
  }

  lemma InsertSortedFront(s: seq<string>, x: string)
    requires s != [] && !Less(s[0], x)
    ensures Sorted(s) ==> Sorted([x] + s)
  {
    if Sorted(s) {
      var r := [x] + s;
      forall i, j | 0 <= i < j < |r|
        ensures !Less(r[j], r[i])
      {
        if i == 0 && j > 1 {
          NotLessTransitive(x, s[0], s[j - 1]);
        }
      }
    }
  }

  /** Insertion sort: an ascending rearrangement of `xs`. */
  function SortStrings(xs: seq<string>): (r: seq<string>)
    ensures Sorted(r)
    ensures multiset(r) == multiset(xs)
  {
    if xs == [] then []
    else
      assert xs == [xs[0]] + xs[1..];
      Insert(SortStrings(xs[1..]), xs[0])
  }

  /** Sorting a repetition-free sequence lists the same elements in strictly ascending order. */
  lemma SortStringsDistinct(xs: seq<string>)
    requires Distinct(xs)
    ensures StrictlySorted(SortStrings(xs))
    ensures forall x :: x in SortStrings(xs) <==> x in xs
  {
    var r := SortStrings(xs);
    DistinctPermutation(xs, r);
    SortedDistinctIsStrict(r);
    forall x
      ensures x in r <==> x in xs
    {
      assert x in r <==> x in multiset(r);
      assert x in xs <==> x in multiset(xs);
    }
  }
}
