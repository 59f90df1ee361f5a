/** The language's stable sort, as a function, for the modules whose source calls it. */
module Sorting {
  ghost predicate TotalPreorder<T(!new)>(leq: (T, T) -> bool) {
    && (forall x, y :: leq(x, y) || leq(y, x))
    && (forall x, y, z :: leq(x, y) && leq(y, z) ==> leq(x, z))
  }

  ghost predicate SortedBy<T>(leq: (T, T) -> bool, s: seq<T>) {
    forall i, j :: 0 <= i < j < |s| ==> leq(s[i], s[j])
  }

  function InsertBy<T>(leq: (T, T) -> bool, x: T, s: seq<T>): seq<T> {
    if s == [] then [x]
    else if leq(x, s[0]) then [x] + s
    else [s[0]] + InsertBy(leq, x, s[1..])
  }

  function SortBy<T>(leq: (T, T) -> bool, s: seq<T>): seq<T> {
    if s == [] then [] else InsertBy(leq, s[0], SortBy(leq, s[1..]))
  }

  lemma {:induction false} InsertKeepsElements<T>(leq: (T, T) -> bool, x: T, s: seq<T>)
    ensures multiset(InsertBy(leq, x, s)) == multiset{x} + multiset(s)
  {
    if s != [] {
      assert s == [s[0]] + s[1..];
      if !leq(x, s[0]) {
        InsertKeepsElements(leq, x, s[1..]);
      }
    }
  }

  lemma {:induction false} InsertKeepsOrder<T(!new)>(leq: (T, T) -> bool, x: T, s: seq<T>)
    requires TotalPreorder(leq) && SortedBy(leq, s)
    ensures SortedBy(leq, InsertBy(leq, x, s))
  {
    if s != [] && !leq(x, s[0]) {
      var rest := InsertBy(leq, x, s[1..]);
      InsertKeepsOrder(leq, x, s[1..]);
      InsertKeepsElements(leq, x, s[1..]);
      forall y | y in rest
        ensures leq(s[0], y)
      {
        assert y in multiset(rest);
        if y != x {
          var i :| 0 <= i < |s[1..]| && s[1..][i] == y;
          assert s[i + 1] == y;
        }
      }
    } else if s != [] {
      assert forall i :: 0 <= i < |s| ==> i == 0 || leq(s[0], s[i]);
    }
  }

  lemma {:induction false} SortIsSortedPermutation<T(!new)>(leq: (T, T) -> bool, s: seq<T>)
    requires TotalPreorder(leq)
    ensures SortedBy(leq, SortBy(leq, s)) && multiset(SortBy(leq, s)) == multiset(s)
  {
    if s != [] {
      SortIsSortedPermutation(leq, s[1..]);
      InsertKeepsOrder(leq, s[0], SortBy(leq, s[1..]));
      InsertKeepsElements(leq, s[0], SortBy(leq, s[1..]));
      assert s == [s[0]] + s[1..];
    }
  }

  /** No two positions share a key. */
  ghost predicate DistinctBy<T, K>(key: T -> K, s: seq<T>) {
    forall i, j :: 0 <= i < j < |s| ==> key(s[i]) != key(s[j])
  }

  lemma {:induction false} InsertKeepsDistinct<T, K>(leq: (T, T) -> bool, key: T -> K, x: T, s: seq<T>)
    requires DistinctBy(key, s) && forall i :: 0 <= i < |s| ==> key(s[i]) != key(x)
    ensures DistinctBy(key, InsertBy(leq, x, s))
  {
    if s != [] && !leq(x, s[0]) {
      var rest := InsertBy(leq, x, s[1..]);
      InsertKeepsDistinct(leq, key, x, s[1..]);
      InsertKeepsElements(leq, x, s[1..]);
      forall k | 0 <= k < |rest|
        ensures key(rest[k]) != key(s[0])
      {
        assert rest[k] in multiset(rest);
        if rest[k] != x {
          var i :| 0 <= i < |s[1..]| && s[1..][i] == rest[k];
          assert s[i + 1] == rest[k];
        }
      }
    }
  }

  lemma {:induction false} SortKeepsDistinct<T, K>(leq: (T, T) -> bool, key: T -> K, s: seq<T>)
    requires DistinctBy(key, s)
    ensures DistinctBy(key, SortBy(leq, s))
  {
    if s != [] {
      var rest := SortBy(leq, s[1..]);
      SortKeepsDistinct(leq, key, s[1..]);
      SortKeepsElements(leq, s[1..]);
      forall i | 0 <= i < |rest|
        ensures key(rest[i]) != key(s[0])
      {
        assert rest[i] in multiset(rest);
        var k :| 0 <= k < |s[1..]| && s[1..][k] == rest[i];
        assert s[k + 1] == rest[i];
      }
      InsertKeepsDistinct(leq, key, s[0], rest);
    }
  }

  lemma SameElements<T>(a: seq<T>, b: seq<T>)
    requires multiset(a) == multiset(b)
    ensures |a| == |b| && forall x :: x in a <==> x in b
  {
    assert |multiset(a)| == |a| && |multiset(b)| == |b|;
    forall x
      ensures x in a <==> x in b
    {
      assert x in a <==> x in multiset(a);
      assert x in b <==> x in multiset(b);
    }
  }

  /** A sorted list is its own sorting. */
  lemma {:induction false} SortOfSorted<T>(leq: (T, T) -> bool, s: seq<T>)
    requires SortedBy(leq, s)
    ensures SortBy(leq, s) == s
  {
    if s != [] {
      SortOfSorted(leq, s[1..]);
      assert s == [s[0]] + s[1..];
    }
  }

  /** Sorting looks at nothing but the comparisons of the list's own elements. */
  lemma {:induction false} SortByAgreement<T>(leq: (T, T) -> bool, other: (T, T) -> bool, s: seq<T>)
    requires forall x, y :: x in s && y in s ==> leq(x, y) == other(x, y)
    ensures SortBy(leq, s) == SortBy(other, s) && multiset(SortBy(leq, s)) == multiset(s)
  {
    if s != [] {
      var rest := SortBy(leq, s[1..]);
      SortByAgreement(leq, other, s[1..]);
      SameElements(rest, s[1..]);
      assert s == [s[0]] + s[1..];
      forall y | y in rest
        ensures leq(s[0], y) == other(s[0], y)
      {
        assert y in multiset(rest);
        var i :| 0 <= i < |s[1..]| && s[1..][i] == y;
        assert s[i + 1] == y;
      }
      InsertByAgreement(leq, other, s[0], rest);
      InsertKeepsElements(leq, s[0], rest);
    }
  }

  lemma {:induction false} InsertByAgreement<T>(leq: (T, T) -> bool, other: (T, T) -> bool, x: T, s: seq<T>)
    requires forall y :: y in s ==> leq(x, y) == other(x, y)
    ensures InsertBy(leq, x, s) == InsertBy(other, x, s)
  {
    if s != [] && !leq(x, s[0]) {
      InsertByAgreement(leq, other, x, s[1..]);
    }
  }

  lemma {:induction false} SortKeepsElements<T>(leq: (T, T) -> bool, s: seq<T>)
    ensures multiset(SortBy(leq, s)) == multiset(s)
  {
    SortByAgreement(leq, leq, s);
  }
}
