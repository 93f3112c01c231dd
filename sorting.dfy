/** Python's `sorted(xs, key=...)` and `list.sort(key=..., reverse=...)`,
    which the registry uses three times, as a stable insertion sort by a
    "may come before" relation `le`. For a descending sort by key, `le(a, b)`
    holds when key(a) is at least key(b). */
module Sorting {

  ghost predicate Total<T(!new)>(le: (T, T) -> bool) {
    forall a, b :: le(a, b) || le(b, a)
  }

  ghost predicate Transitive<T(!new)>(le: (T, T) -> bool) {
    forall a, b, c :: le(a, b) && le(b, c) ==> le(a, c)
  }

  /** What a key-based sort needs of its ordering: any two elements are
      comparable, and comparisons chain. */
  ghost predicate TotalPreorder<T(!new)>(le: (T, T) -> bool) {
    Total(le) && Transitive(le)
  }

  ghost predicate SortedBy<T>(le: (T, T) -> bool, s: seq<T>) {
    forall i, j :: 0 <= i < j < |s| ==> le(s[i], s[j])
  }

  predicate Distinct<T(==)>(s: seq<T>) {
    forall i, j :: 0 <= i < j < |s| ==> s[i] != s[j]
  }

  /** Inserts x after every element that may come before it, so that equal
      elements keep their arrival order. */
  function Insert<T(!new)>(le: (T, T) -> bool, x: T, s: seq<T>): (r: seq<T>)
    ensures |r| == |s| + 1
    ensures multiset(r) == multiset(s) + multiset{x}
  {
    if s == [] then [x]
    else if le(s[0], x) then
      assert s == [s[0]] + s[1..];
      [s[0]] + Insert(le, x, s[1..])
    else [x] + s
  }

  /** Inserting into a sorted sequence keeps it sorted. */
  lemma {:induction false} InsertSorted<T(!new)>(le: (T, T) -> bool, x: T, s: seq<T>)
    requires TotalPreorder(le) && SortedBy(le, s)
    ensures SortedBy(le, Insert(le, x, s))
  {
    if s != [] {
      if le(s[0], x) {
        InsertSorted(le, x, s[1..]);
        InsertLowerBound(le, s[0], x, s[1..]);
      } else {
        assert le(x, s[0]);
        forall k | 0 <= k < |s| ensures le(x, s[k]) {
          if k > 0 { assert le(s[0], s[k]); }
        }
      }
    }
  }

  /** A lower bound of x and of every element of s bounds what inserting
      x into s gives. */
  lemma InsertLowerBound<T(!new)>(le: (T, T) -> bool, y: T, x: T, s: seq<T>)
    requires le(y, x) && forall k :: 0 <= k < |s| ==> le(y, s[k])
    ensures forall k :: 0 <= k < |s| + 1 ==> le(y, Insert(le, x, s)[k])
  {
    var r := Insert(le, x, s);
    forall k | 0 <= k < |r| ensures le(y, r[k]) {
      assert r[k] in multiset(r);
      if r[k] != x {
        assert r[k] in multiset(s);
        var m :| 0 <= m < |s| && s[m] == r[k];
      }
    }
  }

  /** A stable sort: each element in turn is inserted into the sorted
      prefix. The result is a permutation of s. */
  function SortBy<T(!new)>(le: (T, T) -> bool, s: seq<T>): (r: seq<T>)
    ensures |r| == |s|
    ensures multiset(r) == multiset(s)
    decreases |s|
  {
    if s == [] then []
    else
      assert s == s[..|s| - 1] + [s[|s| - 1]];
      Insert(le, s[|s| - 1], SortBy(le, s[..|s| - 1]))
  }

  /** The sort's result is sorted whenever le is a total preorder. */
  lemma {:induction false} SortBySorted<T(!new)>(le: (T, T) -> bool, s: seq<T>)
    requires TotalPreorder(le)
    ensures SortedBy(le, SortBy(le, s))
    decreases |s|
  {
    if s != [] {
      SortBySorted(le, s[..|s| - 1]);
      InsertSorted(le, s[|s| - 1], SortBy(le, s[..|s| - 1]));
    }
  }

  /** The first element of the sorted sequence is one of s that may come
      before every element of s: `sorted(...)[0]` is a least element. */
  lemma SortByFirstIsLeast<T(!new)>(le: (T, T) -> bool, s: seq<T>)
    requires TotalPreorder(le) && s != []
    ensures SortBy(le, s)[0] in s
    ensures forall u :: u in s ==> le(SortBy(le, s)[0], u)
  {
    var r := SortBy(le, s);
    SortBySorted(le, s);
    SortByMembers(le, s, r[0]);
    forall u | u in s ensures le(r[0], u) {
      SortByMembers(le, s, u);
      var m :| 0 <= m < |r| && r[m] == u;
      if m == 0 {
        // totality of le at (u, u) gives reflexivity
        assert le(u, u) || le(u, u);
      }
    }
  }

  /** Two elements where the first may not precede the second swap places. */
  lemma SortTwo<T(!new)>(le: (T, T) -> bool, a: T, b: T)
    requires !le(a, b)
    ensures SortBy(le, [a, b]) == [b, a]
  {
    var s1 := [a];
    assert s1[..0] == [];
    assert SortBy(le, s1) == [a];
    assert [a, b][..1] == s1;
  }

  /** Two elements where the first may precede the second keep their order. */
  lemma SortTwoKept<T(!new)>(le: (T, T) -> bool, a: T, b: T)
    requires le(a, b)
    ensures SortBy(le, [a, b]) == [a, b]
  {
    var s1 := [a];
    assert s1[..0] == [];
    assert SortBy(le, s1) == [a];
    assert [a, b][..1] == s1;
  }

  /** Inserting x into [p, q], where p may precede x and q may not, puts x
      between them. */
  lemma InsertBetween<T(!new)>(le: (T, T) -> bool, x: T, p: T, q: T)
    requires le(p, x) && !le(q, x)
    ensures Insert(le, x, [p, q]) == [p, x, q]
  {
    assert [p, q][1..] == [q];
    assert Insert(le, x, [q]) == [x, q];
  }

  /** Three elements a, b, c where b may precede c but neither may precede
      a sort to b, c, a. */
  lemma SortThree<T(!new)>(le: (T, T) -> bool, a: T, b: T, c: T)
    requires !le(a, b) && le(b, c) && !le(a, c)
    ensures SortBy(le, [a, b, c]) == [b, c, a]
  {
    SortTwo(le, a, b);
    InsertBetween(le, c, b, a);
    assert [a, b, c][..2] == [a, b];
  }

  /** Sorting neither loses nor adds elements: membership is preserved. */
  lemma SortByMembers<T(!new)>(le: (T, T) -> bool, s: seq<T>, x: T)
    ensures x in SortBy(le, s) <==> x in s
  {
    var r := SortBy(le, s);
    assert x in r <==> x in multiset(r);
    assert x in s <==> x in multiset(s);
  }

  /** A sequence without repeats has each element at most once in its multiset. */
  lemma {:induction false} DistinctCounts<T>(s: seq<T>, x: T)
    requires Distinct(s)
    ensures multiset(s)[x] <= 1
    decreases |s|
  {
    if s != [] {
      var t := s[1..];
      assert s == [s[0]] + t;
      assert Distinct(t);
      DistinctCounts(t, x);
      if x == s[0] {
        assert x !in t;
        assert multiset(t)[x] == 0;
      }
    }
  }

  /** Two equal elements at distinct positions make a count of at least two. */
  lemma RepeatCounts<T>(s: seq<T>, i: nat, j: nat)
    requires i < j < |s| && s[i] == s[j]
    ensures multiset(s)[s[i]] >= 2
  {
    assert s == s[..i] + [s[i]] + s[i + 1..j] + [s[j]] + s[j + 1..];
  }

  /** Permuting a sequence without repeats gives a sequence without repeats. */
  lemma PermutationKeepsDistinct<T>(a: seq<T>, b: seq<T>)
    requires multiset(a) == multiset(b) && Distinct(a)
    ensures Distinct(b)
  {
    forall i, j | 0 <= i < j < |b| ensures b[i] != b[j] {
      if b[i] == b[j] {
        RepeatCounts(b, i, j);
        DistinctCounts(a, b[i]);
      }
    }
  }
}
