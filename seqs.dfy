/** Generic facts about sequences used by the table derivations:
    duplicate-free sequences, subsequences, de-duplication and a sort by a real key. */
module Seqs {

  /** No element occurs twice. */
  ghost predicate NoDup<T>(s: seq<T>) {
    forall i, j :: 0 <= i < j < |s| ==> s[i] != s[j]
  }

  /** `sub` is obtained from `s` by deleting elements, keeping the order of the rest. */
  predicate IsSubsequence<T(==)>(sub: seq<T>, s: seq<T>)
    decreases |s|
  {
    if sub == [] then true
    else if s == [] then false
    else if sub[0] == s[0] then IsSubsequence(sub[1..], s[1..])
    else IsSubsequence(sub, s[1..])
  }

  /** A subsequence of the tail is a subsequence of the whole. */
  lemma {:induction false} SubsequenceOfTail<T>(sub: seq<T>, s: seq<T>)
    requires s != [] && IsSubsequence(sub, s[1..])
    ensures IsSubsequence(sub, s)
    decreases |s|, |sub|
  {
    if sub != [] && sub[0] == s[0] {
      SubsequenceDropFirst(sub, s[1..]);
    }
  }

  lemma {:induction false} SubsequenceDropFirst<T>(sub: seq<T>, s: seq<T>)
    requires sub != [] && IsSubsequence(sub, s)
    ensures IsSubsequence(sub[1..], s)
    decreases |s|, |sub|
  {
    if s != [] {
      if sub[0] == s[0] {
        if sub[1..] != [] { SubsequenceOfTail(sub[1..], s); }
      } else {
        SubsequenceDropFirst(sub, s[1..]);
        if sub[1..] != [] { SubsequenceOfTail(sub[1..], s); }
      }
    }
  }

  ghost function Elements<T>(s: seq<T>): set<T> {
    set x | x in s
  }

  lemma {:induction false} NoDupCardinality<T>(s: seq<T>)
    requires NoDup(s)
    ensures |Elements(s)| == |s|
  {
    if s != [] {
      NoDupCardinality(s[1..]);
      assert Elements(s) == {s[0]} + Elements(s[1..]);
      assert s[0] !in Elements(s[1..]);
    }
  }

  /** The distinct elements of `xs`, each kept at its last occurrence. */
  function Dedup<T(==,!new)>(xs: seq<T>): (d: seq<T>)
    ensures NoDup(d)
    ensures forall v :: v in d <==> v in xs
    ensures |d| <= |xs|
  {
    if xs == [] then []
    else if xs[0] in xs[1..] then Dedup(xs[1..])
    else [xs[0]] + Dedup(xs[1..])
  }

  /** The number of distinct elements of `xs`. */
  lemma DedupCardinality<T(!new)>(xs: seq<T>)
    ensures |Dedup(xs)| == |Elements(xs)|
  {
    NoDupCardinality(Dedup(xs));
    assert Elements(Dedup(xs)) == Elements(xs);
  }

  /** Keys do not decrease from left to right. */
  predicate SortedBy<T>(s: seq<T>, key: T -> real) {
    forall i, j :: 0 <= i < j < |s| ==> key(s[i]) <= key(s[j])
  }

  function Insert<T(==,!new)>(x: T, s: seq<T>, key: T -> real): (r: seq<T>)
    requires SortedBy(s, key)
    ensures SortedBy(r, key)
    ensures |r| == |s| + 1
    ensures forall y :: y in r <==> y == x || y in s
  {
    if s == [] || key(x) <= key(s[0]) then [x] + s
    else
      var rest := Insert(x, s[1..], key);
      assert s == [s[0]] + s[1..];
      assert forall y :: y in rest ==> key(s[0]) <= key(y);
      [s[0]] + rest
  }

  lemma {:induction false} InsertKeepsNoDup<T(!new)>(x: T, s: seq<T>, key: T -> real)
    requires SortedBy(s, key) && NoDup(s) && x !in s
    ensures NoDup(Insert(x, s, key))
  {
    if s != [] && key(x) > key(s[0]) {
      InsertKeepsNoDup(x, s[1..], key);
      var r := Insert(x, s, key);
      assert r == [s[0]] + Insert(x, s[1..], key);
      assert s[0] !in s[1..];
      forall i, j | 0 <= i < j < |r| ensures r[i] != r[j] {
        if i == 0 { assert r[j] in Insert(x, s[1..], key); }
      }
    }
  }

  lemma {:induction false} InsertPermutes<T(!new)>(x: T, s: seq<T>, key: T -> real)
    requires SortedBy(s, key)
    ensures multiset(Insert(x, s, key)) == multiset(s) + multiset{x}
  {
    if s != [] && key(x) > key(s[0]) {
      InsertPermutes(x, s[1..], key);
      assert s == [s[0]] + s[1..];
    }
  }

  /** Insertion sort: a permutation of `s` in non-decreasing key order. Equal keys keep
      their input order, which is one of the orders an unstable sort may produce. */
  function Sort<T(==,!new)>(s: seq<T>, key: T -> real): (r: seq<T>)
    ensures SortedBy(r, key)
    ensures multiset(r) == multiset(s)
    ensures |r| == |s|
    ensures forall y :: y in r <==> y in s
  {
    if s == [] then []
    else
      var rest := Sort(s[1..], key);
      assert s == [s[0]] + s[1..];
      InsertPermutes(s[0], rest, key);
      Insert(s[0], rest, key)
  }

  lemma {:induction false} SortKeepsNoDup<T(!new)>(s: seq<T>, key: T -> real)
    requires NoDup(s)
    ensures NoDup(Sort(s, key))
  {
    if s != [] {
      SortKeepsNoDup(s[1..], key);
      assert s[0] !in s[1..];
      InsertKeepsNoDup(s[0], Sort(s[1..], key), key);
    }
  }

  /** A duplicate-free sequence whose elements all come from a sequence with pairwise
      distinct keys has pairwise distinct keys itself. */
  lemma DistinctKeysOfSubset<T, K>(a: seq<T>, b: seq<T>, key: T -> K)
    requires NoDup(a)
    requires forall x :: x in a ==> x in b
    requires forall i, j :: 0 <= i < j < |b| ==> key(b[i]) != key(b[j])
    ensures forall i, j :: 0 <= i < j < |a| ==> key(a[i]) != key(a[j])
  {
    forall i, j | 0 <= i < j < |a|
      ensures key(a[i]) != key(a[j])
    {
      assert a[i] in b && a[j] in b;
      var k :| 0 <= k < |b| && b[k] == a[i];
      var l :| 0 <= l < |b| && b[l] == a[j];
      assert k != l;
    }
  }

  function Sum(xs: seq<real>): real {
    if xs == [] then 0.0 else xs[0] + Sum(xs[1..])
  }

  /** The arithmetic mean, as pandas' `mean` computes it over a non-empty group. */
  function Mean(xs: seq<real>): real
    requires |xs| > 0
  {
    Sum(xs) / (|xs| as real)
  }
}
