/**
 * Sorting a sequence by an integer key. The source sorts with the C library's
 * `qsort`; the model uses an insertion sort and proves the two facts callers
 * rely on: the result is ordered by the key and is a permutation of the input.
 */
module Sorting {

  ghost predicate SortedByKey<T>(s: seq<T>, key: T -> int)
  {
    forall i, j :: 0 <= i < j < |s| ==> key(s[i]) <= key(s[j])
  }

  /** Ordered by the key with no two elements sharing a key. */
  ghost predicate StrictlySortedByKey<T>(s: seq<T>, key: T -> int)
  {
    forall i, j :: 0 <= i < j < |s| ==> key(s[i]) < key(s[j])
  }

  /** `x` followed by an ordered `s` whose keys are all at least key(x) is ordered. */
  lemma SortedCons<T>(x: T, s: seq<T>, key: T -> int)
    requires SortedByKey(s, key)
    requires forall y :: y in s ==> key(x) <= key(y)
    ensures SortedByKey([x] + s, key)
  {
    forall i, j | 0 <= i < j < |[x] + s| ensures key(([x] + s)[i]) <= key(([x] + s)[j]) {
      assert ([x] + s)[j] == s[j - 1];
      if i > 0 { assert ([x] + s)[i] == s[i - 1]; }
    }
  }

  /** Inserts `x` into the ordered sequence `s` before the first element whose key is not smaller. */
  function Insert<T>(x: T, s: seq<T>, key: T -> int): (r: seq<T>)
    requires SortedByKey(s, key)
    ensures multiset(r) == multiset(s) + multiset{x}
    ensures forall y :: y in r ==> y == x || y in s
    ensures SortedByKey(r, key)
  {
    if s == [] then [x]
    else if key(x) <= key(s[0]) then
      SortedCons(x, s, key);
      [x] + s
    else
      var rest := Insert(x, s[1..], key);
      assert s == [s[0]] + s[1..];
      SortedCons(s[0], rest, key);
      [s[0]] + rest
  }

  /** Insertion sort of `s` by `key`. */
  function SortByKey<T>(s: seq<T>, key: T -> int): (r: seq<T>)
    ensures SortedByKey(r, key)
    ensures multiset(r) == multiset(s)
  {
    if s == [] then []
    else
      assert s == [s[0]] + s[1..];
      Insert(s[0], SortByKey(s[1..], key), key)
  }

  /** No two entries are equal. */
  ghost predicate Distinct<T>(s: seq<T>)
  {
    forall k, l :: 0 <= k < l < |s| ==> s[k] != s[l]
  }

  lemma {:induction false} DistinctMultiplicity<T>(s: seq<T>)
    requires Distinct(s)
    ensures forall x :: multiset(s)[x] <= 1
  {
    if s != [] {
      var n := |s|;
      var init := s[..n - 1];
      assert Distinct(init);
      DistinctMultiplicity(init);
      assert s == init + [s[n - 1]];
      assert s[n - 1] !in init;
    }
  }

  lemma DuplicateMultiplicity<T>(s: seq<T>, k: nat, l: nat)
    requires k < l < |s| && s[k] == s[l]
    ensures multiset(s)[s[k]] >= 2
  {
    assert s == s[..l] + s[l..];
    assert s[k] in s[..l];
    assert s[l] in s[l..];
  }

  /** A permutation of a sequence without duplicates has none either. */
  lemma DistinctPermutation<T>(s: seq<T>, t: seq<T>)
    requires Distinct(s) && multiset(s) == multiset(t)
    ensures Distinct(t)
  {
    DistinctMultiplicity(s);
    forall k, l | 0 <= k < l < |t| ensures t[k] != t[l] {
      if t[k] == t[l] {
        DuplicateMultiplicity(t, k, l);
      }
    }
  }
}
