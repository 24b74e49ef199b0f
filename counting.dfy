/** Counting the elements of a sequence that satisfy a predicate. */
module Counting {

  function Count<T>(s: seq<T>, p: T -> bool): (c: nat)
    ensures c <= |s|
  {
    if s == [] then 0 else Count(s[..|s| - 1], p) + (if p(s[|s| - 1]) then 1 else 0)
  }

  lemma {:induction false} CountConcat<T>(s: seq<T>, t: seq<T>, p: T -> bool)
    ensures Count(s + t, p) == Count(s, p) + Count(t, p)
    decreases |t|
  {
    if t == [] {
      assert s + t == s;
    } else {
      var n := |t|;
      var st := s + t;
      assert st[..|st| - 1] == s + t[..n - 1];
      assert st[|st| - 1] == t[n - 1];
      CountConcat(s, t[..n - 1], p);
    }
  }

  lemma {:induction false} CountNone<T>(s: seq<T>, p: T -> bool)
    requires forall k :: 0 <= k < |s| ==> !p(s[k])
    ensures Count(s, p) == 0
  {
    if s != [] {
      CountNone(s[..|s| - 1], p);
    }
  }

  lemma {:induction false} CountAll<T>(s: seq<T>, p: T -> bool)
    requires forall k :: 0 <= k < |s| ==> p(s[k])
    ensures Count(s, p) == |s|
  {
    if s != [] {
      CountAll(s[..|s| - 1], p);
    }
  }

  /** At least one element satisfies `p` when the count is positive, and conversely. */
  lemma {:induction false} CountPositive<T>(s: seq<T>, p: T -> bool, k: nat)
    requires k < |s| && p(s[k])
    ensures Count(s, p) >= 1
  {
    if k < |s| - 1 {
      assert s[..|s| - 1][k] == s[k];
      CountPositive(s[..|s| - 1], p, k);
    }
  }

  lemma SplitAround<T>(t: seq<T>, q: nat)
    requires q < |t|
    ensures t == t[..q] + ([t[q]] + t[q + 1..])
  {
  }

  lemma CountSingle<T>(x: T, p: T -> bool)
    ensures Count([x], p) == if p(x) then 1 else 0
  {
    assert [x][..0] == [];
  }

  /** Removing the element at position q removes its contribution to the count. */
  lemma CountRemoveAt<T>(t: seq<T>, q: nat, p: T -> bool)
    requires q < |t|
    ensures Count(t, p) == Count(t[..q] + t[q + 1..], p) + (if p(t[q]) then 1 else 0)
  {
    SplitAround(t, q);
    CountConcat(t[..q], [t[q]] + t[q + 1..], p);
    CountConcat([t[q]], t[q + 1..], p);
    CountConcat(t[..q], t[q + 1..], p);
    CountSingle(t[q], p);
  }

  /** The count depends only on the multiset of elements. */
  lemma {:induction false} CountPermutation<T>(s: seq<T>, t: seq<T>, p: T -> bool)
    requires multiset(s) == multiset(t)
    ensures Count(s, p) == Count(t, p)
    decreases |s|
  {
    if s == [] {
      assert |t| == |multiset(t)| == 0;
    } else {
      var n := |s|;
      var x := s[n - 1];
      assert s == s[..n - 1] + [x];
      assert x in multiset(t);
      var q :| 0 <= q < |t| && t[q] == x;
      var t' := t[..q] + t[q + 1..];
      assert t == t[..q] + [x] + t[q + 1..];
      assert multiset(t') == multiset(t) - multiset{x};
      assert multiset(s[..n - 1]) == multiset(s) - multiset{x};
      CountPermutation(s[..n - 1], t', p);
      CountRemoveAt(t, q, p);
    }
  }

  /** Predicates that agree on every element give the same count. */
  lemma {:induction false} CountSame<T>(s: seq<T>, p: T -> bool, q: T -> bool)
    requires forall k :: 0 <= k < |s| ==> p(s[k]) == q(s[k])
    ensures Count(s, p) == Count(s, q)
  {
    if s != [] {
      CountSame(s[..|s| - 1], p, q);
    }
  }

  /** A weaker predicate counts at least as many elements. */
  lemma {:induction false} CountMono<T>(s: seq<T>, p: T -> bool, q: T -> bool)
    requires forall k :: 0 <= k < |s| ==> p(s[k]) ==> q(s[k])
    ensures Count(s, p) <= Count(s, q)
  {
    if s != [] {
      CountMono(s[..|s| - 1], p, q);
    }
  }

  lemma SplitThree<T>(s: seq<T>, lo: nat, hi: nat)
    requires lo <= hi <= |s|
    ensures s == s[0..lo] + s[lo..hi] + s[hi..|s|]
  {
  }

  lemma CountNoneIn<T>(s: seq<T>, p: T -> bool, lo: nat, hi: nat)
    requires lo <= hi <= |s| && forall k :: lo <= k < hi ==> !p(s[k])
    ensures Count(s[lo..hi], p) == 0
  {
    var a := s[lo..hi];
    forall k | 0 <= k < |a|
      ensures !p(a[k])
    {
      assert a[k] == s[lo + k];
    }
    CountNone(a, p);
  }

  lemma CountAllIn<T>(s: seq<T>, p: T -> bool, lo: nat, hi: nat)
    requires lo <= hi <= |s| && forall k :: lo <= k < hi ==> p(s[k])
    ensures Count(s[lo..hi], p) == hi - lo
  {
    var a := s[lo..hi];
    forall k | 0 <= k < |a|
      ensures p(a[k])
    {
      assert a[k] == s[lo + k];
    }
    CountAll(a, p);
  }

  /** When exactly the positions lo .. hi - 1 satisfy `p`, the count is hi - lo. */
  lemma CountInterval<T>(s: seq<T>, p: T -> bool, lo: nat, hi: nat)
    requires lo <= hi <= |s|
    requires forall k :: 0 <= k < |s| ==> (p(s[k]) <==> lo <= k < hi)
    ensures Count(s, p) == hi - lo
  {
    var a, b, c := s[0..lo], s[lo..hi], s[hi..|s|];
    SplitThree(s, lo, hi);
    CountConcat(a + b, c, p);
    CountConcat(a, b, p);
    CountNoneIn(s, p, 0, lo);
    CountAllIn(s, p, lo, hi);
    CountNoneIn(s, p, hi, |s|);
  }
}
