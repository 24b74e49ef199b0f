/**
 * The open-addressing table shared by the L1 and Lp hash tables (the `buckets`
 * array and the `used_buckets` list of l1lsh.c and lplsh.c). A bucket carries a
 * hash value and a list of stored ids; an index is placed by linear probing with
 * the step `(index + 1) & (table_size - 1)`; `used_buckets` records each bucket
 * that became non-empty. The entries of `used_buckets` are `Item {index, 1}` in
 * the source; the model keeps only the indices.
 */
module Buckets {
  import opened Base
  import opened Lists
  import opened Arith
  import opened Sorting

  datatype Bucket = Bucket(hashValue: nat, items: List)

  /** A bucket as `calloc` and `list_init` leave it. */
  const EmptyBucket: Bucket := Bucket(0, [])

  /** The abstract state of a table: its buckets and its list of used bucket indices. */
  datatype Table = Table(buckets: seq<Bucket>, used: seq<nat>)

  /** C's bitwise `&` on non-negative integers. */
  function And(x: nat, y: nat): (r: nat)
    ensures r <= x && r <= y
  {
    if x == 0 || y == 0 then 0
    else 2 * And(x / 2, y / 2) + (if x % 2 == 1 && y % 2 == 1 then 1 else 0)
  }

  predicate IsPowerOfTwo(n: nat)
  {
    if n <= 1 then n == 1 else n % 2 == 0 && IsPowerOfTwo(n / 2)
  }

  /** Halving a power of two above 1 halves its mask and keeps its lowest bit. */
  lemma HalfMask(n: nat)
    requires n > 1 && IsPowerOfTwo(n)
    ensures n == 2 * (n / 2) && IsPowerOfTwo(n / 2)
    ensures (n - 1) / 2 == n / 2 - 1 && (n - 1) % 2 == 1
  {
  }

  /** `And` takes the low bits of both arguments and recurses on the rest. */
  lemma AndUnfold(x: nat, y: nat)
    requires x > 0 && y > 0
    ensures And(x, y) == 2 * And(x / 2, y / 2) + (if x % 2 == 1 && y % 2 == 1 then 1 else 0)
  {
  }

  /** One bit of the mask: the low bit of x is kept and the rest is the halved problem. */
  lemma AndMaskStep(x: nat, n: nat)
    requires x > 0 && n > 1 && IsPowerOfTwo(n)
    requires And(x / 2, n / 2 - 1) == (x / 2) % (n / 2)
    ensures And(x, n - 1) == x % n
  {
    HalfMask(n);
    AndUnfold(x, n - 1);
    ModDouble(x, n / 2);
  }

  /** Masking with n - 1 is reduction modulo n when n is a power of two. */
  lemma {:induction false} AndMaskIsMod(x: nat, n: nat)
    requires IsPowerOfTwo(n)
    ensures And(x, n - 1) == x % n
    decreases n
  {
    if n > 1 && x > 0 {
      HalfMask(n);
      AndMaskIsMod(x / 2, n / 2);
      AndMaskStep(x, n);
    }
  }

  /** The next bucket in the probe sequence (l1lsh.c and lplsh.c use the same step). */
  function NextSlot(index: nat, n: nat): (r: nat)
    requires n > 0
    ensures r < n
  {
    And(index + 1, n - 1)
  }

  /** A bucket can take a key with hash value `hv` when it is empty or already tagged with `hv`. */
  predicate Accepts(b: Bucket, hv: nat)
  {
    b.items == [] || b.hashValue == hv
  }

  /** Linear probing after `checked` buckets have been examined, the last one at `index`. */
  function ProbeFrom(b: seq<Bucket>, index: nat, hv: nat, checked: nat): (r: Option<nat>)
    requires 0 < |b| && 1 <= checked <= |b|
    ensures r.Some? ==> r.value < |b| && Accepts(b[r.value], hv)
    decreases |b| - checked
  {
    if checked == |b| then None
    else
      var next := NextSlot(index, |b|);
      if Accepts(b[next], hv) then Some(next) else ProbeFrom(b, next, hv, checked + 1)
  }

  /**
   * The bucket `get_index` settles on for a key that hashes to `start` with hash value `hv`:
   * the first bucket of the probe sequence that accepts the key, or None once table_size
   * buckets have been examined.
   */
  function FindSlot(b: seq<Bucket>, start: nat, hv: nat): (r: Option<nat>)
    requires start < |b|
    ensures r.Some? ==> r.value < |b| && Accepts(b[r.value], hv)
    ensures Accepts(b[start], hv) ==> r == Some(start)
  {
    if Accepts(b[start], hv) then Some(start) else ProbeFrom(b, start, hv, 1)
  }

  /** The bucket reached `k` steps after `start` in a table of `n` buckets. */
  function Slot(start: nat, k: nat, n: nat): (r: nat)
    requires n > 0
    ensures r < n
  {
    (start + k) % n
  }

  /** In a power-of-two table a probe step moves to the next bucket, wrapping at the end. */
  lemma StepIsSucc(start: nat, checked: nat, n: nat)
    requires IsPowerOfTwo(n) && checked >= 1
    ensures NextSlot(Slot(start, checked - 1, n), n) == Slot(start, checked, n)
  {
    var x := start + checked - 1;
    var s := Slot(start, checked - 1, n);
    assert s == x % n;
    AndMaskIsMod(s + 1, n);
    ModSucc(x, n);
    assert x + 1 == start + checked;
  }

  lemma {:induction false} ProbeFromCovers(b: seq<Bucket>, start: nat, index: nat, hv: nat, checked: nat)
    requires IsPowerOfTwo(|b|) && start < |b| && 1 <= checked <= |b|
    requires index == Slot(start, checked - 1, |b|)
    requires ProbeFrom(b, index, hv, checked).None?
    ensures forall k :: checked <= k < |b| ==> !Accepts(b[Slot(start, k, |b|)], hv)
    decreases |b| - checked
  {
    if checked < |b| {
      var next := NextSlot(index, |b|);
      StepIsSucc(start, checked, |b|);
      ProbeFromCovers(b, start, next, hv, checked + 1);
    }
  }

  /**
   * With a power-of-two table the probe sequence visits every bucket, so probing fails
   * only when no bucket at all can take the key.
   */
  lemma {:induction false} FindSlotNoneMeansNoneAccepts(b: seq<Bucket>, start: nat, hv: nat)
    requires IsPowerOfTwo(|b|) && start < |b|
    requires FindSlot(b, start, hv).None?
    ensures forall j :: 0 <= j < |b| ==> !Accepts(b[j], hv)
  {
    var n := |b|;
    ModUnique(start, n, 0, start);
    assert Slot(start, 0, n) == start;
    ProbeFromCovers(b, start, start, hv, 1);
    forall j | 0 <= j < n
      ensures !Accepts(b[j], hv)
    {
      if j > start {
        ModUnique(start + (j - start), n, 0, j);
        assert Slot(start, j - start, n) == j;
      } else if j < start {
        ModUnique(start + (j + n - start), n, 1, j);
        assert Slot(start, j + n - start, n) == j;
      }
    }
  }

  /**
   * The `used_buckets` invariant: it lists each non-empty bucket exactly once and nothing
   * else.
   */
  ghost predicate UsedExactly(t: Table)
  {
    (forall k :: 0 <= k < |t.used| ==> t.used[k] < |t.buckets| && t.buckets[t.used[k]].items != []) &&
    Distinct(t.used) &&
    (forall j :: 0 <= j < |t.buckets| && t.buckets[j].items != [] ==> j in t.used)
  }

  /** Every empty bucket carries hash value 0, as after `calloc`, `clear_table` or `erase`. */
  ghost predicate Clean(b: seq<Bucket>)
  {
    forall j :: 0 <= j < |b| && b[j].items == [] ==> b[j] == EmptyBucket
  }

  /** Every bucket is as `calloc` left it. */
  ghost predicate AllEmpty(b: seq<Bucket>)
  {
    forall j :: 0 <= j < |b| ==> b[j] == EmptyBucket
  }

  /**
   * `b2` is reachable from `b1` by storing: every bucket's list only grows, and a non-empty
   * bucket keeps its hash value.
   */
  ghost predicate Grows(b1: seq<Bucket>, b2: seq<Bucket>)
  {
    |b1| == |b2| &&
    forall j :: 0 <= j < |b1| ==>
      b1[j].items <= b2[j].items && (b1[j].items != [] ==> b2[j].hashValue == b1[j].hashValue)
  }

  lemma GrowsTransitive(b1: seq<Bucket>, b2: seq<Bucket>, b3: seq<Bucket>)
    requires Grows(b1, b2) && Grows(b2, b3)
    ensures Grows(b1, b3)
  {
    forall j | 0 <= j < |b1|
      ensures b1[j].items <= b3[j].items
    {
      assert b1[j].items == b2[j].items[..|b1[j].items|];
    }
  }

  /** The id lists of the used buckets, in `used_buckets` order. */
  function Rows(t: Table): (rows: seq<List>)
    requires forall k :: 0 <= k < |t.used| ==> t.used[k] < |t.buckets|
    ensures |rows| == |t.used|
    ensures forall k :: 0 <= k < |t.used| ==> rows[k] == t.buckets[t.used[k]].items
  {
    seq(|t.used|, k requires 0 <= k < |t.used| => t.buckets[t.used[k]].items)
  }

  /** A sequence of distinct naturals below `n` has at most `n` entries. */
  lemma {:induction false} DistinctBound(s: seq<nat>, n: nat)
    requires Distinct(s) && forall k :: 0 <= k < |s| ==> s[k] < n
    ensures |s| <= n
    decreases n
  {
    if s != [] {
      assert s[0] < n;
      var m := n - 1;
      if m in s {
        var p :| 0 <= p < |s| && s[p] == m;
        var s' := s[..p] + s[p + 1..];
        forall k | 0 <= k < |s'|
          ensures s'[k] < m
        {
          var k' := if k < p then k else k + 1;
          assert s'[k] == s[k'] && k' != p;
        }
        forall k, l | 0 <= k < l < |s'|
          ensures s'[k] != s'[l]
        {
          var k' := if k < p then k else k + 1;
          var l' := if l < p then l else l + 1;
          assert s'[k] == s[k'] && s'[l] == s[l'];
        }
        DistinctBound(s', m);
      } else {
        DistinctBound(s, m);
      }
    }
  }

  /** A sequence holding every natural below `n` has at least `n` entries. */
  lemma {:induction false} CoverBound(s: seq<nat>, n: nat)
    requires forall j :: 0 <= j < n ==> j in s
    ensures |s| >= n
    decreases n
  {
    if n > 0 {
      var m := n - 1;
      assert m in s;
      var p :| 0 <= p < |s| && s[p] == m;
      var s' := s[..p] + s[p + 1..];
      forall j | 0 <= j < m
        ensures j in s'
      {
        assert j in s;
        var q :| 0 <= q < |s| && s[q] == j;
        if q < p { assert s'[q] == j; } else { assert s'[q - 1] == j; }
      }
      CoverBound(s', m);
    }
  }

  /** There are never more used buckets than buckets. */
  lemma UsedBound(t: Table)
    requires UsedExactly(t)
    ensures |t.used| <= |t.buckets|
  {
    DistinctBound(t.used, |t.buckets|);
  }

  /**
   * In a power-of-two table, probing fails only when every bucket is in use (the source's
   * "The hash table is full!" exit).
   */
  lemma FullWhenProbeFails(t: Table, start: nat, hv: nat)
    requires UsedExactly(t) && IsPowerOfTwo(|t.buckets|) && start < |t.buckets|
    requires FindSlot(t.buckets, start, hv).None?
    ensures |t.used| == |t.buckets|
  {
    FindSlotNoneMeansNoneAccepts(t.buckets, start, hv);
    UsedBound(t);
    CoverBound(t.used, |t.buckets|);
  }

  /**
   * `get_index` on the bucket array: probing from `start` for hash value `hv`; the bucket
   * found is (re)tagged with `hv`, which changes it only if it was empty.
   */
  function Tagged(b: seq<Bucket>, i: nat, hv: nat): (r: seq<Bucket>)
    requires i < |b| && Accepts(b[i], hv)
    ensures |r| == |b| && r[i].hashValue == hv
    ensures forall j :: 0 <= j < |b| ==> r[j].items == b[j].items
    ensures forall j :: 0 <= j < |b| && j != i ==> r[j] == b[j]
    ensures b[i].items != [] ==> r == b
  {
    b[i := Bucket(hv, b[i].items)]
  }

  /** Tagging changes no list, so it keeps the `used_buckets` invariant. */
  lemma TaggedKeepsUsedExactly(t: Table, i: nat, hv: nat)
    requires i < |t.buckets| && Accepts(t.buckets[i], hv) && UsedExactly(t)
    ensures UsedExactly(Table(Tagged(t.buckets, i, hv), t.used))
  {
  }

  /** An id held by a bucket is still held after the table grows. */
  lemma GrowsKeepsItems(b1: seq<Bucket>, b2: seq<Bucket>, j: nat, x: Item)
    requires Grows(b1, b2) && j < |b1| && x in b1[j].items
    ensures x in b2[j].items
  {
    var p :| 0 <= p < |b1[j].items| && b1[j].items[p] == x;
    assert b2[j].items[p] == x;
  }

  /**
   * `store_list` / `store_vector` on the abstract table: the id is appended to the bucket
   * probing settles on, and the bucket's index is appended to `used_buckets` when the
   * bucket was empty. When probing fails the table is unchanged and the result is an error.
   */
  function Store(t: Table, start: nat, hv: nat, id: nat): (r: (Result<nat>, Table))
    requires start < |t.buckets|
    ensures |r.1.buckets| == |t.buckets|
    ensures r.0.Err? <==> FindSlot(t.buckets, start, hv).None?
    ensures r.0.Err? ==> r.1 == t
    ensures r.0.Ok? ==> r.0.value == FindSlot(t.buckets, start, hv).value
    ensures r.0.Ok? ==> r.1.buckets[r.0.value].hashValue == hv
    ensures r.0.Ok? ==> r.1.buckets[r.0.value].items == t.buckets[r.0.value].items + [Item(id, 1)]
    ensures r.0.Ok? ==> forall j :: 0 <= j < |t.buckets| && j != r.0.value ==> r.1.buckets[j] == t.buckets[j]
    ensures r.0.Ok? ==> r.1.used == if t.buckets[r.0.value].items == [] then t.used + [r.0.value] else t.used
  {
    match FindSlot(t.buckets, start, hv)
    case None => (Err(TableFull), t)
    case Some(i) =>
      var items := t.buckets[i].items;
      var used := if items == [] then t.used + [i] else t.used;
      (Ok(i), Table(t.buckets[i := Bucket(hv, items + [Item(id, 1)])], used))
  }

  /** Storing keeps the `used_buckets` invariant. */
  lemma StoreKeepsUsedExactly(t: Table, start: nat, hv: nat, id: nat)
    requires start < |t.buckets| && UsedExactly(t)
    ensures UsedExactly(Store(t, start, hv, id).1)
  {
    var r := Store(t, start, hv, id);
    if r.0.Ok? {
      var i := r.0.value;
      var t' := r.1;
      if t.buckets[i].items == [] {
        assert i !in t.used;
        assert t'.used == t.used + [i];
      }
    }
  }

  /** Storing only appends to lists, keeps the tags of non-empty buckets, and keeps empty buckets clean. */
  lemma StoreGrows(t: Table, start: nat, hv: nat, id: nat)
    requires start < |t.buckets|
    ensures Grows(t.buckets, Store(t, start, hv, id).1.buckets)
    ensures Clean(t.buckets) ==> Clean(Store(t, start, hv, id).1.buckets)
  {
  }

  /** Putting item x into an empty bucket i, which is appended to the used list, adds x's id. */
  lemma RowsAddNewBucket(t: Table, t': Table, i: nat, x: Item)
    requires UsedExactly(t) && i < |t.buckets| == |t'.buckets| && t.buckets[i].items == []
    requires t'.used == t.used + [i] && t'.buckets[i].items == [x]
    requires forall j :: 0 <= j < |t.buckets| && j != i ==> t'.buckets[j] == t.buckets[j]
    ensures forall k :: 0 <= k < |t'.used| ==> t'.used[k] < |t'.buckets|
    ensures RowsIds(Rows(t')) == RowsIds(Rows(t)) + multiset{x.item}
  {
    var rows := Rows(t);
    forall k | 0 <= k < |t.used|
      ensures t'.buckets[t.used[k]] == t.buckets[t.used[k]]
    {
      assert t.used[k] != i;
    }
    assert Rows(t')[|t.used|] == [x];
    assert Rows(t') == rows + [[x]];
    RowsIdsAppendRow(rows, [x]);
    IdsAppend([], x);
  }

  /** Appending item x to the non-empty bucket i, with the used list unchanged, adds x's id. */
  lemma RowsAddToBucket(t: Table, t': Table, i: nat, x: Item)
    requires UsedExactly(t) && i < |t.buckets| == |t'.buckets| && t.buckets[i].items != []
    requires t'.used == t.used && t'.buckets[i].items == t.buckets[i].items + [x]
    requires forall j :: 0 <= j < |t.buckets| && j != i ==> t'.buckets[j] == t.buckets[j]
    ensures forall k :: 0 <= k < |t'.used| ==> t'.used[k] < |t'.buckets|
    ensures RowsIds(Rows(t')) == RowsIds(Rows(t)) + multiset{x.item}
  {
    var rows := Rows(t);
    var p :| 0 <= p < |t.used| && t.used[p] == i;
    forall k | 0 <= k < |t.used|
      ensures Rows(t')[k] == rows[p := rows[p] + [x]][k]
    {
      if k != p { assert t.used[k] != i; }
    }
    assert Rows(t') == rows[p := rows[p] + [x]];
    RowsIdsAppendItem(rows, p, x);
  }

  /** Storing adds exactly the stored id to the ids held by the used buckets. */
  lemma StoreAddsId(t: Table, start: nat, hv: nat, id: nat)
    requires start < |t.buckets| && UsedExactly(t)
    requires Store(t, start, hv, id).0.Ok?
    ensures forall k :: 0 <= k < |Store(t, start, hv, id).1.used| ==> Store(t, start, hv, id).1.used[k] < |t.buckets|
    ensures RowsIds(Rows(Store(t, start, hv, id).1)) == RowsIds(Rows(t)) + multiset{id}
  {
    var r := Store(t, start, hv, id);
    var i := r.0.value;
    if t.buckets[i].items == [] {
      RowsAddNewBucket(t, r.1, i, Item(id, 1));
    } else {
      RowsAddToBucket(t, r.1, i, Item(id, 1));
    }
  }

  /**
   * The state of a loop that stores keys one after the other from table `t0`: after `steps`
   * rounds the table `t` keeps the `used_buckets` invariant, has only grown, holds at most
   * one new used bucket per round, and holds exactly the ids `ids` more than `t0`.
   */
  ghost predicate Filled(t0: Table, t: Table, ids: multiset<nat>, steps: nat)
  {
    UsedExactly(t0) && UsedExactly(t) &&
    Grows(t0.buckets, t.buckets) && (Clean(t0.buckets) ==> Clean(t.buckets)) &&
    |t.used| <= |t0.used| + steps &&
    RowsIds(Rows(t)) == RowsIds(Rows(t0)) + ids
  }

  /** One more step whose table grows by one id keeps the loop state. */
  lemma FilledNext(t0: Table, t: Table, t': Table, ids: multiset<nat>, steps: nat, id: nat)
    requires Filled(t0, t, ids, steps) && UsedExactly(t')
    requires Grows(t.buckets, t'.buckets) && (Clean(t.buckets) ==> Clean(t'.buckets))
    requires |t'.used| <= |t.used| + 1
    requires RowsIds(Rows(t')) == RowsIds(Rows(t)) + multiset{id}
    ensures Filled(t0, t', ids + multiset{id}, steps + 1)
  {
    GrowsTransitive(t0.buckets, t.buckets, t'.buckets);
  }

  /** A successful store adds its id to the loop state. */
  lemma FilledStep(t0: Table, t: Table, ids: multiset<nat>, steps: nat, start: nat, hv: nat, id: nat)
    requires Filled(t0, t, ids, steps) && start < |t.buckets| && Store(t, start, hv, id).0.Ok?
    ensures Filled(t0, Store(t, start, hv, id).1, ids + multiset{id}, steps + 1)
  {
    var t' := Store(t, start, hv, id).1;
    assert UsedExactly(t) && UsedExactly(t');
    StoreKeepsUsedExactly(t, start, hv, id);
    StoreGrows(t, start, hv, id);
    StoreAddsId(t, start, hv, id);
    FilledNext(t0, t, t', ids, steps, id);
  }

  /**
   * A key that was stored keeps landing in the same bucket as long as the table only grows
   * (no erase or clear in between).
   */
  lemma {:induction false} StableProbe(b1: seq<Bucket>, b2: seq<Bucket>, index: nat, hv: nat, checked: nat, i: nat)
    requires 0 < |b1| && 1 <= checked <= |b1| && Grows(b1, b2)
    requires ProbeFrom(b1, index, hv, checked) == Some(i)
    requires b2[i].items != [] && b2[i].hashValue == hv
    ensures ProbeFrom(b2, index, hv, checked) == Some(i)
    decreases |b1| - checked
  {
    var next := NextSlot(index, |b1|);
    if !Accepts(b1[next], hv) {
      assert b1[next].items <= b2[next].items;
      StableProbe(b1, b2, next, hv, checked + 1, i);
    }
  }

  lemma StableSlot(b1: seq<Bucket>, b2: seq<Bucket>, start: nat, hv: nat, i: nat)
    requires start < |b1| && Grows(b1, b2)
    requires FindSlot(b1, start, hv) == Some(i)
    requires b2[i].items != [] && b2[i].hashValue == hv
    ensures FindSlot(b2, start, hv) == Some(i)
  {
    if !Accepts(b1[start], hv) {
      assert b1[start].items <= b2[start].items;
      StableProbe(b1, b2, start, hv, 1, i);
    }
  }

  /**
   * Two keys with the same (index, hash value), stored with only stores in between, land in
   * the same bucket.
   */
  lemma SameKeySameBucket(t0: Table, t2: Table, start: nat, hv: nat, id1: nat, id2: nat)
    requires start < |t0.buckets| && UsedExactly(t0)
    requires Store(t0, start, hv, id1).0.Ok?
    requires Grows(Store(t0, start, hv, id1).1.buckets, t2.buckets)
    ensures Store(t2, start, hv, id2).0 == Store(t0, start, hv, id1).0
  {
    var (r1, t1) := Store(t0, start, hv, id1);
    StoreGrows(t0, start, hv, id1);
    GrowsTransitive(t0.buckets, t1.buckets, t2.buckets);
    var i := r1.value;
    assert t1.buckets[i].items <= t2.buckets[i].items;
    StableSlot(t0.buckets, t2.buckets, start, hv, i);
  }

  /**
   * Each of the first n keys (a start index and a hash value) probes, in `b`, to the
   * non-empty bucket recorded for it in `idx`.
   */
  ghost predicate Placed(b: seq<Bucket>, keys: seq<(nat, nat)>, idx: seq<nat>, n: nat)
  {
    n <= |keys| && n <= |idx| &&
    forall k :: 0 <= k < n ==>
      keys[k].0 < |b| && FindSlot(b, keys[k].0, keys[k].1) == Some(idx[k]) && b[idx[k]].items != []
  }

  /**
   * Storing key n keeps every earlier key probing to its bucket, and key n then probes to the
   * bucket the store used.
   */
  lemma PlacedStep(t: Table, keys: seq<(nat, nat)>, idx: seq<nat>, n: nat, id: nat)
    requires Placed(t.buckets, keys, idx, n) && n < |keys| && n < |idx| && keys[n].0 < |t.buckets|
    requires Store(t, keys[n].0, keys[n].1, id).0.Ok?
    ensures Placed(Store(t, keys[n].0, keys[n].1, id).1.buckets, keys,
                   idx[n := Store(t, keys[n].0, keys[n].1, id).0.value], n + 1)
  {
    var (start, hv) := keys[n];
    var (r, t') := Store(t, start, hv, id);
    var idx' := idx[n := r.value];
    StoreGrows(t, start, hv, id);
    forall k | 0 <= k < n + 1
      ensures keys[k].0 < |t'.buckets| && FindSlot(t'.buckets, keys[k].0, keys[k].1) == Some(idx'[k])
      ensures t'.buckets[idx'[k]].items != []
    {
      if k < n {
        assert t.buckets[idx[k]].items <= t'.buckets[idx[k]].items;
        StableSlot(t.buckets, t'.buckets, keys[k].0, keys[k].1, idx[k]);
      } else {
        StableSlot(t.buckets, t'.buckets, start, hv, r.value);
      }
    }
  }

  /**
   * The first position of `x` in `s`: what `list_find` on `used_buckets` is taken to report
   * (`list_find` is not part of this model; a linear search finds any item present).
   */
  function FirstIndex(s: seq<nat>, x: nat): (r: Option<nat>)
    ensures r.Some? ==> r.value < |s| && s[r.value] == x && x !in s[..r.value]
    ensures r.None? ==> x !in s
  {
    if s == [] then None
    else if s[0] == x then Some(0)
    else match FirstIndex(s[1..], x)
      case None => None
      case Some(p) =>
        assert s[..p + 1] == [s[0]] + s[1..][..p];
        Some(p + 1)
  }

  /** `used_buckets` after `list_delete_position` at the position `list_find` reported. */
  function RemoveFirst(s: seq<nat>, x: nat): seq<nat>
  {
    match FirstIndex(s, x)
    case None => s
    case Some(p) => s[..p] + s[p + 1..]
  }

  /**
   * `erase_from_index` on the abstract table: an in-range bucket is emptied, its hash value
   * zeroed and its index deleted from `used_buckets`; an out-of-range index changes nothing.
   */
  function Erase(t: Table, index: nat): (r: Table)
    ensures index >= |t.buckets| ==> r == t
    ensures index < |t.buckets| ==> r.buckets == t.buckets[index := EmptyBucket]
  {
    if index < |t.buckets| then Table(t.buckets[index := EmptyBucket], RemoveFirst(t.used, index))
    else t
  }

  /** Erasing a bucket undoes an earlier tag of it: the erased table is the same either way. */
  lemma EraseTagged(t: Table, i: nat, hv: nat)
    requires i < |t.buckets| && Accepts(t.buckets[i], hv)
    ensures Erase(Table(Tagged(t.buckets, i, hv), t.used), i) == Erase(t, i)
  {
    assert Tagged(t.buckets, i, hv)[i := EmptyBucket] == t.buckets[i := EmptyBucket];
  }

  /** `s` without position `p` keeps the other entries in order. */
  lemma RemovedAt(s: seq<nat>, p: nat, k: nat)
    requires p < |s| && k < |s| - 1
    ensures (s[..p] + s[p + 1..])[k] == if k < p then s[k] else s[k + 1]
  {
  }

  /** Deleting position `p` of a sequence of distinct entries removes exactly the entry `s[p]`. */
  lemma RemoveAtDistinct(s: seq<nat>, p: nat)
    requires p < |s| && Distinct(s)
    ensures Distinct(s[..p] + s[p + 1..])
    ensures forall x :: x in s[..p] + s[p + 1..] <==> x in s && x != s[p]
  {
    var s' := s[..p] + s[p + 1..];
    forall k, l | 0 <= k < l < |s'|
      ensures s'[k] != s'[l]
    {
      RemovedAt(s, p, k);
      RemovedAt(s, p, l);
    }
    forall x | x in s && x != s[p]
      ensures x in s'
    {
      var k :| 0 <= k < |s| && s[k] == x;
      if k < p {
        RemovedAt(s, p, k);
      } else {
        RemovedAt(s, p, k - 1);
      }
    }
    forall x | x in s'
      ensures x in s && x != s[p]
    {
      var k :| 0 <= k < |s'| && s'[k] == x;
      RemovedAt(s, p, k);
    }
  }

  /** Erasing keeps the `used_buckets` invariant and leaves the erased bucket clean. */
  lemma {:induction false} EraseKeepsUsedExactly(t: Table, index: nat)
    requires UsedExactly(t)
    ensures UsedExactly(Erase(t, index))
    ensures Clean(t.buckets) ==> Clean(Erase(t, index).buckets)
  {
    if index < |t.buckets| {
      var t' := Erase(t, index);
      var u := t.used;
      var f := FirstIndex(u, index);
      if f.Some? {
        var p := f.value;
        assert t'.used == u[..p] + u[p + 1..];
        RemoveAtDistinct(u, p);
      } else {
        assert t'.used == u;
      }
    }
  }

  /** Deleting entry p of the used list, with the other used buckets' items kept, deletes row p. */
  lemma RowsRemoveAt(t: Table, t': Table, p: nat)
    requires p < |t.used| && t'.used == t.used[..p] + t.used[p + 1..]
    requires forall k :: 0 <= k < |t.used| ==> t.used[k] < |t.buckets| && t.used[k] < |t'.buckets|
    requires forall k :: 0 <= k < |t.used| && k != p ==> t'.buckets[t.used[k]].items == t.buckets[t.used[k]].items
    ensures forall k :: 0 <= k < |t'.used| ==> t'.used[k] < |t'.buckets|
    ensures Rows(t') == Rows(t)[..p] + Rows(t)[p + 1..]
  {
    var u := t.used;
    forall k | 0 <= k < |t'.used|
      ensures t'.used[k] < |t'.buckets|
    {
      RemovedAt(u, p, k);
    }
    var rows := Rows(t);
    forall k | 0 <= k < |t'.used|
      ensures Rows(t')[k] == (rows[..p] + rows[p + 1..])[k]
    {
      RemovedAt(u, p, k);
    }
  }

  /** When the erased index is in `used_buckets`, its row is the one deleted from the rows. */
  lemma ErasedRowsFound(t: Table, index: nat, p: nat)
    requires UsedExactly(t) && index < |t.buckets| && FirstIndex(t.used, index) == Some(p)
    ensures UsedExactly(Erase(t, index))
    ensures Rows(Erase(t, index)) == Rows(t)[..p] + Rows(t)[p + 1..]
  {
    EraseKeepsUsedExactly(t, index);
    var t' := Erase(t, index);
    var u := t.used;
    assert t'.used == u[..p] + u[p + 1..];
    forall k | 0 <= k < |u| && k != p
      ensures t'.buckets[u[k]].items == t.buckets[u[k]].items
    {
      assert u[k] != u[p];
    }
    RowsRemoveAt(t, t', p);
  }

  /** When the erased index is not in `used_buckets`, its bucket was empty and the rows stay. */
  lemma ErasedRowsMissing(t: Table, index: nat)
    requires UsedExactly(t) && index < |t.buckets| && FirstIndex(t.used, index).None?
    ensures UsedExactly(Erase(t, index))
    ensures t.buckets[index].items == [] && Rows(Erase(t, index)) == Rows(t)
  {
    EraseKeepsUsedExactly(t, index);
    var t' := Erase(t, index);
    var u := t.used;
    assert t'.used == u;
    forall k | 0 <= k < |u|
      ensures Rows(t')[k] == Rows(t)[k]
    {
      assert u[k] != index;
    }
  }

  /** Erasing removes exactly the erased bucket's ids from the ids held by the used buckets. */
  lemma EraseRemovesIds(t: Table, index: nat)
    requires UsedExactly(t) && index < |t.buckets|
    ensures UsedExactly(Erase(t, index))
    ensures RowsIds(Rows(Erase(t, index))) + Ids(t.buckets[index].items) == RowsIds(Rows(t))
  {
    var f := FirstIndex(t.used, index);
    if f.Some? {
      ErasedRowsFound(t, index, f.value);
      RowsIdsRemoveAt(Rows(t), f.value);
    } else {
      ErasedRowsMissing(t, index);
      assert Ids([]) == multiset{};
    }
  }

  /** `clear_table` / `get_coitems` on the abstract table: every used bucket reset, `used_buckets` emptied. */
  function Cleared(t: Table): (r: Table)
    ensures |r.buckets| == |t.buckets| && r.used == []
    ensures forall j :: 0 <= j < |t.buckets| && j !in t.used ==> r.buckets[j] == t.buckets[j]
    ensures forall j :: 0 <= j < |t.buckets| && j in t.used ==> r.buckets[j] == EmptyBucket
  {
    Table(seq(|t.buckets|, j requires 0 <= j < |t.buckets| => if j in t.used then EmptyBucket else t.buckets[j]), [])
  }

  /**
   * Clearing a table whose `used_buckets` invariant holds empties every bucket; from a clean
   * table it gives back the freshly created one.
   */
  lemma ClearedIsEmpty(t: Table)
    requires UsedExactly(t)
    ensures UsedExactly(Cleared(t))
    ensures forall j :: 0 <= j < |t.buckets| ==> Cleared(t).buckets[j].items == []
    ensures Clean(t.buckets) ==> AllEmpty(Cleared(t).buckets)
  {
  }

  /**
   * The loop of `l1lsh_clear_table` / `lplsh_clear_table` on the bucket array: every bucket
   * named in `used` is reset.
   */
  method Reset(buckets: array<Bucket>, used: seq<nat>)
    requires forall k :: 0 <= k < |used| ==> used[k] < buckets.Length
    modifies buckets
    ensures Table(buckets[..], []) == Cleared(Table(old(buckets[..]), used))
  {
    for i := 0 to |used|
      invariant forall j :: 0 <= j < buckets.Length ==>
        buckets[j] == if j in used[..i] then EmptyBucket else old(buckets[j])
    {
      assert used[..i + 1] == used[..i] + [used[i]];
      buckets[used[i]] := Bucket(0, []);
    }
    assert used[..|used|] == used;
  }

  /**
   * The loop of `get_coitems` on the bucket array: each used bucket's list is pushed onto
   * `coitems`, in `used` order, and the bucket is reset.
   */
  method Drain(buckets: array<Bucket>, used: seq<nat>, coitems: ListDB)
    requires UsedExactly(Table(buckets[..], used))
    modifies buckets, coitems
    ensures coitems.lists == old(coitems.lists) + Rows(Table(old(buckets[..]), used))
    ensures coitems.dim == old(coitems.dim)
    ensures Table(buckets[..], []) == Cleared(Table(old(buckets[..]), used))
  {
    ghost var rows := Rows(Table(buckets[..], used));
    for i := 0 to |used|
      invariant coitems.lists == old(coitems.lists) + rows[..i]
      invariant coitems.dim == old(coitems.dim)
      invariant forall j :: 0 <= j < buckets.Length ==>
        buckets[j] == if j in used[..i] then EmptyBucket else old(buckets[j])
    {
      assert used[..i + 1] == used[..i] + [used[i]];
      assert used[i] !in used[..i];
      coitems.Push(buckets[used[i]].items);
      buckets[used[i]] := Bucket(0, []);
      assert rows[..i + 1] == rows[..i] + [rows[i]];
    }
    assert used[..|used|] == used;
    assert rows[..|used|] == rows;
  }

  /**
   * The probing loop of `l1lsh_get_index` / `lplsh_get_index` on the bucket array, from the
   * index and hash value the universal hash produced.
   */
  method Probe(buckets: array<Bucket>, start: nat, hv: nat) returns (r: Result<nat>)
    requires start < buckets.Length
    modifies buckets
    ensures match FindSlot(old(buckets[..]), start, hv)
      case None => r == Err(TableFull) && buckets[..] == old(buckets[..])
      case Some(i) => r == Ok(i) && buckets[..] == Tagged(old(buckets[..]), i, hv)
  {
    var n := buckets.Length;
    var index := start;
    if buckets[index].items != [] {
      if buckets[index].hashValue != hv {
        var checked := 1;
        while checked < n
          invariant 1 <= checked <= n && index < n
          invariant buckets[..] == old(buckets[..])
          invariant ProbeFrom(old(buckets[..]), index, hv, checked) == FindSlot(old(buckets[..]), start, hv)
        {
          index := And(index + 1, n - 1);
          if buckets[index].items != [] {
            if buckets[index].hashValue == hv {
              break;
            }
          } else {
            buckets[index] := Bucket(hv, buckets[index].items);
            break;
          }
          checked := checked + 1;
        }
        if checked == n {
          return Err(TableFull);
        }
      }
    } else {
      buckets[index] := Bucket(hv, buckets[index].items);
    }
    return Ok(index);
  }

  /**
   * The body of `store_list` / `store_vector` on the bucket array: probe, then push the id
   * and, when the bucket was empty, its index onto `used_buckets`.
   */
  method StoreIn(buckets: array<Bucket>, used: seq<nat>, start: nat, hv: nat, id: nat)
    returns (r: Result<nat>, used': seq<nat>)
    requires start < buckets.Length
    modifies buckets
    ensures (r, Table(buckets[..], used')) == Store(Table(old(buckets[..]), used), start, hv, id)
  {
    ghost var b0 := buckets[..];
    used' := used;
    r := Probe(buckets, start, hv);
    if r.Ok? {
      var index := r.value;
      ghost var items := b0[index].items;
      assert buckets[..] == b0[index := Bucket(hv, items)];
      if buckets[index].items == [] {
        used' := used' + [index];
      }
      buckets[index] := Bucket(buckets[index].hashValue, buckets[index].items + [Item(id, 1)]);
      assert buckets[..] == b0[index := Bucket(hv, items + [Item(id, 1)])];
    }
  }

  /**
   * The body of `erase_from_index` for an in-range index: the bucket is emptied, its hash
   * value zeroed and its index deleted from `used_buckets` at the position `list_find` gives.
   */
  method EraseIn(buckets: array<Bucket>, used: seq<nat>, index: nat) returns (used': seq<nat>)
    requires index < buckets.Length
    modifies buckets
    ensures Table(buckets[..], used') == Erase(Table(old(buckets[..]), used), index)
  {
    buckets[index] := Bucket(0, []);
    var position := FirstIndex(used, index);
    used' := used;
    if position.Some? {
      used' := used[..position.value] + used[position.value + 1..];
    }
  }
}
