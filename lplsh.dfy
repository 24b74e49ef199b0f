/**
 * The table half of the Lp hash table (lplsh.c): `tuple_size` projections of a
 * vector, combined by universal hashing into a hash value and a start index,
 * placed by the linear probing shared with the L1 table. The projections
 * themselves (a dot product with a p-stable random vector, shifted and divided
 * by the width, floored) are floating-point and random: each is modelled as an
 * uninterpreted function of the vector's entries and the projection number.
 */
module LpLsh {
  import opened Base
  import opened Arith
  import opened Lists
  import opened VectorDBs
  import opened Buckets

  /** LARGEST_PRIME64 of types.h (not part of this model): the largest prime below 2^64. */
  const LargestPrime64: nat := 18446744073709551557

  /**
   * `lplsh_compute_hash_value` for projection i: the floored projection of the vector,
   * converted to `int` and then to `ullong` (so a negative value reads as 2^64 minus it).
   */
  type Projection = (VectorData, nat) -> uint64

  /** The first-level hash values of a vector under projections 0 .. n - 1. */
  function Signature(project: Projection, v: VectorData, n: nat): seq<nat>
  {
    seq(n, i requires 0 <= i < n => project(v, i))
  }

  /**
   * The coefficient sum as the loop of `lplsh_univhash` accumulates it: each product
   * `(ullong) a[i] * hv` is computed in 64 bits, so it wraps before it is added.
   */
  function WrappedDot(coef: seq<uint32>, v: seq<nat>): nat
    requires |v| <= |coef|
  {
    if v == [] then 0 else WrappedDot(coef, v[..|v| - 1]) + (coef[|v| - 1] * v[|v| - 1]) % TwoTo64
  }

  /** Each wrapped product is below 2^64, so n of them stay below n * 2^64. */
  lemma {:induction false} WrappedDotBound(coef: seq<uint32>, v: seq<nat>)
    requires |v| <= |coef|
    ensures WrappedDot(coef, v) <= |v| * 0xFFFF_FFFF_FFFF_FFFF
  {
    if v != [] {
      WrappedDotBound(coef, v[..|v| - 1]);
    }
  }

  /** Each product of a 32-bit coefficient and a 64-bit hash value is below 2^96. */
  lemma {:induction false} DotBound(coef: seq<uint32>, v: seq<nat>)
    requires |v| <= |coef| && forall k :: 0 <= k < |v| ==> v[k] < TwoTo64
    ensures Dot(coef, v) <= |v| * 0x1_0000_0000_0000_0000_0000_0000
  {
    if v != [] {
      var n := |v|;
      DotBound(coef, v[..n - 1]);
      MulMono(coef[n - 1], TwoTo32, v[n - 1]);
      MulMono(v[n - 1], TwoTo64, TwoTo32);
    }
  }

  /** `temp += (ullong) c * x` as written: a 64-bit product added to a 128-bit accumulator. */
  function WrapMulAdd(acc: nat, c: uint32, x: nat): nat
  {
    (acc + (c * x) % TwoTo64) % TwoTo128
  }

  /** `temp += c * x` with the product taken in 128 bits. */
  function MulAdd128(acc: nat, c: uint32, x: nat): nat
  {
    (acc + c * x) % TwoTo128
  }

  /** One turn of the as-written loop: the 128-bit accumulator never wraps. */
  lemma WrappedStep(coef: seq<uint32>, hvs: seq<nat>, x: nat)
    requires |hvs| < |coef| < TwoTo32
    ensures WrapMulAdd(WrappedDot(coef, hvs), coef[|hvs|], x) == WrappedDot(coef, hvs + [x])
  {
    assert (hvs + [x])[..|hvs|] == hvs;
    WrappedDotBound(coef, hvs + [x]);
    var s := WrappedDot(coef, hvs + [x]);
    ModUnique(s, TwoTo128, 0, s);
  }

  /** One turn of the exact loop: the 128-bit accumulator never wraps. */
  lemma ExactStep(coef: seq<uint32>, hvs: seq<nat>, x: nat)
    requires |hvs| < |coef| < TwoTo32 && x < TwoTo64
    requires forall k :: 0 <= k < |hvs| ==> hvs[k] < TwoTo64
    ensures MulAdd128(Dot(coef, hvs), coef[|hvs|], x) == Dot(coef, hvs + [x])
  {
    DotAppend(coef, hvs, x);
    DotBound(coef, hvs + [x]);
    var s := Dot(coef, hvs + [x]);
    ModUnique(s, TwoTo128, 0, s);
  }

  /** `*hash_value`: the sum reduced modulo LARGEST_PRIME64, then truncated to a `uint`. */
  function HashValueOf(sum: nat): uint32
  {
    (sum % LargestPrime64) % TwoTo32
  }

  /** `*index`: the sum reduced modulo LARGEST_PRIME64 and then modulo the table size. */
  function IndexOf(sum: nat, tableSize: nat): (r: nat)
    requires tableSize > 0
    ensures r < tableSize
  {
    (sum % LargestPrime64) % tableSize
  }

  /**
   * With a negative projection (hash value 2^64 - 1) and coefficient 2, the 64-bit product
   * wraps and the sum reduces to 57 modulo LARGEST_PRIME64 instead of 116, so the index and
   * hash value differ from those of the inner product the 128-bit accumulators are sized for.
   */
  lemma WrappedProductChangesSum()
    ensures WrappedDot([2], [TwoTo64 - 1]) % LargestPrime64 == 57
    ensures Dot([2], [TwoTo64 - 1]) % LargestPrime64 == 116
    ensures IndexOf(WrappedDot([2], [TwoTo64 - 1]), 1024) != IndexOf(Dot([2], [TwoTo64 - 1]), 1024)
  {
    var v: seq<nat> := [TwoTo64 - 1];
    assert v[..0] == [];
    assert WrappedDot([2], v) == TwoTo64 - 2;
    assert Dot([2], v) == 2 * TwoTo64 - 2;
  }

  /**
   * When every hash value is below 2^32 (a non-negative projection, which as an `int` is
   * below 2^31), no 64-bit product wraps and the sum as written is the inner product.
   */
  lemma {:induction false} WrappedDotExact(coef: seq<uint32>, v: seq<nat>)
    requires |v| <= |coef| && forall k :: 0 <= k < |v| ==> v[k] < TwoTo32
    ensures WrappedDot(coef, v) == Dot(coef, v)
  {
    if v != [] {
      var n := |v|;
      WrappedDotExact(coef, v[..n - 1]);
      var p := coef[n - 1] * v[n - 1];
      MulBelow(coef[n - 1], v[n - 1], TwoTo32);
      ModUnique(p, TwoTo64, 0, p);
    }
  }

  /** The start index and hash value of each vector, under `project` and the coefficients. */
  function Keys(project: Projection, a: seq<uint32>, b: seq<uint32>, tableSize: nat, vs: seq<VectorData>): (keys: seq<(nat, nat)>)
    requires |a| == |b| && tableSize > 0
    ensures |keys| == |vs|
    ensures forall k :: 0 <= k < |vs| ==>
      keys[k] == (IndexOf(Dot(a, Signature(project, vs[k], |a|)), tableSize), HashValueOf(Dot(b, Signature(project, vs[k], |a|))))
  {
    seq(|vs|, k requires 0 <= k < |vs| =>
      (IndexOf(Dot(a, Signature(project, vs[k], |a|)), tableSize), HashValueOf(Dot(b, Signature(project, vs[k], |a|)))))
  }

  /** Each of the vectors 0 .. i - 1 has its id in the bucket recorded for it. */
  ghost predicate Recorded(t: Table, i: nat, idx: seq<nat>)
  {
    i <= |idx| && forall k :: 0 <= k < i ==> idx[k] < |t.buckets| && Item(k, 1) in t.buckets[idx[k]].items
  }

  /** The loop state of `lplsh_store_vectordb` after vectors 0 .. i - 1. */
  ghost predicate StoredSoFar(t0: Table, t: Table, i: nat, idx: seq<nat>)
  {
    Filled(t0, t, Positions(i), i) && Recorded(t, i, idx)
  }

  lemma StoredStart(t0: Table, idx: seq<nat>)
    requires UsedExactly(t0)
    ensures StoredSoFar(t0, t0, 0, idx)
  {
  }

  /** Storing vector i under id i and recording its bucket keeps the earlier ids where they were. */
  lemma RecordedStep(t: Table, i: nat, idx: seq<nat>, start: nat, hv: nat)
    requires i < |idx| && start < |t.buckets| && Store(t, start, hv, i).0.Ok? && Recorded(t, i, idx)
    ensures Recorded(Store(t, start, hv, i).1, i + 1, idx[i := Store(t, start, hv, i).0.value])
  {
    var (r, t') := Store(t, start, hv, i);
    var idx' := idx[i := r.value];
    StoreGrows(t, start, hv, i);
    forall k | 0 <= k < i + 1
      ensures idx'[k] < |t.buckets| && Item(k, 1) in t'.buckets[idx'[k]].items
    {
      if k < i {
        GrowsKeepsItems(t.buckets, t'.buckets, idx[k], Item(k, 1));
      } else {
        assert t'.buckets[r.value].items == t.buckets[r.value].items + [Item(i, 1)];
      }
    }
  }

  /** Storing vector i under id i and recording its bucket advances the loop state. */
  lemma StoredStep(t0: Table, t: Table, i: nat, idx: seq<nat>, start: nat, hv: nat)
    requires i < |idx| && StoredSoFar(t0, t, i, idx)
    requires start < |t.buckets| && Store(t, start, hv, i).0.Ok?
    ensures StoredSoFar(t0, Store(t, start, hv, i).1, i + 1, idx[i := Store(t, start, hv, i).0.value])
  {
    FilledStep(t0, t, Positions(i), i, start, hv, i);
    RecordedStep(t, i, idx, start, hv);
  }

  /**
   * `HashTableLP` of lplsh.h: the coefficients `a` and `b` of the universal hash, the current
   * projections (standing for `avec`, `bval` and `width`), the buckets and `used_buckets`.
   */
  class HashTableLp {
    const tableSize: uint32
    const tupleSize: uint32
    const dim: uint32
    const buckets: array<Bucket>
    const a: seq<uint32>
    const b: seq<uint32>
    var project: Projection
    var usedBuckets: seq<nat>

    /** The buckets and `used_buckets` as a value. */
    function State(): Table
      reads this, buckets
    {
      Table(buckets[..], usedBuckets)
    }

    /** The array sizes `lplsh_create` allocates, and the `used_buckets` invariant. */
    ghost predicate Valid()
      reads this, buckets
    {
      buckets.Length == tableSize && |a| == tupleSize && |b| == tupleSize &&
      UsedExactly(State())
    }

    /** The hash values of a vector under the current projections. */
    function Sig(v: VectorData): seq<nat>
      reads this
    {
      Signature(project, v, tupleSize)
    }

    /**
     * `lplsh_create`: empty buckets, no used buckets, and `tuple_size` coefficients each in
     * `a` and `b`, the low 32 bits of successive 64-bit draws (a[i] from draw 2i, b[i] from
     * draw 2i + 1). `project` stands for the `avec` and `bval` arrays, which are allocated
     * but not yet filled.
     */
    constructor Create(tableSize: uint32, tupleSize: uint32, dim: uint32, draws: seq<nat>, project: Projection)
      requires |draws| == 2 * tupleSize
      ensures Valid() && fresh(buckets)
      ensures this.tableSize == tableSize && this.tupleSize == tupleSize && this.dim == dim
      ensures forall i :: 0 <= i < tupleSize ==> a[i] == draws[2 * i] % TwoTo32 && b[i] == draws[2 * i + 1] % TwoTo32
      ensures AllEmpty(buckets[..]) && usedBuckets == [] && this.project == project
    {
      this.tableSize := tableSize;
      this.tupleSize := tupleSize;
      this.dim := dim;
      buckets := new Bucket[tableSize](_ => EmptyBucket);
      usedBuckets := [];
      a := seq(tupleSize, i requires 0 <= i < tupleSize => draws[2 * i] % TwoTo32);
      b := seq(tupleSize, i requires 0 <= i < tupleSize => draws[2 * i + 1] % TwoTo32);
      this.project := project;
    }

    /** `lplsh_generate_random_values`: new projections; the table itself is untouched. */
    method Reproject(p: Projection)
      modifies this
      ensures project == p && usedBuckets == old(usedBuckets)
    {
      project := p;
    }

    /**
     * `lplsh_univhash` as written: the products wrap at 64 bits before they are added to the
     * 128-bit accumulators, which themselves never wrap.
     */
    method UnivHashAsWritten(v: VectorData) returns (hashValue: uint32, index: nat)
      requires |a| == tupleSize && |b| == tupleSize && tableSize > 0
      ensures hashValue == HashValueOf(WrappedDot(b, Sig(v)))
      ensures index == IndexOf(WrappedDot(a, Sig(v)), tableSize)
    {
      ghost var s := Sig(v);
      var tempIndex: nat, tempHv: nat := 0, 0;
      var i: nat := 0;
      while i < tupleSize
        invariant i <= tupleSize
        invariant tempIndex == WrappedDot(a, s[..i]) && tempHv == WrappedDot(b, s[..i])
      {
        var hv := project(v, i);
        WrappedStep(a, s[..i], hv);
        WrappedStep(b, s[..i], hv);
        assert s[..i + 1] == s[..i] + [hv];
        tempIndex := WrapMulAdd(tempIndex, a[i], hv);
        tempHv := WrapMulAdd(tempHv, b[i], hv);
        i := i + 1;
      }
      assert s[..i] == s;
      hashValue := (tempHv % LargestPrime64) % TwoTo32;
      index := (tempIndex % LargestPrime64) % tableSize;
    }

    /**
     * `lplsh_univhash` with the products taken in 128 bits, as the accumulators are sized for:
     * the inner products of the coefficients with the projections, each reduced modulo
     * LARGEST_PRIME64, give the hash value (truncated to a `uint`) and the start index.
     */
    method UnivHash(v: VectorData) returns (hashValue: uint32, index: nat)
      requires |a| == tupleSize && |b| == tupleSize && tableSize > 0
      ensures hashValue == HashValueOf(Dot(b, Sig(v)))
      ensures index == IndexOf(Dot(a, Sig(v)), tableSize)
    {
      ghost var s := Sig(v);
      var tempIndex: nat, tempHv: nat := 0, 0;
      var i: nat := 0;
      while i < tupleSize
        invariant i <= tupleSize
        invariant tempIndex == Dot(a, s[..i]) && tempHv == Dot(b, s[..i])
      {
        var hv := project(v, i);
        ExactStep(a, s[..i], hv);
        ExactStep(b, s[..i], hv);
        assert s[..i + 1] == s[..i] + [hv];
        tempIndex := MulAdd128(tempIndex, a[i], hv);
        tempHv := MulAdd128(tempHv, b[i], hv);
        i := i + 1;
      }
      assert s[..i] == s;
      hashValue := (tempHv % LargestPrime64) % TwoTo32;
      index := (tempIndex % LargestPrime64) % tableSize;
    }

    /**
     * `lplsh_get_index`: the hash value and start index of the vector, then linear probing;
     * the bucket found is tagged with the hash value. A full table is an error.
     */
    method GetIndex(v: VectorData) returns (r: Result<nat>, ghost hv: nat, ghost start: nat)
      requires Valid() && tableSize > 0
      modifies buckets
      ensures Valid() && start < tableSize && hv < TwoTo32
      ensures hv == HashValueOf(Dot(b, Sig(v))) && start == IndexOf(Dot(a, Sig(v)), tableSize)
      ensures match FindSlot(old(buckets[..]), start, hv)
        case None => r == Err(TableFull) && buckets[..] == old(buckets[..])
        case Some(i) => r == Ok(i) && buckets[..] == Tagged(old(buckets[..]), i, hv)
    {
      var h, index := UnivHash(v);
      hv, start := h, index;
      r := Probe(buckets, index, h);
      if r.Ok? {
        TaggedKeepsUsedExactly(old(State()), r.value, h);
      }
    }

    /**
     * `lplsh_store_vector`: the id is appended to the vector's bucket, whose index joins
     * `used_buckets` when the bucket was empty. A full table is an error and changes nothing.
     */
    method StoreVector(v: VectorData, id: nat) returns (r: Result<nat>, ghost hv: nat, ghost start: nat)
      requires Valid() && tableSize > 0
      modifies this, buckets
      ensures Valid() && project == old(project) && start < tableSize && hv < TwoTo32
      ensures hv == HashValueOf(Dot(b, Sig(v))) && start == IndexOf(Dot(a, Sig(v)), tableSize)
      ensures (r, State()) == Store(old(State()), start, hv, id)
    {
      var h, index := UnivHash(v);
      hv, start := h, index;
      r, usedBuckets := StoreIn(buckets, usedBuckets, index, h, id);
      StoreKeepsUsedExactly(old(State()), start, hv, id);
    }

    /**
     * One iteration of `lplsh_store_vectordb`: vector i is stored under id i and its bucket
     * written to `indices[i]`. On a full table nothing changes, and in a power-of-two table
     * that means every bucket is in use.
     */
    method StoreNext(v: VectorData, i: nat, indices: array<nat>, ghost t0: Table, ghost keys: seq<(nat, nat)>)
      returns (r: Outcome)
      requires Valid() && tableSize > 0 && i < indices.Length
      requires StoredSoFar(t0, State(), i, indices[..])
      requires i < |keys| && keys[i] == (IndexOf(Dot(a, Sig(v)), tableSize), HashValueOf(Dot(b, Sig(v))))
      requires Placed(buckets[..], keys, indices[..], i)
      modifies this, buckets, indices
      ensures Valid() && project == old(project)
      ensures r.Pass? ==> StoredSoFar(t0, State(), i + 1, indices[..])
      ensures r.Pass? ==> Placed(buckets[..], keys, indices[..], i + 1)
      ensures r.Fail? ==> StoredSoFar(t0, State(), i, indices[..])
      ensures r.Fail? && IsPowerOfTwo(tableSize) ==> |usedBuckets| == tableSize
    {
      ghost var t := State();
      ghost var idx := indices[..];
      var res, hv, start := StoreVector(v, i);
      if res.Err? {
        if IsPowerOfTwo(tableSize) {
          FullWhenProbeFails(t, start, hv);
        }
        return Fail(res.error);
      }
      ghost var t' := State();
      StoredStep(t0, t, i, idx, start, hv);
      PlacedStep(t, keys, idx, i, i);
      indices[i] := res.value;
      assert State() == t' && indices[..] == idx[i := res.value];
      r := Pass;
    }

    /**
     * The loop of `lplsh_store_vectordb`: the vectors are stored one after the other until all
     * are stored or one fails; `n` is how many were stored.
     */
    method StoreEach(vectors: seq<VectorData>, indices: array<nat>, ghost t0: Table, ghost keys: seq<(nat, nat)>)
      returns (r: Outcome, ghost n: nat)
      requires Valid() && tableSize > 0 && indices.Length == |vectors| && t0 == State()
      requires keys == Keys(project, a, b, tableSize, vectors)
      modifies this, buckets, indices
      ensures Valid() && project == old(project) && StoredSoFar(t0, State(), n, indices[..])
      ensures r.Pass? ==> Placed(buckets[..], keys, indices[..], |vectors|)
      ensures r.Pass? ==> n == |vectors|
      ensures r.Fail? && IsPowerOfTwo(tableSize) ==> n < |vectors| && |usedBuckets| == tableSize
    {
      StoredStart(t0, indices[..]);
      r := Pass;
      n := 0;
      var i := 0;
      while i < |vectors|
        invariant 0 <= i <= |vectors| && Valid() && project == old(project) && r == Pass && n == i
        invariant StoredSoFar(t0, State(), i, indices[..]) && Placed(buckets[..], keys, indices[..], i)
      {
        r := StoreNext(vectors[i], i, indices, t0, keys);
        if r.Fail? {
          return;
        }
        i := i + 1;
        n := i;
      }
    }

    /**
     * `lplsh_store_vectordb`: every vector, empty or not, is stored under its position as id,
     * and its bucket is written to `indices` at that position. The source exits on a full
     * table; the model stops with an error, which cannot happen in a power-of-two table with
     * room for one new bucket per vector.
     */
    method StoreVectorDB(vectordb: VectorDB, indices: array<nat>) returns (r: Outcome)
      requires Valid() && tableSize > 0 && vectordb.Valid() && indices.Length == vectordb.size
      modifies this, buckets, indices
      ensures Valid() && project == old(project)
      ensures Grows(old(buckets[..]), buckets[..])
      ensures Clean(old(buckets[..])) ==> Clean(buckets[..])
      ensures r.Pass? ==> RowsIds(Rows(State())) == RowsIds(Rows(old(State()))) + Positions(vectordb.size)
      ensures r.Pass? ==> forall k :: 0 <= k < indices.Length ==>
        indices[k] < tableSize && Item(k, 1) in buckets[indices[k]].items
      ensures r.Pass? ==> forall j, k ::
        0 <= j < indices.Length && 0 <= k < indices.Length && Sig(vectordb.vectors[j]) == Sig(vectordb.vectors[k])
        ==> indices[j] == indices[k]
      ensures IsPowerOfTwo(tableSize) && |old(usedBuckets)| + vectordb.size <= tableSize ==> r.Pass?
    {
      ghost var n;
      ghost var keys := Keys(project, a, b, tableSize, vectordb.vectors);
      r, n := StoreEach(vectordb.vectors, indices, State(), keys);
      if r.Pass? {
        forall j, k | 0 <= j < indices.Length && 0 <= k < indices.Length &&
          Sig(vectordb.vectors[j]) == Sig(vectordb.vectors[k])
          ensures indices[j] == indices[k]
        {
          assert keys[j] == keys[k];
        }
      }
    }

    /**
     * `lplsh_erase_from_index`: an in-range bucket is emptied, its hash value zeroed and its
     * index removed from `used_buckets`, which removes exactly that bucket's ids; an
     * out-of-range index changes nothing.
     */
    method EraseFromIndex(index: uint32)
      requires Valid()
      modifies this, buckets
      ensures Valid() && project == old(project) && State() == Erase(old(State()), index)
      ensures index < tableSize ==>
        RowsIds(Rows(State())) + Ids(old(buckets[index].items)) == RowsIds(Rows(old(State())))
    {
      if index < tableSize {
        usedBuckets := EraseIn(buckets, usedBuckets, index);
        EraseRemovesIds(old(State()), index);
      }
    }

    /**
     * `lplsh_clear_table`: every used bucket is reset and `used_buckets` emptied, which leaves
     * every bucket empty.
     */
    method ClearTable()
      requires Valid()
      modifies this, buckets
      ensures Valid() && project == old(project) && State() == Cleared(old(State()))
      ensures forall j :: 0 <= j < tableSize ==> buckets[j].items == []
    {
      Reset(buckets, usedBuckets);
      usedBuckets := [];
      ClearedIsEmpty(old(State()));
    }
  }
}
