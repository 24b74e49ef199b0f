/**
 * Sparse real-valued vectors (vectors.c): a growable array of (dim, value)
 * entries that push and pop edit in place. C doubles are modelled as reals
 * (no NaN, no rounding).
 */
module Vectors {
  import opened Base
  import opened Sorting

  datatype Dim = Dim(dim: uint32, value: real)

  /** C's conversion of a `uint` to `int`: two's complement reinterpretation. */
  function ToInt32(x: uint32): int
  {
    if x < TwoTo31 then x else x - TwoTo32
  }

  /** A 32-bit signed result, wrapping as two's complement hardware does. */
  function Wrap32(x: int): int
  {
    var m := x % TwoTo32;
    if m < TwoTo31 then m else m - TwoTo32
  }

  /**
   * `vector_dim_compare`: the dims are read into `int`s and subtracted.
   * For dims below 2^31 the sign of the result is the order of the dims.
   */
  function DimCompare(a: Dim, b: Dim): (r: int)
    ensures a.dim < TwoTo31 && b.dim < TwoTo31 ==>
      (r < 0 <==> a.dim < b.dim) && (r == 0 <==> a.dim == b.dim) && (r > 0 <==> a.dim > b.dim)
  {
    Wrap32(ToInt32(a.dim) - ToInt32(b.dim))
  }

  /** From 2^31 on, a dim reads as a negative `int` and the comparison reports the wrong order. */
  lemma DimCompareWrongAboveInt32()
    ensures DimCompare(Dim(TwoTo31, 0.0), Dim(0, 0.0)) < 0
  {
  }

  /** The sort key `vector_sort_by_dim` orders by. */
  function DimKey(d: Dim): int
  {
    d.dim
  }

  /** Every dim fits in a C `int`, so `vector_dim_compare` is a consistent order on the entries. */
  ghost predicate DimsFitInt(s: seq<Dim>)
  {
    forall i :: 0 <= i < |s| ==> s[i].dim < TwoTo31
  }

  /**
   * `vector_binary_search` (the C library's `bsearch` with `vector_dim_compare`):
   * on entries sorted by dim it finds an entry with the query's dim exactly when one exists.
   */
  function BinarySearch(data: seq<Dim>, query: Dim): (r: Option<nat>)
    requires SortedByKey(data, DimKey) && DimsFitInt(data) && query.dim < TwoTo31
    ensures r.Some? ==> r.value < |data| && data[r.value].dim == query.dim
    ensures r.None? ==> forall i :: 0 <= i < |data| ==> data[i].dim != query.dim
  {
    SearchRange(data, query, 0, |data|)
  }

  /** Binary search of the half-open range [lo, hi), outside of which no entry has the query's dim. */
  function SearchRange(data: seq<Dim>, query: Dim, lo: nat, hi: nat): (r: Option<nat>)
    requires SortedByKey(data, DimKey) && DimsFitInt(data) && query.dim < TwoTo31
    requires lo <= hi <= |data|
    ensures r.Some? ==> lo <= r.value < hi && data[r.value].dim == query.dim
    ensures r.None? ==> forall i :: lo <= i < hi ==> data[i].dim != query.dim
    decreases hi - lo
  {
    if lo == hi then None
    else
      var mid := (lo + hi) / 2;
      var c := DimCompare(query, data[mid]);
      if c < 0 then
        assert forall i :: mid <= i < hi ==> DimKey(data[mid]) <= DimKey(data[i]);
        SearchRange(data, query, lo, mid)
      else if c > 0 then
        assert forall i :: lo <= i <= mid ==> DimKey(data[i]) <= DimKey(data[mid]);
        SearchRange(data, query, mid + 1, hi)
      else Some(mid)
  }

  /** A vector: `size` entries held in `data`. */
  class Vector {
    var size: uint32
    var data: seq<Dim>

    ghost predicate Valid()
      reads this
    {
      size == |data|
    }

    /** `vector_create`: `n` entries, each with dim 0 and value 0 (calloc). */
    constructor Create(n: uint32)
      ensures Valid() && size == n
      ensures forall i :: 0 <= i < n ==> data[i] == Dim(0, 0.0)
    {
      size := n;
      data := seq(n, _ => Dim(0, 0.0));
    }

    /** `vector_init`: no entries. */
    method Init()
      modifies this
      ensures Valid() && size == 0 && data == []
    {
      size := 0;
      data := [];
    }

    /** `vector_destroy`: frees the entries and re-initialises, leaving an empty vector. */
    method Destroy()
      modifies this
      ensures Valid() && size == 0 && data == []
    {
      Init();
    }

    /**
     * `vector_push`: the entry becomes the last one; earlier entries are unchanged. The `uint`
     * size must not wrap.
     */
    method Push(d: Dim)
      requires Valid() && size + 1 < TwoTo32
      modifies this
      ensures Valid() && size == old(size) + 1
      ensures data == old(data) + [d]
    {
      var newSize := size + 1;
      data := data + [d];
      size := newSize;
    }

    /** `vector_pop`: removes the last entry (the source decrements `size` unchecked, so it must be positive). */
    method Pop()
      requires Valid() && size > 0
      modifies this
      ensures Valid() && size == old(size) - 1
      ensures data == old(data)[..old(size) - 1]
    {
      size := size - 1;
      data := data[..size];
    }

    /** `vector_duplicate`: a new vector with the same entries; the source vector is untouched. */
    method Duplicate() returns (dup: Vector)
      requires Valid()
      ensures fresh(dup) && dup.Valid()
      ensures dup.size == size && dup.data == data
    {
      dup := new Vector.Create(0);
      dup.data := data;
      dup.size := size;
    }

    /**
     * `vector_min_value`: position of the earliest entry whose value is no larger than any other
     * (the comparison is strict, so ties keep the first). An empty vector yields position 0,
     * the start of its (empty) storage.
     */
    method MinValue() returns (r: nat)
      requires Valid()
      ensures size == 0 ==> r == 0
      ensures size > 0 ==> r < size
      ensures size > 0 ==> forall j :: 0 <= j < size ==> data[r].value <= data[j].value
      ensures size > 0 ==> forall j :: 0 <= j < r ==> data[j].value > data[r].value
    {
      r := 0;
      var i := 1;
      while i < size
        invariant size > 0 ==> 1 <= i <= size
        invariant size > 0 ==> r < i
        invariant size > 0 ==> forall j :: 0 <= j < i ==> data[r].value <= data[j].value
        invariant size > 0 ==> forall j :: 0 <= j < r ==> data[j].value > data[r].value
        invariant size == 0 ==> r == 0
      {
        if data[r].value > data[i].value {
          r := i;
        }
        i := i + 1;
      }
    }

    /** `vector_max_value`: position of the earliest entry whose value is no smaller than any other. */
    method MaxValue() returns (r: nat)
      requires Valid()
      ensures size == 0 ==> r == 0
      ensures size > 0 ==> r < size
      ensures size > 0 ==> forall j :: 0 <= j < size ==> data[r].value >= data[j].value
      ensures size > 0 ==> forall j :: 0 <= j < r ==> data[j].value < data[r].value
    {
      r := 0;
      var i := 1;
      while i < size
        invariant size > 0 ==> 1 <= i <= size
        invariant size > 0 ==> r < i
        invariant size > 0 ==> forall j :: 0 <= j < i ==> data[r].value >= data[j].value
        invariant size > 0 ==> forall j :: 0 <= j < r ==> data[j].value < data[r].value
        invariant size == 0 ==> r == 0
      {
        if data[r].value < data[i].value {
          r := i;
        }
        i := i + 1;
      }
    }

    /**
     * `vector_sort_by_dim`: reorders the entries by ascending dim. `qsort` with
     * `vector_dim_compare` needs the comparator to be an order, i.e. every dim below 2^31.
     */
    method SortByDim()
      requires Valid() && DimsFitInt(data)
      modifies this
      ensures Valid() && size == old(size)
      ensures SortedByKey(data, DimKey)
      ensures multiset(data) == multiset(old(data))
    {
      data := SortByKey(data, DimKey);
      assert |multiset(data)| == |multiset(old(data))|;
    }
  }
}
