/**
 * Databases of vectors (vectordb.c): a growable array of vectors plus a
 * declared dimensionality. Every operation rewrites the array and the size
 * in place. The database holds the contents of its vectors; the C code copies
 * `Vector` structs shallowly, so two databases may share a vector's storage,
 * which this model does not track.
 */
module VectorDBs {
  import opened Base
  import opened Lists
  import opened Vectors

  /** The contents of one vector. */
  type VectorData = seq<Dim>

  /** What `vector_destroy` leaves of a vector when it is applied through a database. */
  function Destroyed(v: VectorData): VectorData
  {
    []
  }

  /** `f` applied `n` times to `v`. */
  function Iterate(f: VectorData -> VectorData, n: nat, v: VectorData): VectorData
  {
    if n == 0 then v else f(Iterate(f, n - 1, v))
  }

  /** How many entries of `positions` name position `p`. */
  function Occurrences(positions: List, p: nat): nat
  {
    if positions == [] then 0
    else Occurrences(positions[..|positions| - 1], p) + (if positions[|positions| - 1].item == p then 1 else 0)
  }

  /**
   * What `vectordb_pop_multi` leaves, as written: it destroys from position
   * size - number - 1 (in `uint` arithmetic) to the end, one vector more than it removes,
   * so the last vector kept is emptied. When number == size the start wraps past
   * the end and nothing is destroyed.
   */
  function PopMultiAsWrittenResult(vs: seq<VectorData>, number: nat): (r: seq<VectorData>)
    requires number <= |vs|
    ensures |r| == |vs| - number
    ensures forall k :: 0 <= k < |vs| - number - 1 ==> r[k] == vs[k]
  {
    if number < |vs| then vs[..|vs| - number - 1] + [[]] else []
  }

  /** Removing one vector from three leaves the second one emptied instead of intact. */
  lemma PopMultiEmptiesKeptVector(d: Dim)
    ensures PopMultiAsWrittenResult([[d], [d], [d]], 1) == [[d], []]
    ensures PopMultiAsWrittenResult([[d], [d], [d]], 1) != [[d], [d], [d]][..2]
  {
    assert [[d], [d], [d]][..1] == [[d]];
    assert PopMultiAsWrittenResult([[d], [d], [d]], 1)[1] == [];
    assert [[d], [d], [d]][..2][1] == [d];
  }

  class VectorDB {
    var size: uint32
    var dim: uint32
    var vectors: seq<VectorData>

    ghost predicate Valid()
      reads this
    {
      size == |vectors|
    }

    /** `vectordb_create`: `size` empty vectors and the declared dimensionality. */
    constructor Create(size: uint32, dim: uint32)
      ensures Valid() && this.size == size && this.dim == dim
      ensures forall k :: 0 <= k < size ==> vectors[k] == []
    {
      this.size := size;
      this.dim := dim;
      vectors := seq(size, _ => []);
    }

    /** `vectordb_init`: no vectors and dimensionality 0. */
    method Init()
      modifies this
      ensures Valid() && size == 0 && dim == 0 && vectors == []
    {
      size := 0;
      dim := 0;
      vectors := [];
    }

    /** `vectordb_destroy`: destroys every vector, frees the array and re-initialises. */
    method Destroy()
      modifies this
      ensures Valid() && size == 0 && dim == 0 && vectors == []
    {
      Init();
    }

    /** `vectordb_apply_to_all`: the per-vector transformation `f` is applied to every vector in turn. */
    method ApplyToAll(f: VectorData -> VectorData)
      requires Valid()
      modifies this
      ensures Valid() && size == old(size) && dim == old(dim)
      ensures forall k :: 0 <= k < size ==> vectors[k] == f(old(vectors[k]))
    {
      var i := 0;
      while i < size
        invariant 0 <= i <= size && Valid() && size == old(size) && dim == old(dim)
        invariant forall k :: 0 <= k < i ==> vectors[k] == f(old(vectors[k]))
        invariant forall k :: i <= k < size ==> vectors[k] == old(vectors[k])
      {
        vectors := vectors[i := f(vectors[i])];
        i := i + 1;
      }
    }

    /**
     * `vectordb_apply_to_range`: when low <= high < size, `f` is applied to the vectors at
     * positions low..high and no other; otherwise the database is unchanged.
     */
    method ApplyToRange(f: VectorData -> VectorData, low: uint32, high: uint32)
      requires Valid()
      modifies this
      ensures Valid() && size == old(size) && dim == old(dim)
      ensures forall k :: 0 <= k < size ==>
        vectors[k] == if low <= k <= high < size then f(old(vectors[k])) else old(vectors[k])
    {
      if low <= high < size {
        var i := low;
        while i <= high
          invariant low <= i <= high + 1 && Valid() && size == old(size) && dim == old(dim)
          invariant forall k :: 0 <= k < size ==>
            vectors[k] == if low <= k < i then f(old(vectors[k])) else old(vectors[k])
        {
          vectors := vectors[i := f(vectors[i])];
          i := i + 1;
        }
      }
    }

    /**
     * `vectordb_apply_to_multi`: `f` is applied once per entry of `positions` naming an
     * in-range position; out-of-range positions are skipped.
     */
    method ApplyToMulti(f: VectorData -> VectorData, positions: List)
      requires Valid()
      modifies this
      ensures Valid() && size == old(size) && dim == old(dim)
      ensures forall k :: 0 <= k < size ==> vectors[k] == Iterate(f, Occurrences(positions, k), old(vectors[k]))
    {
      var i := 0;
      while i < |positions|
        invariant 0 <= i <= |positions| && Valid() && size == old(size) && dim == old(dim)
        invariant forall k :: 0 <= k < size ==> vectors[k] == Iterate(f, Occurrences(positions[..i], k), old(vectors[k]))
      {
        var pos := positions[i].item;
        assert positions[..i + 1][..i] == positions[..i];
        if pos < size {
          vectors := vectors[pos := f(vectors[pos])];
        }
        i := i + 1;
      }
      assert positions[..|positions|] == positions;
    }

    /** `vectordb_push`: the vector becomes the last one; earlier vectors are unchanged. */
    method Push(v: Vector)
      requires Valid() && v.Valid() && size + 1 < TwoTo32
      modifies this
      ensures Valid() && size == old(size) + 1 && dim == old(dim)
      ensures vectors == old(vectors) + [v.data]
    {
      var newSize := size + 1;
      vectors := vectors + [v.data];
      size := newSize;
    }

    /** `vectordb_pop`: removes the last vector (the size is decremented unchecked, so it must be positive). */
    method Pop()
      requires Valid() && size > 0
      modifies this
      ensures Valid() && size == old(size) - 1 && dim == old(dim)
      ensures vectors == old(vectors)[..old(size) - 1]
    {
      size := size - 1;
      vectors := vectors[..size];
    }

    /** `vectordb_pop_multi` as written: see `PopMultiAsWrittenResult`. */
    method PopMultiAsWritten(number: uint32)
      requires Valid() && number <= size
      modifies this
      ensures Valid() && size == old(size) - number && dim == old(dim)
      ensures vectors == PopMultiAsWrittenResult(old(vectors), number)
    {
      ApplyToRange(Destroyed, Sub32(Sub32(size, number), 1), Sub32(size, 1));
      size := size - number;
      vectors := vectors[..size];
    }

    /** `vectordb_pop_multi` as intended: the last `number` vectors are removed and the rest kept intact. */
    method PopMulti(number: uint32)
      requires Valid() && number <= size
      modifies this
      ensures Valid() && size == old(size) - number && dim == old(dim)
      ensures vectors == old(vectors)[..old(size) - number]
    {
      ApplyToRange(Destroyed, Sub32(size, number), Sub32(size, 1));
      size := size - number;
      vectors := vectors[..size];
    }

    /** `vectordb_pop_until`: keeps exactly the vectors at positions 0..last-1. */
    method PopUntil(last: uint32)
      requires Valid() && last <= size
      modifies this
      ensures Valid() && size == last && dim == old(dim)
      ensures vectors == old(vectors)[..last]
    {
      ApplyToRange(Destroyed, last, Sub32(size, 1));
      size := last;
      vectors := vectors[..size];
    }

    /** `vectordb_delete_position`: the vector at `position` is removed and the later ones move down. */
    method DeletePosition(position: uint32)
      requires Valid() && position < size
      modifies this
      ensures Valid() && size == old(size) - 1 && dim == old(dim)
      ensures vectors == old(vectors)[..position] + old(vectors)[position + 1..]
    {
      vectors := vectors[position := []];
      var newSize := size - 1;
      vectors := vectors[..position] + vectors[position + 1..];
      size := newSize;
    }

    /**
     * `vectordb_delete_range`: the vectors at positions low..high (inclusive) are removed;
     * the others keep their relative order.
     */
    method DeleteRange(low: uint32, high: uint32)
      requires Valid() && low <= high < size
      modifies this
      ensures Valid() && size == old(size) - (high - low + 1) && dim == old(dim)
      ensures vectors == old(vectors)[..low] + old(vectors)[high + 1..]
    {
      ApplyToRange(Destroyed, low, high);
      var range := high - low + 1;
      var newSize := size - range;
      vectors := vectors[..low] + vectors[high + 1..];
      size := newSize;
    }

    /** `vectordb_insert`: the vector is placed at `position` and the later ones move up. */
    method Insert(v: Vector, position: uint32)
      requires Valid() && v.Valid() && position <= size && size + 1 < TwoTo32
      modifies this
      ensures Valid() && size == old(size) + 1 && dim == old(dim)
      ensures vectors == old(vectors)[..position] + [v.data] + old(vectors)[position..]
    {
      var newSize := size + 1;
      var moved := vectors[..position] + [v.data];
      if position < size {
        moved := moved + vectors[position..];
      }
      vectors := moved;
      size := newSize;
    }

    /** `vectordb_append`: the other database's vectors are added after this one's; the other is unchanged. */
    method Append(other: VectorDB)
      requires Valid() && other.Valid() && size + other.size < TwoTo32
      modifies this
      ensures Valid() && size == old(size) + old(other.size) && dim == old(dim)
      ensures vectors == old(vectors) + old(other.vectors)
      ensures other != this ==> other.vectors == old(other.vectors) && other.size == old(other.size)
    {
      var newSize := size + other.size;
      vectors := vectors + other.vectors;
      size := newSize;
    }
  }
}
