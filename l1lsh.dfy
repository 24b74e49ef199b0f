/**
 * LSH for the L1 distance (l1lsh.c). A list of non-negative integer values, one per
 * dimension, is embedded in Hamming space by writing each value in unary; the hash
 * keeps `tuple_size` sampled bits of that embedding. Per dimension, the number of
 * sampled bits that are set is combined with random coefficients into a universal
 * hash, which picks the bucket and the tag that linear probing compares.
 */
module L1Lsh {
  import opened Base
  import opened Arith
  import opened Sorting
  import opened Counting
  import opened Lists
  import opened Buckets

  /** `LARGEST_PRIME`: the largest prime below 2^32, modulus of the second-level hash. */
  const LargestPrime: nat := 4294967291

  /** A sample bit: position `loc` of the unary code of dimension `dim`. */
  datatype SampleBit = SampleBit(loc: uint32, dim: uint32)

  /** `l1lsh_sample_bit_compare`: lexicographic by dimension, then location. */
  function SampleBitCompare(x: SampleBit, y: SampleBit): (r: int)
    ensures r == 0 <==> x == y
    ensures r == -1 <==> x.dim < y.dim || (x.dim == y.dim && x.loc < y.loc)
    ensures r == 1 <==> x.dim > y.dim || (x.dim == y.dim && x.loc > y.loc)
  {
    if x.dim < y.dim then -1
    else if x.dim > y.dim then 1
    else if x.loc < y.loc then -1
    else if x.loc > y.loc then 1
    else 0
  }

  /** The integer the comparator orders by: the dimension, then the location. */
  function SampleKey(s: SampleBit): int
  {
    s.dim * TwoTo32 + s.loc
  }

  /** The comparator is the order of `SampleKey`, a total order in which only equal bits tie. */
  lemma SampleKeyOrder(x: SampleBit, y: SampleBit)
    ensures SampleBitCompare(x, y) < 0 <==> SampleKey(x) < SampleKey(y)
    ensures SampleBitCompare(x, y) == 0 <==> SampleKey(x) == SampleKey(y)
    ensures SampleBitCompare(x, y) > 0 <==> SampleKey(x) > SampleKey(y)
  {
  }

  /** `x` sorts before `y`: a lower dimension, or the same dimension and a lower location. */
  predicate Precedes(x: SampleBit, y: SampleBit)
  {
    x.dim < y.dim || (x.dim == y.dim && x.loc < y.loc)
  }

  /** Ascending dimensions, and strictly ascending locations within a dimension. */
  ghost predicate Ordered(bits: seq<SampleBit>)
  {
    forall j, k {:trigger Precedes(bits[j], bits[k])} :: 0 <= j < k < |bits| ==> Precedes(bits[j], bits[k])
  }

  lemma StrictlySortedIsOrdered(bits: seq<SampleBit>)
    requires StrictlySortedByKey(bits, SampleKey)
    ensures Ordered(bits)
  {
    forall j, k | 0 <= j < k < |bits|
      ensures Precedes(bits[j], bits[k])
    {
      SampleKeyOrder(bits[j], bits[k]);
    }
  }

  function InDim(d: nat): SampleBit -> bool
  {
    (s: SampleBit) => s.dim == d
  }

  function BelowDim(d: nat): SampleBit -> bool
  {
    (s: SampleBit) => s.dim < d
  }

  function SetFor(d: nat, freq: nat): SampleBit -> bool
  {
    (s: SampleBit) => s.dim == d && s.loc <= freq
  }

  /** Number of sample bits in dimension d: what `number_of_samples[d]` is meant to hold. */
  function DimCount(bits: seq<SampleBit>, d: nat): nat
  {
    Count(bits, InDim(d))
  }

  /** Number of sample bits in the dimensions below d. */
  function Below(bits: seq<SampleBit>, d: nat): nat
  {
    Count(bits, BelowDim(d))
  }

  /**
   * Number of sample bits of dimension d at a location of at most `freq`: the sampled bits
   * that are set in the unary code of `freq`.
   */
  function Ones(bits: seq<SampleBit>, d: nat, freq: nat): nat
  {
    Count(bits, SetFor(d, freq))
  }

  /** The first position whose dimension is not below d. */
  lemma SplitAt(bits: seq<SampleBit>, d: nat) returns (c: nat)
    requires Ordered(bits)
    ensures c <= |bits|
    ensures forall k :: 0 <= k < |bits| ==> (k < c <==> bits[k].dim < d)
  {
    c := 0;
    while c < |bits| && bits[c].dim < d
      invariant c <= |bits| && forall k :: 0 <= k < c ==> bits[k].dim < d
    {
      c := c + 1;
    }
    forall k | c < k < |bits|
      ensures bits[k].dim >= d
    {
      assert Precedes(bits[c], bits[k]);
    }
  }

  /** In ordered sample bits, those of the dimensions below d come first. */
  lemma BelowIsPrefix(bits: seq<SampleBit>, d: nat)
    requires Ordered(bits)
    ensures forall k :: 0 <= k < |bits| ==> (k < Below(bits, d) <==> bits[k].dim < d)
  {
    var c := SplitAt(bits, d);
    CountInterval(bits, BelowDim(d), 0, c);
  }

  /** In ordered sample bits, dimension d's bits are the block Below(d) .. Below(d + 1) - 1. */
  lemma Block(bits: seq<SampleBit>, d: nat)
    requires Ordered(bits)
    ensures Below(bits, d) <= Below(bits, d + 1)
    ensures Below(bits, d + 1) == Below(bits, d) + DimCount(bits, d)
    ensures forall k :: Below(bits, d) <= k < Below(bits, d + 1) ==> bits[k].dim == d
  {
    BelowIsPrefix(bits, d);
    BelowIsPrefix(bits, d + 1);
    CountMono(bits, BelowDim(d), BelowDim(d + 1));
    CountInterval(bits, InDim(d), Below(bits, d), Below(bits, d + 1));
  }

  /**
   * Within dimension d's block the locations ascend, so the bits set for `freq` are the first
   * m - Below(d) of the block, where m is the first position whose location exceeds `freq`.
   */
  lemma OnesInBlock(bits: seq<SampleBit>, d: nat, freq: nat, m: nat)
    requires Ordered(bits)
    requires Below(bits, d) <= m <= Below(bits, d + 1)
    requires m > Below(bits, d) ==> bits[m - 1].loc <= freq
    requires m < Below(bits, d + 1) ==> bits[m].loc > freq
    ensures Ones(bits, d, freq) == m - Below(bits, d)
  {
    Block(bits, d);
    BelowIsPrefix(bits, d);
    BelowIsPrefix(bits, d + 1);
    var lo, hi := Below(bits, d), Below(bits, d + 1);
    forall k | 0 <= k < |bits|
      ensures SetFor(d, freq)(bits[k]) <==> lo <= k < m
    {
      if lo <= k < m - 1 {
        assert Precedes(bits[k], bits[m - 1]);
      }
      if m < k < hi {
        assert Precedes(bits[m], bits[k]);
      }
    }
    CountInterval(bits, SetFor(d, freq), lo, m);
  }

  /** Number of leading dimensions the hash loop visits: up to the last sampled dimension. */
  function SampledDims(bits: seq<SampleBit>): nat
  {
    if bits == [] then 0 else bits[|bits| - 1].dim + 1
  }

  /** The hash loop reaches the end of the sample bits exactly after the last sampled dimension. */
  lemma SampledDimsBlocks(bits: seq<SampleBit>)
    requires Ordered(bits)
    ensures forall i :: 0 <= i < SampledDims(bits) ==> Below(bits, i) < |bits|
    ensures forall i :: i >= SampledDims(bits) ==> Below(bits, i) == |bits|
  {
    forall i | 0 <= i < SampledDims(bits)
      ensures Below(bits, i) < |bits|
    {
      BelowIsPrefix(bits, i);
    }
    forall i | i >= SampledDims(bits)
      ensures Below(bits, i) == |bits|
    {
      forall k | 0 <= k < |bits| - 1
        ensures bits[k].dim < i
      {
        assert Precedes(bits[k], bits[|bits| - 1]);
      }
      CountAll(bits, BelowDim(i));
    }
  }

  /**
   * The first-level hash of a list: for each visited dimension, how many of its sampled bits
   * are set in the unary code of the list's value there. The list is read by position, one
   * entry per dimension.
   */
  function Signature(bits: seq<SampleBit>, list: List): (s: seq<nat>)
    requires SampledDims(bits) <= |list|
    ensures |s| == SampledDims(bits)
    ensures forall d :: 0 <= d < |s| ==> s[d] == Ones(bits, d, list[d].freq)
  {
    seq(SampledDims(bits), d requires 0 <= d < SampledDims(bits) => Ones(bits, d, list[d].freq))
  }

  /**
   * The signature depends only on the sampled bits: lists whose unary codes agree on every
   * sample bit have the same signature, hence the same hash value and bucket index.
   */
  lemma SignatureDependsOnSampledBits(bits: seq<SampleBit>, list1: List, list2: List)
    requires SampledDims(bits) <= |list1| && SampledDims(bits) <= |list2|
    requires forall k :: 0 <= k < |bits| && bits[k].dim < SampledDims(bits) ==>
      (bits[k].loc <= list1[bits[k].dim].freq <==> bits[k].loc <= list2[bits[k].dim].freq)
    ensures Signature(bits, list1) == Signature(bits, list2)
  {
    forall d | 0 <= d < SampledDims(bits)
      ensures Ones(bits, d, list1[d].freq) == Ones(bits, d, list2[d].freq)
    {
      CountSame(bits, SetFor(d, list1[d].freq), SetFor(d, list2[d].freq));
    }
  }

  /**
   * The second-level hash with coefficients `coef`: the inner product with the signature,
   * reduced modulo 2^64 (the `ullong` accumulator) and then modulo `LargestPrime`.
   */
  function HashOf(coef: seq<uint32>, bits: seq<SampleBit>, list: List): (h: nat)
    requires SampledDims(bits) <= |coef| && SampledDims(bits) <= |list|
    ensures h < LargestPrime
  {
    (Dot(coef, Signature(bits, list)) % TwoTo64) % LargestPrime
  }

  /**
   * The per-dimension count of `l1lsh_compute_hash_value` as written, for the block of
   * `count` sample bits starting at `low`, when every read stays in range.
   */
  function DimOnesAsWritten(bits: seq<SampleBit>, list: List, i: nat, low: nat, count: nat): int
    requires low < |bits| && 1 <= low + count <= |bits|
    requires bits[low].dim < |list| && i < |list|
  {
    var high := low + count - 1;
    if bits[low].loc > list[bits[low].dim].freq then 0
    else if bits[high].loc <= list[i].freq then high - low + 1
    else Narrow(bits, list[i].freq, low, high) + 1 - low
  }

  /** The binary search of `l1lsh_compute_hash_value`: the last position whose location is at most `freq`. */
  function Narrow(bits: seq<SampleBit>, freq: nat, low: nat, high: int): nat
    requires high < |bits|
    decreases high - low
  {
    if low + 1 < high then
      var mid := (low + high) / 2;
      if bits[mid].loc <= freq then Narrow(bits, freq, mid, high) else Narrow(bits, freq, low, mid)
    else low
  }

  /**
   * A dimension without sample bits: with bits (loc 3, dim 0) and (loc 0, dim 2), dimension 1
   * has none, yet the code as written counts 1 for it when the list's value in dimension 1
   * is below 3 and 0 otherwise. Two lists that agree on both sample bits (values 5 and 0 in
   * dimensions 0 and 2) but hold 1 and 5 in dimension 1 thus get different counts, where the
   * signature gives both 0.
   */
  lemma EmptyDimensionCountsAsWritten()
    ensures DimOnesAsWritten([SampleBit(3, 0), SampleBit(0, 2)], [Item(0, 5), Item(1, 1), Item(2, 0)], 1, 1, 0) == 1
    ensures DimOnesAsWritten([SampleBit(3, 0), SampleBit(0, 2)], [Item(0, 5), Item(1, 5), Item(2, 0)], 1, 1, 0) == 0
    ensures Ones([SampleBit(3, 0), SampleBit(0, 2)], 1, 1) == 0
    ensures Ones([SampleBit(3, 0), SampleBit(0, 2)], 1, 5) == 0
  {
    var bits := [SampleBit(3, 0), SampleBit(0, 2)];
    CountNone(bits, SetFor(1, 1));
    CountNone(bits, SetFor(1, 5));
  }

  /**
   * The binary search keeps a bit at or below `freq` at `low` and one past it at `high`, so it
   * ends on the last position at or below `freq` before the first one past it.
   */
  lemma {:induction false} NarrowFindsBoundary(bits: seq<SampleBit>, freq: nat, low: nat, high: nat)
    requires low < high < |bits| && bits[low].loc <= freq < bits[high].loc
    ensures var r := Narrow(bits, freq, low, high);
      low <= r < high && bits[r].loc <= freq < bits[r + 1].loc
    decreases high - low
  {
    if low + 1 < high {
      var mid := (low + high) / 2;
      if bits[mid].loc <= freq {
        NarrowFindsBoundary(bits, freq, mid, high);
      } else {
        NarrowFindsBoundary(bits, freq, low, mid);
      }
    }
  }

  /**
   * On a dimension with at least one sample bit, the count as written is the number of set
   * bits: the code and the signature part only on dimensions without sample bits.
   */
  lemma AsWrittenCountsNonEmptyBlock(bits: seq<SampleBit>, list: List, i: nat)
    requires Ordered(bits) && i < |list| && DimCount(bits, i) > 0
    ensures Below(bits, i) + DimCount(bits, i) <= |bits| && bits[Below(bits, i)].dim == i
    ensures DimOnesAsWritten(bits, list, i, Below(bits, i), DimCount(bits, i)) == Ones(bits, i, list[i].freq)
  {
    Block(bits, i);
    var low, high, f := Below(bits, i), Below(bits, i) + DimCount(bits, i) - 1, list[i].freq;
    assert Below(bits, i + 1) <= |bits|;
    if bits[low].loc > f {
      OnesInBlock(bits, i, f, low);
    } else if bits[high].loc <= f {
      OnesInBlock(bits, i, f, high + 1);
    } else {
      NarrowFindsBoundary(bits, f, low, high);
      OnesInBlock(bits, i, f, Narrow(bits, f, low, high) + 1);
    }
  }

  function IsSet(b: bool): bool
  {
    b
  }

  /** The number of cells of the dim × max_value grid. */
  function GridCells(dims: nat, maxValue: nat): nat
  {
    dims * maxValue
  }

  /** The cell of the dim × max_value grid that `usedbits` gives a sample bit. */
  function Cell(s: SampleBit, dims: nat, maxValue: nat): (c: nat)
    requires s.dim < dims && s.loc < maxValue
    ensures c < GridCells(dims, maxValue)
  {
    GridBound(s.dim, s.loc, dims, maxValue);
    s.dim * maxValue + s.loc
  }

  /** The sample bit whose cell is `c`: row c / max_value, column c % max_value. */
  function CellBit(c: nat, dims: uint32, maxValue: uint32): (s: SampleBit)
    requires c < GridCells(dims, maxValue)
    ensures s.dim < dims && s.loc < maxValue && Cell(s, dims, maxValue) == c
  {
    GridSplit(c, dims, maxValue);
    SampleBit(c % maxValue, c / maxValue)
  }

  /** Fewer cells set than there are cells: some cell is free. */
  lemma FreeCell(s: seq<bool>) returns (k: nat)
    requires Count(s, IsSet) < |s|
    ensures k < |s| && !s[k]
  {
    if forall j :: 0 <= j < |s| ==> s[j] {
      CountAll(s, IsSet);
      assert false;
    }
    k :| 0 <= k < |s| && !s[k];
  }

  lemma CountSetCell(s: seq<bool>, c: nat)
    requires c < |s| && !s[c]
    ensures Count(s[c := true], IsSet) == Count(s, IsSet) + 1
  {
    var s' := s[c := true];
    CountRemoveAt(s, c, IsSet);
    CountRemoveAt(s', c, IsSet);
    assert s'[..c] + s'[c + 1..] == s[..c] + s[c + 1..];
  }

  lemma DimCountAppend(bits: seq<SampleBit>, x: SampleBit, d: nat)
    ensures DimCount(bits + [x], d) == DimCount(bits, d) + if x.dim == d then 1 else 0
  {
    assert (bits + [x])[..|bits|] == bits;
  }

  /** The counts after one increment per bit, of the bit's dimension (dimensions past the end are skipped). */
  function AddCounts(counts: seq<nat>, bits: seq<SampleBit>): (r: seq<nat>)
    ensures |r| == |counts|
  {
    if bits == [] then counts
    else
      var r := AddCounts(counts, bits[..|bits| - 1]);
      var d := bits[|bits| - 1].dim;
      if d < |r| then r[d := r[d] + 1] else r
  }

  lemma AddCountsAppend(counts: seq<nat>, bits: seq<SampleBit>, x: SampleBit)
    requires x.dim < |counts|
    ensures AddCounts(counts, bits + [x]) == AddCounts(counts, bits)[x.dim := AddCounts(counts, bits)[x.dim] + 1]
  {
    assert (bits + [x])[..|bits|] == bits;
  }

  /** Each count grows by the number of bits in its dimension. */
  lemma {:induction false} AddCountsDimCount(counts: seq<nat>, bits: seq<SampleBit>, d: nat)
    requires d < |counts|
    ensures AddCounts(counts, bits)[d] == counts[d] + DimCount(bits, d)
  {
    if bits != [] {
      var n := |bits|;
      AddCountsDimCount(counts, bits[..n - 1], d);
      assert bits == bits[..n - 1] + [bits[n - 1]];
      DimCountAppend(bits[..n - 1], bits[n - 1], d);
    }
  }

  /**
   * The state of the drawing loop: the drawn bits lie in the grid, are distinct, and are
   * exactly the cells marked in `used`.
   */
  ghost predicate Drawn(drawn: seq<SampleBit>, used: seq<bool>, dims: nat, maxValue: nat)
    requires |used| == GridCells(dims, maxValue)
  {
    (forall k :: 0 <= k < |drawn| ==> drawn[k].dim < dims && drawn[k].loc < maxValue) &&
    (forall k :: 0 <= k < |drawn| ==> used[Cell(drawn[k], dims, maxValue)]) &&
    Distinct(drawn) &&
    Count(used, IsSet) == |drawn|
  }

  /** Drawing a free cell keeps the loop state. */
  lemma DrawStep(drawn: seq<SampleBit>, used: seq<bool>, dims: nat, maxValue: nat, c: nat, bit: SampleBit)
    requires |used| == GridCells(dims, maxValue) && Drawn(drawn, used, dims, maxValue)
    requires c < |used| && !used[c]
    requires bit.dim < dims && bit.loc < maxValue && Cell(bit, dims, maxValue) == c
    ensures Drawn(drawn + [bit], used[c := true], dims, maxValue)
  {
    forall k | 0 <= k < |drawn|
      ensures drawn[k] != bit
    {
      assert used[Cell(drawn[k], dims, maxValue)];
    }
    CountSetCell(used, c);
    var drawn' := drawn + [bit];
    forall k | 0 <= k < |drawn'|
      ensures used[c := true][Cell(drawn'[k], dims, maxValue)]
    {
      if k < |drawn| {
        assert drawn'[k] == drawn[k];
      }
    }
  }

  /**
   * One draw of `l1lsh_generate_sample_bits`: a cell not yet in `usedbits` becomes the next
   * sample bit and is marked. The source redraws with `rand()` until it hits such a cell;
   * the model takes any of them.
   */
  method DrawCell(usedBits: array<bool>, ghost drawn: seq<SampleBit>, dim: uint32, maxValue: uint32)
    returns (bit: SampleBit)
    requires usedBits.Length == GridCells(dim, maxValue) && Drawn(drawn, usedBits[..], dim, maxValue)
    requires |drawn| < usedBits.Length
    modifies usedBits
    ensures bit.dim < dim && bit.loc < maxValue
    ensures Drawn(drawn + [bit], usedBits[..], dim, maxValue)
  {
    ghost var free := FreeCell(usedBits[..]);
    var c :| 0 <= c < usedBits.Length && !usedBits[c];
    bit := CellBit(c, dim, maxValue);
    ghost var before := usedBits[..];
    DrawStep(drawn, before, dim, maxValue, c, bit);
    usedBits[c] := true;
    assert usedBits[..] == before[c := true];
  }

  /**
   * `l1lsh_generate_sample_bits`: draws `tuple_size` distinct cells of the dim × max_value
   * grid, adds each one to its dimension's count, and sorts the bits with the comparator.
   * The counts are added to, not reset (see the findings).
   */
  method GenerateSampleBits(dim: uint32, maxValue: uint32, tupleSize: uint32,
                            sampleBits: array<SampleBit>, numberOfSamples: array<nat>)
    requires sampleBits.Length == tupleSize && numberOfSamples.Length == dim
    requires tupleSize <= GridCells(dim, maxValue) < TwoTo32
    modifies sampleBits, numberOfSamples
    ensures StrictlySortedByKey(sampleBits[..], SampleKey)
    ensures forall k :: 0 <= k < tupleSize ==> sampleBits[k].dim < dim && sampleBits[k].loc < maxValue
    ensures forall d :: 0 <= d < dim ==>
      numberOfSamples[d] == old(numberOfSamples[d]) + DimCount(sampleBits[..], d)
  {
    ghost var counts := numberOfSamples[..];
    DrawSampleBits(dim, maxValue, tupleSize, sampleBits, numberOfSamples);
    ghost var drawn := sampleBits[..];
    forall d | 0 <= d < dim
      ensures numberOfSamples[d] == counts[d] + DimCount(drawn, d)
    {
      AddCountsDimCount(counts, drawn, d);
    }
    var sorted := SortByKey(sampleBits[..], SampleKey);
    assert |multiset(sorted)| == |multiset(drawn)|;
    forall k | 0 <= k < sampleBits.Length {
      sampleBits[k] := sorted[k];
    }
    assert sampleBits[..] == sorted;
    SortedDraw(drawn, sorted, dim, maxValue);
  }

  /** `number_of_samples[d]++`: one more sample bit in dimension `d`. */
  method Bump(counts: array<nat>, d: nat)
    requires d < counts.Length
    modifies counts
    ensures counts[..] == old(counts[..])[d := old(counts[d]) + 1]
  {
    counts[d] := counts[d] + 1;
  }

  /** `indices[i] = v`. */
  method SetIndex(indices: array<nat>, i: nat, v: nat)
    requires i < indices.Length
    modifies indices
    ensures indices[..] == old(indices[..])[i := v]
  {
    indices[i] := v;
  }

  /** The drawing loop of `l1lsh_generate_sample_bits`, before the sort. */
  method DrawSampleBits(dim: uint32, maxValue: uint32, tupleSize: uint32,
                        sampleBits: array<SampleBit>, numberOfSamples: array<nat>)
    requires sampleBits.Length == tupleSize && numberOfSamples.Length == dim
    requires tupleSize <= GridCells(dim, maxValue)
    modifies sampleBits, numberOfSamples
    ensures Distinct(sampleBits[..])
    ensures forall k :: 0 <= k < tupleSize ==> sampleBits[k].dim < dim && sampleBits[k].loc < maxValue
    ensures numberOfSamples[..] == AddCounts(old(numberOfSamples[..]), sampleBits[..])
  {
    var usedBits := new bool[GridCells(dim, maxValue)](_ => false);
    CountNone(usedBits[..], IsSet);
    ghost var counts := numberOfSamples[..];
    for i := 0 to tupleSize
      invariant Drawn(sampleBits[..i], usedBits[..], dim, maxValue)
      invariant numberOfSamples[..] == AddCounts(counts, sampleBits[..i])
    {
      DrawNext(usedBits, sampleBits, numberOfSamples, i, dim, maxValue, counts);
    }
    assert sampleBits[..] == sampleBits[..tupleSize];
  }

  /** One round of the drawing loop: bit i is drawn and counted. */
  method DrawNext(usedBits: array<bool>, sampleBits: array<SampleBit>, numberOfSamples: array<nat>,
                  i: nat, dim: uint32, maxValue: uint32, ghost counts: seq<nat>)
    requires usedBits.Length == GridCells(dim, maxValue) && sampleBits.Length <= usedBits.Length
    requires i < sampleBits.Length && numberOfSamples.Length == dim
    requires Drawn(sampleBits[..i], usedBits[..], dim, maxValue)
    requires numberOfSamples[..] == AddCounts(counts, sampleBits[..i])
    modifies usedBits, sampleBits, numberOfSamples
    ensures Drawn(sampleBits[..i + 1], usedBits[..], dim, maxValue)
    ensures numberOfSamples[..] == AddCounts(counts, sampleBits[..i + 1])
  {
    ghost var drawn := sampleBits[..i];
    ghost var counted := numberOfSamples[..];
    var bit := DrawCell(usedBits, drawn, dim, maxValue);
    assert sampleBits[..i] == drawn && numberOfSamples[..] == counted;
    AddCountsAppend(counts, drawn, bit);
    sampleBits[i] := bit;
    assert sampleBits[..i + 1] == drawn + [bit];
    ghost var used := usedBits[..];
    Bump(numberOfSamples, bit.dim);
    assert usedBits[..] == used && sampleBits[..i + 1] == drawn + [bit];
  }

  /** Sorting distinct drawn bits with the comparator orders them strictly and keeps each dimension's count. */
  lemma SortedDraw(drawn: seq<SampleBit>, sorted: seq<SampleBit>, dims: nat, maxValue: nat)
    requires Distinct(drawn) && SortedByKey(sorted, SampleKey) && multiset(sorted) == multiset(drawn)
    requires forall k :: 0 <= k < |drawn| ==> drawn[k].dim < dims && drawn[k].loc < maxValue
    ensures StrictlySortedByKey(sorted, SampleKey)
    ensures forall k :: 0 <= k < |sorted| ==> sorted[k].dim < dims && sorted[k].loc < maxValue
    ensures forall e :: DimCount(sorted, e) == DimCount(drawn, e)
  {
    DistinctPermutation(drawn, sorted);
    forall j, k | 0 <= j < k < |sorted|
      ensures SampleKey(sorted[j]) < SampleKey(sorted[k])
    {
      SampleKeyOrder(sorted[j], sorted[k]);
    }
    forall k | 0 <= k < |sorted|
      ensures sorted[k].dim < dims && sorted[k].loc < maxValue
    {
      assert sorted[k] in multiset(drawn);
    }
    forall e
      ensures DimCount(sorted, e) == DimCount(drawn, e)
    {
      CountPermutation(drawn, sorted, InDim(e));
    }
  }

  /**
   * A second round of sampling without resetting the counts: on a 1 × 1 grid the one sample
   * bit is drawn again, and its dimension's count becomes 2 where the bits hold only one.
   */
  lemma SecondRoundOvercounts()
    ensures AddCounts(AddCounts([0], [SampleBit(0, 0)]), [SampleBit(0, 0)]) == [2]
    ensures DimCount([SampleBit(0, 0)], 0) == 1
  {
    assert [SampleBit(0, 0)][..0] == [];
  }

  /** `list->data[k].freq`; an index past the end of the list reads a value the model does not know. */
  method ReadFreq(list: List, k: int) returns (f: nat)
    ensures 0 <= k < |list| ==> f == list[k].freq
  {
    if 0 <= k < |list| {
      f := list[k].freq;
    } else {
      f :| true;
    }
  }

  /** `coef[k]`; an index past the end reads a value the model does not know. */
  method ReadCoef(coef: seq<uint32>, k: int) returns (c: uint32)
    ensures 0 <= k < |coef| ==> c == coef[k]
  {
    if 0 <= k < |coef| {
      c := coef[k];
    } else {
      c :| true;
    }
  }

  /** `acc += (ullong) c * x` on the `ullong` accumulator, wrapping modulo 2^64. */
  function MulAdd64(acc: nat, c: uint32, x: nat): nat
  {
    (acc + c * x) % TwoTo64
  }

  /** One step of the `ullong` accumulator: it never overflows a term and keeps the sum modulo 2^64. */
  lemma DotStep(coef: seq<uint32>, hvs: seq<nat>, x: nat, acc: nat)
    requires |hvs| < |coef| && x < TwoTo32 && acc == Dot(coef, hvs) % TwoTo64
    ensures coef[|hvs|] * x < TwoTo64
    ensures MulAdd64(acc, coef[|hvs|], x) == Dot(coef, hvs + [x]) % TwoTo64
  {
    var c := coef[|hvs|];
    MulBelow(c, x, TwoTo32);
    DotAppend(coef, hvs, x);
    AddReduced(Dot(coef, hvs), c * x, TwoTo64);
  }

  /** The state of the hash loop of `l1lsh_compute_hash_value` after dimensions 0 .. i - 1. */
  ghost predicate HashProgress(bits: seq<SampleBit>, list: List, a: seq<uint32>, b: seq<uint32>,
                               i: nat, l: nat, hvs: seq<nat>, tempIndex: nat, tempHv: nat)
  {
    SampledDims(bits) <= |list| && SampledDims(bits) <= |a| && SampledDims(bits) <= |b| &&
    i <= SampledDims(bits) && l == Below(bits, i) && hvs == Signature(bits, list)[..i] &&
    tempIndex == Dot(a, hvs) % TwoTo64 && tempHv == Dot(b, hvs) % TwoTo64
  }

  lemma HashStart(bits: seq<SampleBit>, list: List, a: seq<uint32>, b: seq<uint32>)
    requires SampledDims(bits) <= |list| && SampledDims(bits) <= |a| && SampledDims(bits) <= |b|
    ensures HashProgress(bits, list, a, b, 0, 0, [], 0, 0)
  {
    CountNone(bits, BelowDim(0));
  }

  /**
   * While sample bits remain, the loop is at a sampled dimension, and adding that dimension's
   * count of set bits keeps the loop state.
   */
  lemma HashStep(bits: seq<SampleBit>, list: List, a: seq<uint32>, b: seq<uint32>,
                 i: nat, l: nat, hvs: seq<nat>, tempIndex: nat, tempHv: nat)
    requires Ordered(bits) && |bits| < TwoTo32
    requires HashProgress(bits, list, a, b, i, l, hvs, tempIndex, tempHv) && l < |bits|
    ensures i < SampledDims(bits) && Ones(bits, i, list[i].freq) < TwoTo32
    ensures HashProgress(bits, list, a, b, i + 1, l + DimCount(bits, i), hvs + [Ones(bits, i, list[i].freq)],
                         MulAdd64(tempIndex, a[i], Ones(bits, i, list[i].freq)),
                         MulAdd64(tempHv, b[i], Ones(bits, i, list[i].freq)))
  {
    SampledDimsBlocks(bits);
    Block(bits, i);
    var hv := Ones(bits, i, list[i].freq);
    DotStep(a, hvs, hv, tempIndex);
    DotStep(b, hvs, hv, tempHv);
    assert Signature(bits, list)[..i + 1] == hvs + [hv];
  }

  /** The loop stops after the last sampled dimension, with both accumulators complete. */
  lemma HashDone(bits: seq<SampleBit>, list: List, a: seq<uint32>, b: seq<uint32>, dim: nat,
                 i: nat, l: nat, hvs: seq<nat>, tempIndex: nat, tempHv: nat)
    requires Ordered(bits) && forall k :: 0 <= k < |bits| ==> bits[k].dim < dim
    requires HashProgress(bits, list, a, b, i, l, hvs, tempIndex, tempHv) && (i >= dim || l >= |bits|)
    ensures tempIndex % LargestPrime == HashOf(a, bits, list)
    ensures tempHv % LargestPrime == HashOf(b, bits, list)
  {
    SampledDimsBlocks(bits);
    assert hvs == Signature(bits, list);
  }

  /** The table part of the loop state of `l1lsh_store_listdb` after the first i lists. */
  ghost predicate TableSoFar(t0: Table, t: Table, lists: seq<List>, i: nat)
    requires i <= |lists|
  {
    Filled(t0, t, NonEmptyIds(lists[..i]), i)
  }

  /** Each non-empty list among the first i has its id in the bucket recorded for it. */
  ghost predicate Recorded(t: Table, lists: seq<List>, i: nat, idx: seq<nat>)
    requires i <= |lists| == |idx|
  {
    forall k :: 0 <= k < i && lists[k] != [] ==> idx[k] < |t.buckets| && Item(k, 1) in t.buckets[idx[k]].items
  }

  /** The entries of the indices not yet written, or belonging to empty lists, are as they were. */
  ghost predicate Untouched(lists: seq<List>, i: nat, idx0: seq<nat>, idx: seq<nat>)
  {
    |idx0| == |lists| && |idx| == |lists| &&
    forall k :: 0 <= k < |lists| && (i <= k || lists[k] == []) ==> idx[k] == idx0[k]
  }

  /** The loop state of `l1lsh_store_listdb` after the first i lists. */
  ghost predicate StoredSoFar(t0: Table, t: Table, lists: seq<List>, i: nat, idx0: seq<nat>, idx: seq<nat>)
  {
    i <= |lists| == |idx| && TableSoFar(t0, t, lists, i) && Recorded(t, lists, i, idx) && Untouched(lists, i, idx0, idx)
  }

  lemma UntouchedStep(lists: seq<List>, i: nat, idx0: seq<nat>, idx: seq<nat>, v: nat)
    requires i < |lists| && Untouched(lists, i, idx0, idx)
    ensures lists[i] == [] ==> Untouched(lists, i + 1, idx0, idx)
    ensures lists[i] != [] ==> Untouched(lists, i + 1, idx0, idx[i := v])
  {
  }

  lemma TableSkip(t0: Table, t: Table, lists: seq<List>, i: nat)
    requires i < |lists| && lists[i] == [] && TableSoFar(t0, t, lists, i)
    ensures TableSoFar(t0, t, lists, i + 1)
  {
    NonEmptyIdsPrefix(lists, i);
  }

  lemma TableStep(t0: Table, t: Table, lists: seq<List>, i: nat, start: nat, hv: nat)
    requires i < |lists| && lists[i] != [] && TableSoFar(t0, t, lists, i)
    requires start < |t.buckets| && Store(t, start, hv, i).0.Ok?
    ensures TableSoFar(t0, Store(t, start, hv, i).1, lists, i + 1)
  {
    FilledStep(t0, t, NonEmptyIds(lists[..i]), i, start, hv, i);
    NonEmptyIdsPrefix(lists, i);
  }

  lemma RecordedStep(t: Table, lists: seq<List>, i: nat, idx: seq<nat>, start: nat, hv: nat)
    requires i < |lists| == |idx| && Recorded(t, lists, i, idx)
    requires start < |t.buckets| && Store(t, start, hv, i).0.Ok?
    ensures Recorded(Store(t, start, hv, i).1, lists, i + 1, idx[i := Store(t, start, hv, i).0.value])
  {
    var t' := Store(t, start, hv, i).1;
    StoreGrows(t, start, hv, i);
    forall k | 0 <= k < i && lists[k] != []
      ensures Item(k, 1) in t'.buckets[idx[k]].items
    {
      GrowsKeepsItems(t.buckets, t'.buckets, idx[k], Item(k, 1));
    }
  }

  /** Before the first list, the loop state holds of the table and indices as they are. */
  lemma StoredStart(t0: Table, lists: seq<List>, idx0: seq<nat>)
    requires UsedExactly(t0) && |idx0| == |lists|
    ensures StoredSoFar(t0, t0, lists, 0, idx0, idx0)
  {
    assert lists[..0] == [];
  }

  /** Storing a non-empty list i under id i and recording its bucket advances the loop state. */
  lemma StoredStep(t0: Table, t: Table, lists: seq<List>, i: nat, idx0: seq<nat>, idx: seq<nat>, start: nat, hv: nat)
    requires i < |lists| && lists[i] != [] && StoredSoFar(t0, t, lists, i, idx0, idx)
    requires start < |t.buckets| && Store(t, start, hv, i).0.Ok?
    ensures StoredSoFar(t0, Store(t, start, hv, i).1, lists, i + 1, idx0, idx[i := Store(t, start, hv, i).0.value])
  {
    TableStep(t0, t, lists, i, start, hv);
    RecordedStep(t, lists, i, idx, start, hv);
    UntouchedStep(lists, i, idx0, idx, Store(t, start, hv, i).0.value);
  }

  /** An empty list i is skipped: the loop state advances with nothing changed. */
  lemma StoredSkip(t0: Table, t: Table, lists: seq<List>, i: nat, idx0: seq<nat>, idx: seq<nat>)
    requires i < |lists| && lists[i] == [] && StoredSoFar(t0, t, lists, i, idx0, idx)
    ensures StoredSoFar(t0, t, lists, i + 1, idx0, idx)
  {
    TableSkip(t0, t, lists, i);
    UntouchedStep(lists, i, idx0, idx, 0);
  }

  /** What the loop state of `l1lsh_store_listdb` gives once it stops, after i lists. */
  lemma StoredAll(t0: Table, t: Table, lists: seq<List>, i: nat, idx0: seq<nat>, idx: seq<nat>)
    requires StoredSoFar(t0, t, lists, i, idx0, idx)
    ensures Grows(t0.buckets, t.buckets) && (Clean(t0.buckets) ==> Clean(t.buckets))
    ensures |t.used| <= |t0.used| + i
    ensures forall k :: 0 <= k < |lists| && lists[k] == [] ==> idx[k] == idx0[k]
    ensures i == |lists| ==> RowsIds(Rows(t)) == RowsIds(Rows(t0)) + NonEmptyIds(lists)
    ensures i == |lists| ==> forall k :: 0 <= k < |lists| && lists[k] != [] ==>
      idx[k] < |t.buckets| && Item(k, 1) in t.buckets[idx[k]].items
  {
    assert lists[..|lists|] == lists;
  }

  /**
   * `HashTable` of l1lsh.h: the sample bits with their per-dimension counts, the coefficients
   * `a` and `b` of the universal hash, the buckets and the list of used buckets.
   */
  class HashTable {
    const tableSize: uint32
    const tupleSize: uint32
    const dim: uint32
    const maxValue: uint32
    const sampleBits: array<SampleBit>
    const numberOfSamples: array<nat>
    const buckets: array<Bucket>
    const a: seq<uint32>
    const b: seq<uint32>
    var usedBuckets: seq<nat>

    /** The buckets and `used_buckets` as a value. */
    function State(): Table
      reads this, buckets
    {
      Table(buckets[..], usedBuckets)
    }

    /** The array sizes `l1lsh_create` allocates, and the `used_buckets` invariant. */
    ghost predicate Valid()
      reads this, buckets
    {
      sampleBits.Length == tupleSize && numberOfSamples.Length == dim &&
      buckets.Length == tableSize && |a| == tupleSize && |b| == tupleSize &&
      UsedExactly(State())
    }

    /**
     * The sample bits as one call of `l1lsh_generate_sample_bits` on zeroed counts leaves
     * them: strictly ordered, inside the grid, and each dimension's count in `number_of_samples`.
     */
    ghost predicate Sampled()
      reads sampleBits, numberOfSamples
    {
      sampleBits.Length == tupleSize && numberOfSamples.Length == dim &&
      StrictlySortedByKey(sampleBits[..], SampleKey) &&
      (forall k :: 0 <= k < tupleSize ==> sampleBits[k].dim < dim && sampleBits[k].loc < maxValue) &&
      forall d :: 0 <= d < dim ==> numberOfSamples[d] == DimCount(sampleBits[..], d)
    }

    /**
     * The hash loop reads only inside the arrays for `list`: the list has an entry for every
     * visited dimension, and so do the coefficient arrays.
     */
    ghost predicate Good(list: List)
      reads sampleBits, numberOfSamples
    {
      Sampled() && SampledDims(sampleBits[..]) <= |list| &&
      SampledDims(sampleBits[..]) <= |a| && SampledDims(sampleBits[..]) <= |b|
    }

    /**
     * `l1lsh_create`: empty buckets, no used buckets, zeroed counts, and `tuple_size`
     * coefficients each in `a` and `b`, the low 32 bits of successive 64-bit draws
     * (a[i] from draw 2i, b[i] from draw 2i + 1). The sample bits are not yet drawn.
     */
    constructor Create(tableSize: uint32, tupleSize: uint32, dim: uint32, maxValue: uint32, draws: seq<nat>)
      requires |draws| == 2 * tupleSize
      ensures Valid() && fresh(sampleBits) && fresh(numberOfSamples) && fresh(buckets)
      ensures this.tableSize == tableSize && this.tupleSize == tupleSize
      ensures this.dim == dim && this.maxValue == maxValue
      ensures forall i :: 0 <= i < tupleSize ==> a[i] == draws[2 * i] % TwoTo32 && b[i] == draws[2 * i + 1] % TwoTo32
      ensures AllEmpty(buckets[..]) && usedBuckets == []
      ensures forall d :: 0 <= d < dim ==> numberOfSamples[d] == 0
    {
      this.tableSize := tableSize;
      this.tupleSize := tupleSize;
      this.dim := dim;
      this.maxValue := maxValue;
      sampleBits := new SampleBit[tupleSize];
      numberOfSamples := new nat[dim](_ => 0);
      buckets := new Bucket[tableSize](_ => EmptyBucket);
      usedBuckets := [];
      a := seq(tupleSize, i requires 0 <= i < tupleSize => draws[2 * i] % TwoTo32);
      b := seq(tupleSize, i requires 0 <= i < tupleSize => draws[2 * i + 1] % TwoTo32);
    }

    /**
     * A new draw of sample bits with the counts started from zero, as every mining round
     * needs: the corrected call of `l1lsh_generate_sample_bits` (see the findings).
     */
    method Resample()
      requires sampleBits.Length == tupleSize && numberOfSamples.Length == dim
      requires tupleSize <= GridCells(dim, maxValue) < TwoTo32
      modifies sampleBits, numberOfSamples
      ensures Sampled()
    {
      forall d | 0 <= d < numberOfSamples.Length {
        numberOfSamples[d] := 0;
      }
      GenerateSampleBits(dim, maxValue, tupleSize, sampleBits, numberOfSamples);
    }

    /** `sample_bits[k]`; an index outside the array reads a value the model does not know. */
    method ReadBit(k: int) returns (s: SampleBit)
      ensures 0 <= k < sampleBits.Length ==> s == sampleBits[k]
    {
      if 0 <= k < sampleBits.Length {
        s := sampleBits[k];
      } else {
        s :| true;
      }
    }

    /**
     * The count of dimension i in `l1lsh_compute_hash_value`, over the block of `count` sample
     * bits from position `low`: none for an empty block (the case the code as written gets
     * wrong, see the findings); 0 when the first bit lies past the list's value; the whole
     * block when the last one does not; otherwise the binary search for the last bit at or
     * below the value. On ordered bits and the true block this is the number of set bits.
     */
    method CountOnes(list: List, i: nat, low: nat, count: nat) returns (hv: int)
      requires low < sampleBits.Length
      ensures Ordered(sampleBits[..]) && low == Below(sampleBits[..], i) &&
              count == DimCount(sampleBits[..], i) && i < |list|
        ==> hv == Ones(sampleBits[..], i, list[i].freq)
    {
      ghost var bits := sampleBits[..];
      ghost var g := Ordered(bits) && low == Below(bits, i) && count == DimCount(bits, i) && i < |list|;
      if g {
        Block(bits, i);
      }
      if count == 0 {
        if g {
          OnesInBlock(bits, i, list[i].freq, low);
        }
        return 0;
      }
      var high := low + count - 1;
      var first := sampleBits[low];
      var f0 := ReadFreq(list, first.dim);
      if first.loc > f0 {
        if g {
          OnesInBlock(bits, i, list[i].freq, low);
        }
        return 0;
      }
      var last := ReadBit(high);
      var f := ReadFreq(list, i);
      if last.loc <= f {
        if g {
          OnesInBlock(bits, i, f, high + 1);
        }
        return high - low + 1;
      }
      var lo, hi := low, high;
      while lo + 1 < hi
        invariant g ==> low <= lo < hi <= high && bits[lo].loc <= f && bits[hi].loc > f
        decreases hi - lo
      {
        var mid := (lo + hi) / 2;
        var m := ReadBit(mid);
        if m.loc <= f {
          lo := mid;
        } else {
          hi := mid;
        }
      }
      if g {
        OnesInBlock(bits, i, f, lo + 1);
      }
      hv := lo + 1 - low;
    }

    /**
     * `l1lsh_compute_hash_value`: the per-dimension counts, combined with `a` into the index
     * and with `b` into the hash value. Reads past the end of the list or of `a` and `b` give
     * values the model does not know, so beyond the bounds only the ranges are stated.
     */
    method ComputeHashValue(list: List) returns (hashValue: nat, index: nat)
      requires sampleBits.Length == tupleSize && numberOfSamples.Length == dim && tableSize > 0
      ensures hashValue < LargestPrime && index < tableSize
      ensures Good(list) ==> hashValue == HashOf(b, sampleBits[..], list)
      ensures Good(list) ==> index == HashOf(a, sampleBits[..], list) % tableSize
    {
      ghost var bits := sampleBits[..];
      ghost var good := Good(list);
      if good {
        StrictlySortedIsOrdered(bits);
        HashStart(bits, list, a, b);
      }
      var tempIndex: nat, tempHv: nat := 0, 0;
      ghost var hvs: seq<nat> := [];
      var l: nat := 0;
      var i: nat := 0;
      while i < dim && l < tupleSize
        invariant good ==> HashProgress(bits, list, a, b, i, l, hvs, tempIndex, tempHv)
      {
        var count := numberOfSamples[i];
        if good {
          HashStep(bits, list, a, b, i, l, hvs, tempIndex, tempHv);
        }
        var ones := CountOnes(list, i, l, count);
        var hv := ones % TwoTo32;
        var ai := ReadCoef(a, i);
        var bi := ReadCoef(b, i);
        if good {
          assert hv == Ones(bits, i, list[i].freq) && ai == a[i] && bi == b[i];
        }
        tempIndex := MulAdd64(tempIndex, ai, hv);
        tempHv := MulAdd64(tempHv, bi, hv);
        hvs := hvs + [hv];
        l := l + count;
        i := i + 1;
      }
      if good {
        HashDone(bits, list, a, b, dim, i, l, hvs, tempIndex, tempHv);
      }
      hashValue := tempHv % LargestPrime;
      index := (tempIndex % LargestPrime) % tableSize;
    }

    /**
     * `l1lsh_get_index`: the hash value and start index of the list, then linear probing; the
     * bucket found is tagged with the hash value. A full table is an error.
     */
    method GetIndex(list: List) returns (r: Result<nat>, ghost hv: nat, ghost start: nat)
      requires Valid() && tableSize > 0
      modifies buckets
      ensures Valid() && start < tableSize && hv < LargestPrime
      ensures Good(list) ==> hv == HashOf(b, sampleBits[..], list) && start == HashOf(a, sampleBits[..], list) % tableSize
      ensures match FindSlot(old(buckets[..]), start, hv)
        case None => r == Err(TableFull) && buckets[..] == old(buckets[..])
        case Some(i) => r == Ok(i) && buckets[..] == Tagged(old(buckets[..]), i, hv)
    {
      var h, index := ComputeHashValue(list);
      hv, start := h, index;
      r := Probe(buckets, index, h);
      if r.Ok? {
        TaggedKeepsUsedExactly(old(State()), r.value, h);
      }
    }

    /**
     * `l1lsh_store_list`: the id is appended to the list's bucket, whose index joins
     * `used_buckets` when the bucket was empty. A full table is an error and changes nothing.
     */
    method StoreList(list: List, id: nat) returns (r: Result<nat>, ghost hv: nat, ghost start: nat)
      requires Valid() && tableSize > 0
      modifies this, buckets
      ensures Valid() && start < tableSize && hv < LargestPrime
      ensures Good(list) ==> hv == HashOf(b, sampleBits[..], list) && start == HashOf(a, sampleBits[..], list) % tableSize
      ensures (r, State()) == Store(old(State()), start, hv, id)
    {
      var h, index := ComputeHashValue(list);
      hv, start := h, index;
      r, usedBuckets := StoreIn(buckets, usedBuckets, index, h, id);
      StoreKeepsUsedExactly(old(State()), start, hv, id);
    }

    /**
     * One iteration of `l1lsh_store_listdb`: list i, when non-empty, is stored under id i and
     * its bucket written to `indices[i]`. On a full table nothing changes, and in a
     * power-of-two table that means every bucket is in use.
     */
    method StoreNext(lists: seq<List>, i: nat, indices: array<nat>, ghost t0: Table, ghost idx0: seq<nat>)
      returns (r: Outcome)
      requires Valid() && tableSize > 0 && i < |lists| == indices.Length
      requires StoredSoFar(t0, State(), lists, i, idx0, indices[..])
      modifies this, buckets, indices
      ensures Valid()
      ensures r.Pass? ==> StoredSoFar(t0, State(), lists, i + 1, idx0, indices[..])
      ensures r.Fail? ==> StoredSoFar(t0, State(), lists, i, idx0, indices[..])
      ensures r.Fail? && IsPowerOfTwo(tableSize) ==> |usedBuckets| == tableSize
    {
      ghost var t := State();
      ghost var idx := indices[..];
      r := Pass;
      if lists[i] != [] {
        var res, hv, start := StoreList(lists[i], i);
        if res.Err? {
          if IsPowerOfTwo(tableSize) {
            FullWhenProbeFails(t, start, hv);
          }
          return Fail(res.error);
        }
        ghost var t' := State();
        StoredStep(t0, t, lists, i, idx0, idx, start, hv);
        SetIndex(indices, i, res.value);
        assert State() == t' && indices[..] == idx[i := res.value];
      } else {
        StoredSkip(t0, t, lists, i, idx0, idx);
      }
    }

    /**
     * The loop of `l1lsh_store_listdb`: the lists are stored one after the other until all are
     * stored or one fails; `n` is how many were handled, and a failure in a power-of-two table
     * means every bucket is in use.
     */
    method StoreEach(lists: seq<List>, indices: array<nat>, ghost t0: Table, ghost idx0: seq<nat>)
      returns (r: Outcome, ghost n: nat)
      requires Valid() && tableSize > 0 && indices.Length == |lists|
      requires t0 == State() && idx0 == indices[..]
      modifies this, buckets, indices
      ensures Valid() && StoredSoFar(t0, State(), lists, n, idx0, indices[..])
      ensures r.Pass? ==> n == |lists|
      ensures r.Fail? && IsPowerOfTwo(tableSize) ==> n < |lists| && |usedBuckets| == tableSize
    {
      StoredStart(t0, lists, idx0);
      r := Pass;
      n := 0;
      var i := 0;
      while i < |lists|
        invariant 0 <= i <= |lists| && Valid() && r == Pass && n == i
        invariant StoredSoFar(t0, State(), lists, i, idx0, indices[..])
      {
        r := StoreNext(lists, i, indices, t0, idx0);
        if r.Fail? {
          return;
        }
        i := i + 1;
        n := i;
      }
    }

    /**
     * `l1lsh_store_listdb`: every non-empty list is stored under its position as id, and its
     * bucket is written to `indices` at that position; entries for empty lists are left as
     * they were. The source exits on a full table; the model stops with an error, which
     * cannot happen in a power-of-two table with room for one new bucket per list.
     */
    method StoreListDB(listdb: ListDB, indices: array<nat>) returns (r: Outcome)
      requires Valid() && tableSize > 0 && indices.Length == |listdb.lists|
      modifies this, buckets, indices
      ensures Valid()
      ensures Grows(old(buckets[..]), buckets[..])
      ensures Clean(old(buckets[..])) ==> Clean(buckets[..])
      ensures r.Pass? ==> RowsIds(Rows(State())) == RowsIds(Rows(old(State()))) + NonEmptyIds(listdb.lists)
      ensures r.Pass? ==> forall k :: 0 <= k < indices.Length && listdb.lists[k] != [] ==>
        indices[k] < tableSize && Item(k, 1) in buckets[indices[k]].items
      ensures forall k :: 0 <= k < indices.Length && listdb.lists[k] == [] ==> indices[k] == old(indices[k])
      ensures IsPowerOfTwo(tableSize) && |old(usedBuckets)| + |listdb.lists| <= tableSize ==> r.Pass?
    {
      ghost var t0 := State();
      ghost var idx0 := indices[..];
      ghost var n;
      r, n := StoreEach(listdb.lists, indices, t0, idx0);
      StoredAll(t0, State(), listdb.lists, n, idx0, indices[..]);
    }

    /**
     * `l1lsh_erase_from_index`: an in-range bucket is emptied, its hash value zeroed and its
     * index removed from `used_buckets`, which removes exactly that bucket's ids; an
     * out-of-range index changes nothing.
     */
    method EraseFromIndex(index: uint32)
      requires Valid()
      modifies this, buckets
      ensures Valid() && State() == Erase(old(State()), index)
      ensures index < tableSize ==>
        RowsIds(Rows(State())) + Ids(old(buckets[index].items)) == RowsIds(Rows(old(State())))
    {
      if index < tableSize {
        usedBuckets := EraseIn(buckets, usedBuckets, index);
        EraseRemovesIds(old(State()), index);
      }
    }

    /**
     * `l1lsh_erase_from_vector`: the bucket `l1lsh_get_index` finds for the list is erased as
     * by `l1lsh_erase_from_index`. A full table is an error and changes nothing.
     */
    method EraseFromList(list: List) returns (r: Result<nat>, ghost hv: nat, ghost start: nat)
      requires Valid() && tableSize > 0
      modifies this, buckets
      ensures Valid() && start < tableSize && hv < LargestPrime
      ensures Good(list) ==> hv == HashOf(b, sampleBits[..], list) && start == HashOf(a, sampleBits[..], list) % tableSize
      ensures match FindSlot(old(buckets[..]), start, hv)
        case None => r == Err(TableFull) && State() == old(State())
        case Some(i) => r == Ok(i) && State() == Erase(old(State()), i)
    {
      r, hv, start := GetIndex(list);
      if r.Ok? {
        usedBuckets := EraseIn(buckets, usedBuckets, r.value);
        EraseTagged(old(State()), r.value, hv);
        EraseKeepsUsedExactly(old(State()), r.value);
      }
    }

    /**
     * `l1lsh_clear_table`: every used bucket is reset and `used_buckets` emptied, which leaves
     * every bucket empty.
     */
    method ClearTable()
      requires Valid()
      modifies this, buckets
      ensures Valid() && State() == Cleared(old(State()))
      ensures forall j :: 0 <= j < tableSize ==> buckets[j].items == []
    {
      Reset(buckets, usedBuckets);
      usedBuckets := [];
      ClearedIsEmpty(old(State()));
    }
  }
}
