/**
 * Sampled-LSH mining (sampledlsh.c): for each of `number_of_tuples` rounds, new
 * hash functions are drawn, every row of the database is stored in the shared
 * hash table, and every used bucket's id list is moved out as a new row of the
 * co-occurrence database, which leaves the table empty for the next round.
 */
module SampledLsh {
  import opened Base
  import opened Lists
  import opened Buckets
  import opened VectorDBs
  import L1 = L1Lsh
  import Lp = LpLsh

  /**
   * The rows one round adds: together they hold exactly the ids stored that round, every row
   * is non-empty, and there are no more rows than buckets or than stored ids.
   */
  ghost predicate Round(round: seq<List>, ids: multiset<nat>, tableSize: nat)
  {
    RowsIds(round) == ids && |round| <= tableSize && |round| <= |ids| &&
    forall r :: 0 <= r < |round| ==> round[r] != []
  }

  /** The id lists of the used buckets of a table whose `used_buckets` invariant holds. */
  lemma RowsOfTable(t: Table)
    requires UsedExactly(t)
    ensures |Rows(t)| <= |t.buckets| && |Rows(t)| <= |RowsIds(Rows(t))|
    ensures forall r :: 0 <= r < |Rows(t)| ==> Rows(t)[r] != []
  {
    UsedBound(t);
    RowsBoundedByIds(Rows(t));
  }

  /** A non-empty bucket's id list is one of the rows its table drains into. */
  lemma BucketIsRow(t: Table, j: nat)
    requires UsedExactly(t) && j < |t.buckets| && t.buckets[j].items != []
    ensures t.buckets[j].items in Rows(t)
  {
  }

  /** The number of used buckets over a sequence of tables: the rows they drain into together. */
  function UsedCount(tables: seq<Table>): nat
  {
    if tables == [] then 0 else UsedCount(tables[..|tables| - 1]) + |tables[|tables| - 1].used|
  }

  /**
   * The rounds mined so far: round k's rows are the id lists of the used buckets of table k,
   * the table that storing left, and together they hold exactly `ids`.
   */
  ghost predicate Mined(rounds: seq<seq<List>>, tables: seq<Table>, ids: multiset<nat>, tableSize: nat)
  {
    |tables| == |rounds| &&
    forall k :: 0 <= k < |rounds| ==>
      Round(rounds[k], ids, tableSize) && UsedExactly(tables[k]) && |tables[k].buckets| == tableSize &&
      rounds[k] == Rows(tables[k])
  }

  lemma MinedStep(rounds: seq<seq<List>>, tables: seq<Table>, ids: multiset<nat>, tableSize: nat,
                  round: seq<List>, t: Table)
    requires Mined(rounds, tables, ids, tableSize)
    requires Round(round, ids, tableSize) && UsedExactly(t) && |t.buckets| == tableSize && round == Rows(t)
    ensures Mined(rounds + [round], tables + [t], ids, tableSize)
  {
  }

  /** Adding one round's rows to the output adds that round's used buckets to the count. */
  lemma UsedCountAppend(rounds: seq<seq<List>>, tables: seq<Table>, t: Table)
    requires |Concat(rounds)| == UsedCount(tables)
    requires forall k :: 0 <= k < |t.used| ==> t.used[k] < |t.buckets|
    ensures |Concat(rounds + [Rows(t)])| == UsedCount(tables + [t])
  {
  }

  /** A table with no used buckets has no rows and holds no ids. */
  lemma NoRows(t: Table)
    requires t.used == []
    ensures RowsIds(Rows(t)) == multiset{}
  {
    assert Rows(t) == [];
  }

  /**
   * In an L1 round every non-empty list's position is held by exactly one row, once, and no
   * other id is held by any row.
   */
  lemma L1RoundPartition(round: seq<List>, lists: seq<List>, x: nat)
    requires RowsIds(round) == NonEmptyIds(lists)
    ensures x < |lists| && lists[x] != [] ==> InExactlyOneRow(round, x)
    ensures !(x < |lists| && lists[x] != []) ==> forall r :: 0 <= r < |round| ==> x !in Ids(round[r])
  {
    NonEmptyIdsCount(lists, x);
    if x < |lists| && lists[x] != [] {
      OnceMeansOneRow(round, x);
    } else {
      AbsentFromRows(round, x);
    }
  }

  /** In an Lp round every vector's position is held by exactly one row, once, and nothing else. */
  lemma LpRoundPartition(round: seq<List>, n: nat, x: nat)
    requires RowsIds(round) == Positions(n)
    ensures x < n ==> InExactlyOneRow(round, x)
    ensures x >= n ==> forall r :: 0 <= r < |round| ==> x !in Ids(round[r])
  {
    PositionsCount(n, x);
    if x < n {
      OnceMeansOneRow(round, x);
    } else {
      AbsentFromRows(round, x);
    }
  }

  /**
   * `sampledlsh_l1_get_coitems`: each used bucket's id list is pushed onto `coitems`, in
   * `used_buckets` order, and the bucket reset; `used_buckets` is emptied. Every bucket is
   * then empty, and a table that was clean is back to its freshly created state.
   */
  method L1GetCoitems(coitems: ListDB, table: L1.HashTable)
    requires table.Valid()
    modifies coitems, table, table.buckets
    ensures coitems.lists == old(coitems.lists) + Rows(old(table.State())) && coitems.dim == old(coitems.dim)
    ensures table.Valid() && table.State() == Cleared(old(table.State()))
    ensures forall j :: 0 <= j < table.tableSize ==> table.buckets[j].items == []
    ensures old(Clean(table.buckets[..])) ==> AllEmpty(table.buckets[..])
  {
    Drain(table.buckets, table.usedBuckets, coitems);
    table.usedBuckets := [];
    ClearedIsEmpty(old(table.State()));
  }

  /** `sampledlsh_lp_get_coitems`: the same transfer and reset on the Lp table. */
  method LpGetCoitems(coitems: ListDB, table: Lp.HashTableLp)
    requires table.Valid()
    modifies coitems, table, table.buckets
    ensures coitems.lists == old(coitems.lists) + Rows(old(table.State())) && coitems.dim == old(coitems.dim)
    ensures table.Valid() && table.State() == Cleared(old(table.State())) && table.project == old(table.project)
    ensures forall j :: 0 <= j < table.tableSize ==> table.buckets[j].items == []
    ensures old(Clean(table.buckets[..])) ==> AllEmpty(table.buckets[..])
  {
    Drain(table.buckets, table.usedBuckets, coitems);
    table.usedBuckets := [];
    ClearedIsEmpty(old(table.State()));
  }

  /**
   * One round of `sampledlsh_l1mine` on an empty, clean table: new sample bits, every
   * non-empty list stored, the used buckets moved out. `filled` is the table storing left:
   * the round's rows are its used buckets' id lists. On success the table is empty and clean
   * again; a full table stops the round with nothing added.
   */
  method L1Round(listdb: ListDB, table: L1.HashTable, indices: array<nat>, coitems: ListDB)
    returns (r: Outcome, ghost round: seq<List>, ghost filled: Table)
    requires table.Valid() && table.usedBuckets == [] && Clean(table.buckets[..]) && table.tableSize > 0
    requires table.tupleSize <= L1.GridCells(table.dim, table.maxValue) < TwoTo32
    requires indices.Length == |listdb.lists| && coitems != listdb
    modifies table, table.buckets, table.sampleBits, table.numberOfSamples, indices, coitems
    ensures table.Valid() && coitems.dim == old(coitems.dim)
    ensures r.Pass? ==> table.usedBuckets == [] && Clean(table.buckets[..])
    ensures r.Pass? ==> coitems.lists == old(coitems.lists) + round
    ensures r.Pass? ==> Round(round, NonEmptyIds(listdb.lists), table.tableSize)
    ensures r.Pass? ==> UsedExactly(filled) && |filled.buckets| == table.tableSize
    ensures r.Pass? ==> round == Rows(filled) && table.State() == Cleared(filled)
    ensures r.Pass? ==> forall k :: 0 <= k < |listdb.lists| && listdb.lists[k] != [] ==>
      indices[k] < table.tableSize && Item(k, 1) in filled.buckets[indices[k]].items &&
      filled.buckets[indices[k]].items in round
    ensures r.Fail? ==> coitems.lists == old(coitems.lists)
    ensures IsPowerOfTwo(table.tableSize) && |listdb.lists| <= table.tableSize ==> r.Pass?
  {
    round := [];
    filled := table.State();
    NoRows(filled);
    table.Resample();
    r := table.StoreListDB(listdb, indices);
    if r.Fail? {
      return;
    }
    filled := table.State();
    RowsOfTable(filled);
    round := Rows(filled);
    forall k | 0 <= k < |listdb.lists| && listdb.lists[k] != []
      ensures filled.buckets[indices[k]].items in round
    {
      BucketIsRow(filled, indices[k]);
    }
    L1GetCoitems(coitems, table);
  }

  /**
   * One round of `sampledlsh_lpmine`: new projections, every vector stored, the used buckets
   * moved out. `filled` is the table storing left: the round's rows are its used buckets' id
   * lists, and vectors with the same signature under the new projections share one.
   */
  method LpRound(vectordb: VectorDB, table: Lp.HashTableLp, p: Lp.Projection, indices: array<nat>, coitems: ListDB)
    returns (r: Outcome, ghost round: seq<List>, ghost filled: Table)
    requires table.Valid() && table.usedBuckets == [] && Clean(table.buckets[..]) && table.tableSize > 0
    requires vectordb.Valid() && indices.Length == vectordb.size
    modifies table, table.buckets, indices, coitems
    ensures table.Valid() && coitems.dim == old(coitems.dim)
    ensures r.Pass? ==> table.usedBuckets == [] && Clean(table.buckets[..])
    ensures r.Pass? ==> coitems.lists == old(coitems.lists) + round
    ensures r.Pass? ==> Round(round, Positions(vectordb.size), table.tableSize)
    ensures r.Pass? ==> UsedExactly(filled) && |filled.buckets| == table.tableSize
    ensures r.Pass? ==> round == Rows(filled) && table.State() == Cleared(filled)
    ensures r.Pass? ==> forall k :: 0 <= k < vectordb.size ==>
      indices[k] < table.tableSize && Item(k, 1) in filled.buckets[indices[k]].items &&
      filled.buckets[indices[k]].items in round
    ensures r.Pass? ==> forall j, k ::
      0 <= j < vectordb.size && 0 <= k < vectordb.size &&
      Lp.Signature(p, vectordb.vectors[j], table.tupleSize) == Lp.Signature(p, vectordb.vectors[k], table.tupleSize)
      ==> indices[j] == indices[k]
    ensures r.Fail? ==> coitems.lists == old(coitems.lists)
    ensures IsPowerOfTwo(table.tableSize) && vectordb.size <= table.tableSize ==> r.Pass?
  {
    round := [];
    filled := table.State();
    NoRows(filled);
    table.Reproject(p);
    r := table.StoreVectorDB(vectordb, indices);
    if r.Fail? {
      return;
    }
    filled := table.State();
    RowsOfTable(filled);
    round := Rows(filled);
    forall k | 0 <= k < vectordb.size
      ensures filled.buckets[indices[k]].items in round
    {
      BucketIsRow(filled, indices[k]);
    }
    LpGetCoitems(coitems, table);
  }

  /**
   * `sampledlsh_l1mine`: the co-occurrence database has one row per used bucket per round,
   * the rounds' rows in order, and its dimensionality is the number of lists. Each round's
   * rows partition the positions of the non-empty lists (see `L1RoundPartition`). The source
   * exits on a full table; the model stops with an error after the rounds completed so far,
   * which cannot happen in a power-of-two table with a bucket for every list. The sample bits
   * are redrawn from zeroed counts each round (see the findings); the 64-bit draws for `a`
   * and `b` are a parameter.
   */
  method L1Mine(listdb: ListDB, tupleSize: uint32, numberOfTuples: uint32, maxValue: uint32,
                tableSize: uint32, draws: seq<nat>)
    returns (coitems: ListDB, r: Outcome, ghost rounds: seq<seq<List>>, ghost tables: seq<Table>)
    requires tableSize > 0 && |draws| == 2 * tupleSize && listdb.dim < TwoTo32
    requires tupleSize <= L1.GridCells(listdb.dim, maxValue) < TwoTo32
    ensures fresh(coitems) && coitems.dim == |listdb.lists| && coitems.lists == Concat(rounds)
    ensures r.Pass? ==> |rounds| == numberOfTuples
    ensures r.Fail? ==> |rounds| < numberOfTuples
    ensures Mined(rounds, tables, NonEmptyIds(listdb.lists), tableSize) && |coitems.lists| == UsedCount(tables)
    ensures IsPowerOfTwo(tableSize) && |listdb.lists| <= tableSize ==> r.Pass?
  {
    var table := new L1.HashTable.Create(tableSize, tupleSize, listdb.dim, maxValue, draws);
    var indices := new nat[|listdb.lists|];
    coitems := new ListDB.Init();
    coitems.dim := |listdb.lists|;
    rounds, tables := [], [];
    r := Pass;
    var i: uint32 := 0;
    while i < numberOfTuples
      invariant i <= numberOfTuples && |rounds| == i && r == Pass
      invariant fresh(coitems) && coitems.dim == |listdb.lists| && coitems.lists == Concat(rounds)
      invariant table.Valid() && table.usedBuckets == [] && Clean(table.buckets[..])
      invariant table.tableSize == tableSize && table.tupleSize == tupleSize
      invariant table.dim == listdb.dim && table.maxValue == maxValue
      invariant Mined(rounds, tables, NonEmptyIds(listdb.lists), tableSize) && |coitems.lists| == UsedCount(tables)
    {
      ghost var round, filled;
      r, round, filled := L1Round(listdb, table, indices, coitems);
      if r.Fail? {
        return;
      }
      UsedCountAppend(rounds, tables, filled);
      MinedStep(rounds, tables, NonEmptyIds(listdb.lists), tableSize, round, filled);
      rounds, tables := rounds + [round], tables + [filled];
      i := i + 1;
    }
  }

  /**
   * `sampledlsh_lpmine`: as `L1Mine`, with every vector (empty or not) stored each round, so
   * each round's rows partition the positions 0 .. size - 1 (see `LpRoundPartition`). The
   * projections each round draws are a parameter, as is `initial`, what the unfilled
   * projection arrays stand for before the first round.
   */
  method LpMine(vectordb: VectorDB, tupleSize: uint32, numberOfTuples: uint32, tableSize: uint32,
                draws: seq<nat>, initial: Lp.Projection, projections: seq<Lp.Projection>)
    returns (coitems: ListDB, r: Outcome, ghost rounds: seq<seq<List>>, ghost tables: seq<Table>)
    requires tableSize > 0 && |draws| == 2 * tupleSize && vectordb.Valid() && |projections| == numberOfTuples
    ensures fresh(coitems) && coitems.dim == vectordb.size && coitems.lists == Concat(rounds)
    ensures r.Pass? ==> |rounds| == numberOfTuples
    ensures r.Fail? ==> |rounds| < numberOfTuples
    ensures Mined(rounds, tables, Positions(vectordb.size), tableSize) && |coitems.lists| == UsedCount(tables)
    ensures IsPowerOfTwo(tableSize) && vectordb.size <= tableSize ==> r.Pass?
  {
    var table := new Lp.HashTableLp.Create(tableSize, tupleSize, vectordb.dim, draws, initial);
    var indices := new nat[vectordb.size];
    coitems := new ListDB.Init();
    coitems.dim := vectordb.size;
    rounds, tables := [], [];
    r := Pass;
    var i: uint32 := 0;
    while i < numberOfTuples
      invariant i <= numberOfTuples && |rounds| == i && r == Pass
      invariant fresh(coitems) && coitems.dim == vectordb.size && coitems.lists == Concat(rounds)
      invariant table.Valid() && table.usedBuckets == [] && Clean(table.buckets[..])
      invariant table.tableSize == tableSize
      invariant Mined(rounds, tables, Positions(vectordb.size), tableSize) && |coitems.lists| == UsedCount(tables)
    {
      ghost var round, filled;
      r, round, filled := LpRound(vectordb, table, projections[i], indices, coitems);
      if r.Fail? {
        return;
      }
      UsedCountAppend(rounds, tables, filled);
      MinedStep(rounds, tables, Positions(vectordb.size), tableSize, round, filled);
      rounds, tables := rounds + [round], tables + [filled];
      i := i + 1;
    }
  }
}
