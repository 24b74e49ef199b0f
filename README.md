# Simple-LSH native engine, modelled in Dafny

This project models the C core of Simple-LSH, which mines co-occurring items with
locality-sensitive hashing. The core has three parts.

- **Containers.** A `Vector` is a growable array of `(dim, value)` entries. A `VectorDB` is a
  growable array of vectors plus a declared dimensionality. Both are classes whose methods
  rewrite their fields in place (`vectors.dfy`, `vectordb.dfy`).
- **The LSH hash table.** The L1 table (`l1lsh.dfy`) samples bits of a unary embedding of
  integer lists and counts the set bits per dimension. The Lp table (`lplsh.dfy`) takes
  `tuple_size` projections of a vector. Each turns its first-level signature into a hash value
  and a start index by universal hashing: an inner product with random 32-bit coefficients,
  reduced modulo a large prime. The pair is placed in an open-addressing bucket array by
  linear probing with the step `(index + 1) & (table_size - 1)`. A `used_buckets` list
  records the buckets that hold ids. Both tables share the bucket logic, which lives in
  `buckets.dfy`: probing, store, erase, clear and drain, written as functions on a `Table`
  value and as methods on the bucket array.
- **Sampled-LSH mining** (`sampledlsh.dfy`). Each of `number_of_tuples` rounds draws new hash
  functions and stores every row of the database in the shared table. It then moves every
  used bucket's id list out as a new row of the co-occurrence database, which leaves the
  table empty for the next round.

The main results are these.

- `used_buckets` lists each non-empty bucket exactly once and nothing else. Creation
  establishes this invariant, and store, erase and clear keep it.
- Probing in a power-of-two table fails only when every bucket is in use.
- Two keys with the same (index, hash value) land in the same bucket while the table only
  grows.
- Storing adds exactly the stored id to the ids the used buckets hold, and erasing removes
  exactly the erased bucket's ids.
- The L1 hash counts, per sampled dimension, the sample bits set in the unary code. On a
  dimension with at least one sample bit the C code counts the same. A dimension without
  sample bits is where the two part (see the findings); the table uses the corrected count.
- The Lp hash as written equals the exact inner product whenever every projection is
  non-negative; the table uses the exact product (see the findings).
- Every mining round's rows partition the ids stored that round. Each non-empty list (L1),
  or each vector (Lp), lies in exactly one row. The rows are exactly the used buckets' id
  lists, so the output has one row per used bucket per round, and vectors with the same
  signature share a row.

Supporting modules: `base.dfy` holds the integer widths and the result types. `arith.dfy`
holds modular arithmetic and the inner product `Dot`. `counting.dfy` counts elements that
satisfy a predicate. `sorting.dfy` holds the insertion sort that stands for `qsort`.
`lists.dfy` holds `List`, `Item` and `ListDB`, whose headers are not part of this model.

## Model

| member | source | states |
|---|---|---|
| Vectors.DimCompare | src/lsh/vectors.c:134-140 | for dims below 2^31 the sign of the result is the order of the two dims (both directions, and 0 exactly on equal dims) |
| Vectors.DimCompareWrongAboveInt32 | src/lsh/vectors.c:134-140 | a dim of 2^31 compares below dim 0, because the dims are read into signed ints |
| Vectors.BinarySearch | src/lsh/vectors.c:235-238 | on entries sorted by dim it returns a position holding the query's dim if and only if one exists |
| Vectors.Vector.Create | src/lsh/vectors.c:45-53 | exactly n entries, each with dim 0 and value 0 |
| Vectors.Vector.Init | src/lsh/vectors.c:32-36 | size 0 and no entries |
| Vectors.Vector.Destroy | src/lsh/vectors.c:60-64 | leaves an empty vector of size 0 |
| Vectors.Vector.Push | src/lsh/vectors.c:344-350 | size grows by one, the entry is last, and earlier entries are unchanged; the `uint` size must not wrap |
| Vectors.Vector.Pop | src/lsh/vectors.c:357-361 | on a non-empty vector, removes exactly the last entry and keeps the prefix |
| Vectors.Vector.Duplicate | src/lsh/vectors.c:370-379 | a fresh vector with the same size and entries |
| Vectors.Vector.MinValue | src/lsh/vectors.c:73-84 | on a non-empty vector, the earliest position whose value is at most every other value; position 0 on an empty one |
| Vectors.Vector.MaxValue | src/lsh/vectors.c:94-105 | on a non-empty vector, the earliest position whose value is at least every other value; position 0 on an empty one |
| Vectors.Vector.SortByDim | src/lsh/vectors.c:245-248 | the entries become sorted by dim and are a permutation of the old ones |
| VectorDBs.VectorDB.Create | src/lsh/vectordb.c:46-54 | `size` empty vectors and the given dimensionality |
| VectorDBs.VectorDB.Init | src/lsh/vectordb.c:32-37 | no vectors, size 0, dimensionality 0 |
| VectorDBs.VectorDB.Destroy | src/lsh/vectordb.c:72-81 | leaves an empty database |
| VectorDBs.VectorDB.ApplyToAll | src/lsh/vectordb.c:147-152 | every vector is replaced by the transformation's result; size and dimensionality stay |
| VectorDBs.VectorDB.ApplyToRange | src/lsh/vectordb.c:162-172 | when low <= high < size exactly positions low..high are transformed; otherwise nothing changes |
| VectorDBs.VectorDB.ApplyToMulti | src/lsh/vectordb.c:181-191 | each vector is transformed once per entry of `positions` naming it; out-of-range positions are skipped |
| VectorDBs.VectorDB.Push | src/lsh/vectordb.c:199-205 | the vector's contents are appended at the end and earlier vectors are unchanged |
| VectorDBs.VectorDB.Pop | src/lsh/vectordb.c:212-217 | removes exactly the last vector |
| VectorDBs.PopMultiAsWrittenResult | src/lsh/vectordb.c:225-230 | as written, `number` vectors are removed but the last vector kept is destroyed too |
| VectorDBs.PopMultiEmptiesKeptVector | src/lsh/vectordb.c:225-230 | removing one vector from three leaves the second one empty instead of intact |
| VectorDBs.VectorDB.PopMultiAsWritten | src/lsh/vectordb.c:225-230 | the database becomes `PopMultiAsWrittenResult` of the old vectors |
| VectorDBs.VectorDB.PopMulti | src/lsh/vectordb.c:225-230 | as intended, the last `number` vectors are removed and the rest are kept intact |
| VectorDBs.VectorDB.PopUntil | src/lsh/vectordb.c:238-243 | keeps exactly positions 0..last-1 |
| VectorDBs.VectorDB.DeletePosition | src/lsh/vectordb.c:251-262 | the result is the old vectors without `position`, and size shrinks by one |
| VectorDBs.VectorDB.DeleteRange | src/lsh/vectordb.c:271-283 | the inclusive range low..high is removed, size shrinks by high - low + 1, and the rest keep their order |
| VectorDBs.VectorDB.Insert | src/lsh/vectordb.c:292-306 | the result is the old vectors before `position`, then the new one, then the old vectors from `position` on |
| VectorDBs.VectorDB.Append | src/lsh/vectordb.c:314-321 | the first database becomes the concatenation of both, and the second is unchanged |
| Buckets.AndMaskIsMod | src/lsh/l1lsh.c:331 | in a power-of-two table, masking with table_size - 1 is reduction modulo table_size |
| Buckets.FindSlot | src/lsh/l1lsh.c:322-352 | the bucket probing settles on is in range and either empty or tagged with the key's hash value; an accepting start bucket is chosen at once |
| Buckets.FindSlotNoneMeansNoneAccepts | src/lsh/l1lsh.c:328-345 | in a power-of-two table, probing visits every bucket, so it fails only when no bucket can take the key |
| Buckets.FullWhenProbeFails | src/lsh/l1lsh.c:342-345 | in a power-of-two table under the `used_buckets` invariant, a failed probe means every bucket is in use |
| Buckets.Probe | src/lsh/l1lsh.c:326-351 | the probing loop returns the slot `FindSlot` names and tags only that bucket, or reports a full table and changes nothing |
| Buckets.Tagged | src/lsh/l1lsh.c:335-349 | tagging changes only the found bucket's hash value, and only when that bucket was empty |
| Buckets.Store | src/lsh/l1lsh.c:361-377 | the id is appended to the bucket probing finds, which carries the key's hash value; the index joins `used_buckets` if and only if the bucket was empty; no other bucket changes; a full table is an error and changes nothing |
| Buckets.StoreIn | src/lsh/lplsh.c:390-406 | the array-level store produces exactly the table `Store` describes |
| Buckets.StoreKeepsUsedExactly | src/lsh/l1lsh.c:361-377 | storing keeps the invariant that `used_buckets` lists each non-empty bucket exactly once |
| Buckets.StoreGrows | src/lsh/l1lsh.c:361-377 | storing only appends to lists, keeps the tag of every non-empty bucket, and keeps empty buckets at hash value 0 |
| Buckets.StoreAddsId | src/lsh/l1lsh.c:361-377 | storing adds exactly the stored id to the multiset of ids the used buckets hold |
| Buckets.UsedBound | src/lsh/l1lsh.c:120-121 | under the invariant there are never more used buckets than buckets |
| Buckets.SameKeySameBucket | src/lsh/l1lsh.c:322-377 | two keys with the same start index and hash value, stored with only stores in between, land in the same bucket |
| Buckets.FilledStep | src/lsh/l1lsh.c:386-395 | a store loop that succeeds once more keeps the invariant, grows the table by at most one used bucket, and adds exactly the new id |
| Buckets.PlacedStep | src/lsh/lplsh.c:415-422 | storing one more key keeps every earlier key probing to its own non-empty bucket and places the new key where the store put it, so equal keys get equal buckets |
| Buckets.FirstIndex | src/lsh/l1lsh.c:166-169 | the position assumed for `list_find` on `used_buckets`: the first occurrence of the index, or none when it is absent |
| Buckets.Erase | src/lsh/l1lsh.c:158-173 | an in-range bucket becomes empty with hash value 0; an out-of-range index changes nothing |
| Buckets.EraseIn | src/lsh/lplsh.c:219-234 | the array-level erase produces exactly the table `Erase` describes |
| Buckets.EraseKeepsUsedExactly | src/lsh/l1lsh.c:158-173 | erasing keeps the `used_buckets` invariant and keeps empty buckets at hash value 0 |
| Buckets.EraseRemovesIds | src/lsh/l1lsh.c:158-173 | erasing removes exactly the erased bucket's ids from the ids the used buckets hold |
| Buckets.EraseTagged | src/lsh/l1lsh.c:140-150 | erasing a bucket that probing just tagged gives the same table as erasing it untagged |
| Buckets.Cleared | src/lsh/l1lsh.c:180-191 | every used bucket becomes empty with hash value 0, the others are untouched, and `used_buckets` is empty |
| Buckets.ClearedIsEmpty | src/lsh/l1lsh.c:180-191 | under the invariant clearing empties every bucket, and a table whose empty buckets are all at hash value 0 returns to its created state |
| Buckets.Reset | src/lsh/lplsh.c:241-252 | the clearing loop produces exactly the `Cleared` table |
| Buckets.Drain | src/lsh/sampledlsh.c:31-42 | each used bucket's id list is appended to `coitems` in `used_buckets` order, and the table becomes `Cleared` |
| L1Lsh.SampleBitCompare | src/lsh/l1lsh.c:249-262 | lexicographic order on (dim, loc): -1, 0 or 1 exactly as the first pair is below, equal to or above the second |
| L1Lsh.SampleKeyOrder | src/lsh/l1lsh.c:249-262 | the comparator is the order of one integer key, so it is a total order in which only equal bits tie |
| L1Lsh.GenerateSampleBits | src/lsh/l1lsh.c:218-239 | given tuple_size <= dim * max_value, the bits lie in the grid, are strictly sorted by the comparator (hence distinct), and each dimension's count grows by its number of bits |
| L1Lsh.DrawSampleBits | src/lsh/l1lsh.c:225-237 | the drawing loop yields distinct in-grid bits and adds one count per drawn bit to its dimension |
| L1Lsh.DrawCell | src/lsh/l1lsh.c:226-234 | the redraw loop ends on a cell not yet used, which becomes a new distinct bit and is marked |
| L1Lsh.SortedDraw | src/lsh/l1lsh.c:238 | sorting distinct drawn bits orders them strictly and keeps every dimension's count |
| L1Lsh.SecondRoundOvercounts | src/lsh/l1lsh.c:235 | drawing a second time without zeroing the counts makes a dimension's count 2 where the bits hold one |
| L1Lsh.HashTable.Resample | src/lsh/l1lsh.c:218-239 | the corrected redraw: the counts start from zero, so afterwards each count is exactly its dimension's number of bits |
| L1Lsh.Block | src/lsh/l1lsh.c:284-287 | in sorted bits, dimension d's bits form the block from `Below(d)` to `Below(d) + count - 1` that the loop's `low` and `high` delimit |
| L1Lsh.OnesInBlock | src/lsh/l1lsh.c:288-300 | within the block, the bits set for a value are its first m - low bits, where m is the first bit whose location exceeds the value |
| L1Lsh.Signature | src/lsh/l1lsh.c:283-301 | entry d of the first-level hash is the number of dimension d's sample bits at a location of at most the list's value there |
| L1Lsh.SignatureDependsOnSampledBits | src/lsh/l1lsh.c:283-301 | lists whose unary codes agree on every sample bit get the same signature, hence the same hash value and index |
| L1Lsh.HashOf | src/lsh/l1lsh.c:303-309 | the second-level hash is the inner product reduced modulo 2^64 and then modulo LARGEST_PRIME, so it is below LARGEST_PRIME |
| L1Lsh.DotStep | src/lsh/l1lsh.c:303-304 | each product of a coefficient and a count fits in 64 bits, and the wrapping accumulator equals the inner product modulo 2^64 |
| L1Lsh.HashStep | src/lsh/l1lsh.c:283-305 | while sample bits remain, the loop is at a sampled dimension, and one turn adds that dimension's count to both accumulators |
| L1Lsh.HashDone | src/lsh/l1lsh.c:283-309 | when the loop ends, both accumulators reduced modulo LARGEST_PRIME are the second-level hashes of the signature |
| L1Lsh.EmptyDimensionCountsAsWritten | src/lsh/l1lsh.c:286-291 | for a dimension without sample bits the code as written counts 1 or 0 depending on the list's value, where the signature counts 0 |
| L1Lsh.NarrowFindsBoundary | src/lsh/l1lsh.c:292-298 | the binary search, started with a bit at or below the value at `low` and one past it at `high`, ends on the last bit at or below the value, whose successor lies past it |
| L1Lsh.AsWrittenCountsNonEmptyBlock | src/lsh/l1lsh.c:283-300 | on a dimension with at least one sample bit, the count as written is the number of set sample bits, so the code and the signature part only on empty dimensions |
| L1Lsh.HashTable.CountOnes | src/lsh/l1lsh.c:284-300 | on sorted bits and the true block of dimension i, the count is the number of that dimension's set sample bits; an empty block counts 0 |
| L1Lsh.HashTable.ComputeHashValue | src/lsh/l1lsh.c:274-310 | the hash value is below LARGEST_PRIME and the index below table_size; when every read stays in range they are the hashes of the signature with `b` and with `a`, with the corrected count for a dimension without sample bits |
| L1Lsh.HashTable.Create | src/lsh/l1lsh.c:109-132 | all buckets empty, no used buckets, zeroed counts, and coefficients that are the low 32 bits of the draws |
| L1Lsh.HashTable.GetIndex | src/lsh/l1lsh.c:322-352 | the start index and hash value are the list's hashes (with the corrected count, as for `ComputeHashValue`), and probing from them tags only the `FindSlot` bucket or reports a full table and changes nothing |
| L1Lsh.HashTable.StoreList | src/lsh/l1lsh.c:361-377 | the table after the call is `Store` of the table before it, under the list's hashes (with the corrected count, as for `ComputeHashValue`) |
| L1Lsh.HashTable.StoreNext | src/lsh/l1lsh.c:393-394 | one turn of the loop stores a non-empty list under its position and records its bucket; on a full table nothing changes |
| L1Lsh.HashTable.StoreEach | src/lsh/l1lsh.c:392-394 | the loop stores the lists in order until one fails, and a failure in a power-of-two table means every bucket is in use |
| L1Lsh.HashTable.StoreListDB | src/lsh/l1lsh.c:386-395 | on success the used buckets gain exactly the positions of the non-empty lists, once each; `indices` points to each such list's bucket; entries for empty lists are untouched; a power-of-two table with room never fails |
| L1Lsh.HashTable.EraseFromIndex | src/lsh/l1lsh.c:158-173 | the table becomes `Erase` of the old one, removing exactly that bucket's ids; an out-of-range index changes nothing |
| L1Lsh.HashTable.EraseFromList | src/lsh/l1lsh.c:140-150 | the bucket probing finds for the list is erased, or a full table is reported and nothing changes |
| L1Lsh.HashTable.ClearTable | src/lsh/l1lsh.c:180-191 | the table becomes `Cleared` of the old one, so every bucket is empty |
| LpLsh.IndexOf | src/lsh/lplsh.c:338 | the index is the sum modulo LARGEST_PRIME64 and then modulo the table size, so it is below table_size |
| LpLsh.WrappedStep | src/lsh/lplsh.c:329-334 | as written, each loop turn adds a product wrapped at 64 bits, and the 128-bit accumulator itself never wraps |
| LpLsh.ExactStep | src/lsh/lplsh.c:329-334 | with products taken in 128 bits, each turn adds the exact product and the accumulator never wraps |
| LpLsh.WrappedDotExact | src/lsh/lplsh.c:329-334 | when every hash value is below 2^32 no 64-bit product wraps, so the sum as written is the exact inner product |
| LpLsh.WrappedProductChangesSum | src/lsh/lplsh.c:332-333 | with coefficient 2 and hash value 2^64 - 1 the wrapped sum is 57 modulo LARGEST_PRIME64 instead of 116, and the index in a 1024-bucket table differs |
| LpLsh.HashTableLp.Create | src/lsh/lplsh.c:169-193 | all buckets empty, no used buckets, and coefficients that are the low 32 bits of the draws |
| LpLsh.HashTableLp.Reproject | src/lsh/lplsh.c:279-289 | new projections take effect and the buckets are untouched |
| LpLsh.HashTableLp.UnivHashAsWritten | src/lsh/lplsh.c:322-339 | as written, the results are `HashValueOf` and `IndexOf` of the sums of products each wrapped at 64 bits |
| LpLsh.HashTableLp.UnivHash | src/lsh/lplsh.c:322-339 | as intended, the results are `HashValueOf` and `IndexOf` of the exact inner products of the coefficients with the signature |
| LpLsh.HashTableLp.GetIndex | src/lsh/lplsh.c:351-381 | probing from the vector's hashes (the corrected `UnivHash`) tags only the `FindSlot` bucket, or reports a full table and changes nothing |
| LpLsh.HashTableLp.StoreVector | src/lsh/lplsh.c:390-406 | the table after the call is `Store` of the table before it, under the vector's hashes (the corrected `UnivHash`) |
| LpLsh.HashTableLp.StoreNext | src/lsh/lplsh.c:420-421 | one turn of the loop stores vector i under id i and records its bucket; on a full table nothing changes |
| LpLsh.HashTableLp.StoreEach | src/lsh/lplsh.c:420-421 | the loop stores the vectors in order until one fails, and a failure in a power-of-two table means every bucket is in use |
| LpLsh.HashTableLp.StoreVectorDB | src/lsh/lplsh.c:415-422 | on success the used buckets gain exactly the positions 0 .. size - 1, once each, empty vectors included; `indices` points to each vector's bucket, and vectors with the same signature get the same bucket; a power-of-two table with room never fails |
| LpLsh.HashTableLp.EraseFromIndex | src/lsh/lplsh.c:219-234 | the table becomes `Erase` of the old one, removing exactly that bucket's ids; an out-of-range index changes nothing |
| LpLsh.HashTableLp.ClearTable | src/lsh/lplsh.c:241-252 | the table becomes `Cleared` of the old one, so every bucket is empty |
| Lists.OnceMeansOneRow | src/lsh/sampledlsh.c:35-39 | an id the rows hold once overall is held, once, by exactly one row |
| Lists.RowsBoundedByIds | src/lsh/sampledlsh.c:35-39 | there are no more non-empty rows than ids in them |
| Lists.NonEmptyIdsCount | src/lsh/l1lsh.c:392-394 | the ids the L1 store loop stores are each non-empty list's position, once, and nothing else |
| Lists.PositionsCount | src/lsh/lplsh.c:420-421 | the ids the Lp store loop stores are the positions below the size, once each, and nothing else |
| Lists.ListDB.Push | src/lsh/sampledlsh.c:36 | the pushed list becomes the last row |
| SampledLsh.RowsOfTable | src/lsh/sampledlsh.c:35-39 | the rows moved out are non-empty, no more numerous than the buckets and no more numerous than the ids |
| SampledLsh.BucketIsRow | src/lsh/sampledlsh.c:31-42 | a non-empty bucket's id list is one of the rows its table drains into |
| SampledLsh.UsedCountAppend | src/lsh/sampledlsh.c:82-88 | appending a round's rows to the output adds that round's number of used buckets to the row count |
| SampledLsh.L1RoundPartition | src/lsh/sampledlsh.c:82-88 | in a round, each non-empty list's position lies in exactly one row, once, and no other id lies in any row |
| SampledLsh.LpRoundPartition | src/lsh/sampledlsh.c:115-123 | in a round, each vector's position lies in exactly one row, once, and no other id lies in any row |
| SampledLsh.L1GetCoitems | src/lsh/sampledlsh.c:31-42 | one row per used bucket is appended in `used_buckets` order, each row that bucket's ids; every bucket ends empty, and a table whose empty buckets were all at hash value 0 returns to its created state |
| SampledLsh.LpGetCoitems | src/lsh/sampledlsh.c:50-61 | the same transfer and reset on the Lp table |
| SampledLsh.L1Round | src/lsh/sampledlsh.c:85-87 | one round adds, in `used_buckets` order, exactly the id lists of the used buckets of the table that storing left; together they hold exactly the non-empty lists' positions; each list's row is its own bucket's id list; the table is cleared to empty; the bits are redrawn with the corrected `Resample` |
| SampledLsh.LpRound | src/lsh/sampledlsh.c:118-122 | one round adds, in `used_buckets` order, exactly the id lists of the used buckets of the table that storing left; together they hold exactly the positions 0 .. size - 1; each vector's row is its own bucket's id list, and vectors with the same signature share a bucket; the table is cleared to empty |
| SampledLsh.L1Mine | src/lsh/sampledlsh.c:72-95 | the output's dimensionality is the number of lists; its rows are the rounds' rows in order, round k's rows being the id lists of the used buckets of table k, so the row count is the total number of used buckets over all rounds; each round holds exactly the non-empty lists' positions; all `number_of_tuples` rounds complete in a power-of-two table with a bucket per list |
| SampledLsh.LpMine | src/lsh/sampledlsh.c:105-130 | the output's dimensionality is the number of vectors; its rows are the rounds' rows in order, round k's rows being the id lists of the used buckets of table k, so the row count is the total number of used buckets over all rounds; each round holds exactly the positions 0 .. size - 1; all rounds complete in a power-of-two table with a bucket per vector |

## Left out

- File and console I/O are not modelled: `vectordb_load_from_file`, `vectordb_save_to_file`, every `*_print*` function, the progress `printf` of the mining loops and the "out of range" message of `erase_from_index`. The test driver under src/tests and the Python wrapper python/lsh/lsh.py are left out too; both only call into this core.
- Floating point is not modelled: `lplsh_compute_hash_value` and `lplsh_generate_random_values` are abstracted as a `Projection`, an uninterpreted function from a vector and a projection number to a 64-bit value. `lplsh_rng_gaussian`, `lplsh_rng_cauchy`, `lplsh_rng_unif`, `l1lsh_euclidean`, `vector_sum_value`, and the value and score comparators and sorts are left out. Vector values are Dafny reals, with no rounding and no NaN.
- Random numbers are not modelled: the 64-bit Mersenne Twister draws behind `a` and `b` are a parameter `draws`. The `rand()` redraw loop of `l1lsh_generate_sample_bits` is a nondeterministic choice of an unused cell. Its fairness and termination are not modelled; the model only needs a free cell to exist.
- Memory management is not modelled: malloc, realloc and free, `vectordb_clear`, `l1lsh_init`, `lplsh_init`, `l1lsh_destroy` and `lplsh_destroy`. Vectors inside a database are values, so the shallow struct copies that make two databases share storage are not tracked.
- `exit(EXIT_FAILURE)` on a full table becomes an error result (`Err(TableFull)`, or `Fail` for the loops). The callers stop there instead of terminating the process.
- `lplsh_erase_from_vector` is outside the modelled core. `l1lsh_erase_from_vector` is modelled as `L1Lsh.HashTable.EraseFromList`.
- L1Lsh.HashTable.ComputeHashValue: past the end of the list or of `a` and `b` the C code reads memory it does not own. The model treats such reads as unknown values. It states only the bounds of the results then, and the exact hashes when every read stays in range (`Good`). Those exact hashes use the corrected count of the findings, in which a dimension without sample bits counts 0. The C code counts 0 or 1 there, from the neighbouring dimensions' bits. The two agree when every dimension below the last sampled one has a sample bit (`L1Lsh.AsWrittenCountsNonEmptyBlock`).
- L1Lsh.HashTable.GetIndex, L1Lsh.HashTable.StoreList and L1Lsh.HashTable.EraseFromList state the list's hashes through `ComputeHashValue`, so under `Good` they too use the corrected count, not the C count of a dimension without sample bits.
- LpLsh.HashTableLp.GetIndex and LpLsh.HashTableLp.StoreVector hash with `UnivHash`, the corrected universal hash of the findings, which takes each product exactly. The C code wraps each product at 64 bits (`UnivHashAsWritten`). The two agree when every projection is non-negative (`LpLsh.WrappedDotExact`); with a negative projection the start index and hash value of the model can differ from those of the C code.
- SampledLsh.L1Round and SampledLsh.L1Mine redraw the sample bits with `Resample`, the corrected redraw of the findings, which zeroes `number_of_samples` first. The C code calls `l1lsh_generate_sample_bits` without zeroing, so from the second round on its counts exceed the bits drawn.
- L1Lsh.HashTable.EraseFromList: when the bucket found was empty, its index is not in `used_buckets`, and the C code deletes from a position derived from a failed `list_find`. The model deletes nothing in that case.
- Buckets.Erase, L1Lsh.HashTable.EraseFromIndex and LpLsh.HashTableLp.EraseFromIndex: for an in-range bucket whose index is not in `used_buckets` (under the invariant, an empty bucket), the model deletes nothing from `used_buckets`. The C code deletes at a position computed from a failed `list_find` (src/lsh/l1lsh.c:166-169, src/lsh/lplsh.c:226-229).
- L1Lsh.GenerateSampleBits requires `dim * max_value < 2^32`. The C code computes that product in 32 bits and would allocate a wrapped grid; it also never terminates when tuple_size exceeds the grid.
- Vectors.Vector.SortByDim and Vectors.BinarySearch require every dim below 2^31. Above that, `vector_dim_compare` is not an order (see `Vectors.DimCompareWrongAboveInt32`), and `qsort` and `bsearch` are undefined.
- Vectors.Vector.Pop, VectorDBs.VectorDB.Pop, VectorDBs.VectorDB.DeletePosition, VectorDBs.VectorDB.DeleteRange, VectorDBs.VectorDB.Insert, VectorDBs.VectorDB.PopUntil, VectorDBs.VectorDB.PopMulti and VectorDBs.VectorDB.PopMultiAsWritten require their positions in range. The C code does not check them; out of range it wraps `uint` arithmetic or reads out of bounds.
- Vectors.Vector.Push, VectorDBs.VectorDB.Push and VectorDBs.VectorDB.Insert require `size + 1 < 2^32`, and VectorDBs.VectorDB.Append requires the two sizes to sum below 2^32. The C code does not check this; there its `uint` size wraps.
- `list_find` is not part of this model. The model assumes it finds any item present in `used_buckets`, as a linear search does, and reports the first occurrence (`Buckets.FirstIndex`). `used_buckets` is kept in push order, not sorted (src/lsh/l1lsh.c:367-370, src/lsh/lplsh.c:396-399), so a search that relies on order could miss a present index. `Buckets.Erase`, both `EraseFromIndex` members and `L1Lsh.HashTable.EraseFromList` depend on this assumption.
- `List`, `Item`, `ListDB`, `list_find`, `list_push`, `list_delete_position`, `listdb_push` and the constants LARGEST_PRIME and LARGEST_PRIME64 come from headers and files that are not part of this model. The constants are taken as the largest primes below 2^32 and 2^64.
- `sampledlsh.h` names the L1 table type `HashTableL1`; it is modelled as the `HashTable` of l1lsh.h.

## Findings

| source | as written | input that shows it | evidently intended | confidence | as-written member | corrected member |
|---|---|---|---|---|---|---|
| src/lsh/vectordb.c:227 | `vectordb_pop_multi` destroys from `size - number - 1`, one vector more than it removes | three vectors, number = 1: the second vector is destroyed and kept as an empty vector | destroy from `size - number`, so the kept vectors stay intact | high, not executed | VectorDBs.PopMultiEmptiesKeptVector | VectorDBs.VectorDB.PopMulti |
| src/lsh/sampledlsh.c:85 | each mining round calls `l1lsh_generate_sample_bits`, which adds to `number_of_samples` without zeroing it | two rounds on a 1 × 1 grid: dimension 0's count becomes 2 while the sample bits hold one bit, so the hash loop reads blocks past the bits of the round | zero the counts before each draw | high, not executed | L1Lsh.SecondRoundOvercounts | L1Lsh.HashTable.Resample |
| src/lsh/l1lsh.c:286-291 | a dimension with no sample bits gets `high = low - 1`, so the code compares the neighbouring dimensions' bits with the list and counts 1 or 0 depending on the list's value | bits (loc 3, dim 0) and (loc 0, dim 2), lists with 1 and with 5 in dimension 1: counts 1 and 0, though neither list has a sampled bit set there | a dimension without samples counts 0 | medium, not executed | L1Lsh.EmptyDimensionCountsAsWritten | L1Lsh.HashTable.CountOnes |
| src/lsh/lplsh.c:332-333 | `(ullong) a[i] * hv` multiplies in 64 bits, so the product wraps before it reaches the 128-bit accumulator | a[0] = 2 and a projection of -1 (hash value 2^64 - 1): the sum is 57 modulo LARGEST_PRIME64 instead of 116, which changes the index in a 1024-bucket table | take the product in 128 bits, as the accumulators are sized for | medium, not executed | LpLsh.WrappedProductChangesSum | LpLsh.HashTableLp.UnivHash |
