# ShoreDB storage and retrieval engine in Dafny

ShoreDB is a small in-memory vector store. It has two pieces of state:

- `VectorSpace`: the entries, each an id and its float values, in insertion order.
- `id_vector_map`: the position of each id in `VectorSpace`.

On this state it offers these operations:

- insertion that refuses a repeated id;
- lookup by id;
- random id generation;
- top-k search by cosine similarity with a bounded min-heap;
- a length-prefixed binary save and load.

`vector.cpp` is an earlier single-file copy of the same engine, `SimpleVectorDB`, without persistence. Its `main` checks the error paths.

This project models both classes as Dafny classes whose methods update the same fields. Their contracts are proved against specification functions and predicates:

- `Indexed`, the index invariant;
- `BuildIndex`, the map that loading rebuilds;
- `Scored` and `IsTopK`, the answer to a top-k query;
- `Encode` and `Decode`, the file layout.

Files:

- `base.dfy`: bytes, ids, float bit patterns, entries, Option and Result.
- `index.dfy`: the index invariants and the rebuilt map.
- `similarity.dfy`: the error cases of `CosineSimilarity`.
- `topk.dfy`: the pair order, the heap, the scan invariant and the search itself.
- `id_generator.dfy`: the retry loop of `randomIDGenerator`.
- `serializer.dfy`: the byte layout, the reader and the round trip.
- `shore_db.dfy`: the `ShoreDB` class.
- `simple_vector_db.dfy`: `SimpleVectorDB` and the checks of its `main`.

Modelling choices:

- **Ids** are byte strings.
- **Stored floats** are IEEE 754 binary32 bit patterns (`bv32`). Saving and loading keep them bit for bit.
- **Scores** are reals. Every finite float is exactly one real, and the float comparisons the search makes agree with the order of the reals.
- **CosineSimilarity** keeps its decision structure:
  - a length mismatch throws;
  - a vector made only of zeros has a square sum of exactly 0, so it throws;
  - otherwise the result comes from an `Arithmetic` parameter. That parameter may still report a zero magnitude, for example on underflow.
- **The heap** is a sequence kept in ascending pair order:
  - its multiset is the heap's contents;
  - element 0 is `top()`;
  - dropping element 0 is `pop()`;
  - `Push` is ordered insertion.

  Pairs compare by score, then by id as unsigned bytes, as `std::greater<std::pair<float, std::string>>` orders them.
- **File layout**: a `size_t` is fixed as 8 little-endian bytes and a float as its 4 little-endian bytes.
- **Files** are byte sequences: `SaveToDisk` returns the bytes written and `LoadFromFile` takes the bytes read.

### Behaviour of the load worth knowing

`loadFromFile` behaves as follows, and the model does the same:

- **A load does not check ids for uniqueness** (src/shore_db.cpp:251). A file that repeats an id loads without error, and the map points at the later entry (`ShoreDb.LoadAcceptsRepeatedId`). So `ShoreDB`'s class invariant is the weaker `Consistent`:
  - every mapped position holds that id;
  - every entry's id is mapped.

  The full invariant `Indexed` holds after a load of anything `Encode` wrote from a valid store (`ShoreDb.SaveLoadRoundTrip`), and after any load whose ids are distinct (`ShoreDb.LoadDistinctIsIndexed`). `AddVector` preserves it. `SimpleVectorDB` has no load, so its class invariant is `Indexed` itself.
- **A short read leaves state behind.** Both fields are cleared and entries are pushed as they are read (src/shore_db.cpp:205-254). On a short read, the entries read before it stay loaded, and `LoadFromFile` says so.

## Model

| member | source | states |
|---|---|---|
| StoreIndex.IndexedHasDistinctIds | src/shore_db.cpp:63-87 | under the index invariant no id is stored twice |
| StoreIndex.AppendKeepsConsistent | src/shore_db.cpp:78-84 | appending an entry and mapping its id to the old size keeps every mapped position holding its id and every entry mapped, even when the id was mapped before |
| StoreIndex.AppendKeepsIndexed | src/shore_db.cpp:63-87 | appending an entry whose id is not mapped, at position old size, keeps the full index invariant |
| StoreIndex.BuildIndex | src/shore_db.cpp:248-254 | the rebuilt map sends each id to a position holding that id, and maps every entry's id to that entry or a later one, so the last entry with an id wins |
| StoreIndex.BuildIndexAppend | src/shore_db.cpp:248-254 | rebuilding the map after one more entry is the old map with that id overwritten by the new position |
| StoreIndex.BuildIndexConsistent | src/shore_db.cpp:204-255 | the map a load rebuilds is consistent with the loaded entries, whatever they are |
| StoreIndex.BuildIndexIndexed | src/shore_db.cpp:204-255 | for entries with distinct ids the rebuilt map satisfies the full index invariant |
| StoreIndex.IndexedIsBuildIndex | src/shore_db.cpp:248-254 | under the full invariant the map is exactly the one a load rebuilds from the entries |
| Similarity.CosineSimilarity | src/shore_db.cpp:3-35 | fails with a dimension mismatch exactly when the lengths differ; fails with a zero magnitude exactly when the lengths agree and either vector is all zeros or the arithmetic reports a zero magnitude; otherwise succeeds with the score the arithmetic computes |
| TopK.IdLess | src/shore_db.cpp:114 | ids compare as unsigned byte strings, shorter prefix first; an id is never less than itself |
| TopK.IdLessTrichotomy | src/shore_db.cpp:114 | of two ids one is less, they are equal, or the other is less; and no two ids are each less than the other, so with the irreflexivity of `IdLess` exactly one of the three holds |
| TopK.ItemLess | src/shore_db.cpp:114 | pairs compare by score, then by id; a pair is never less than itself |
| TopK.IdLessTransitive | src/shore_db.cpp:114 | the id order is transitive |
| TopK.ItemLeTotal | src/shore_db.cpp:114 | any two heap pairs are comparable |
| TopK.ItemLeTransitive | src/shore_db.cpp:114 | the pair order is transitive |
| TopK.Push | src/shore_db.cpp:130-134 | pushing adds exactly the pushed pair to the heap's contents |
| TopK.PushAscending | src/shore_db.cpp:128-135 | pushing keeps the heap ordered, so the least pair stays at the top |
| TopK.ScoredStep | src/shore_db.cpp:117-126 | the scan offers the entries in store order: one more entry adds its pair at the end when it scores, and nothing when scoring throws |
| TopK.ScoredFrom | src/shore_db.cpp:117-126 | every pair offered to the heap is the id and the score of a stored entry that scored |
| TopK.ScoredComplete | src/shore_db.cpp:117-126 | every stored entry that scores is offered to the heap with its score |
| TopK.SelectingStart | src/shore_db.cpp:114-117 | the empty heap before the scan satisfies the scan invariant |
| TopK.PushKeepsSelecting | src/shore_db.cpp:130 | a push into a heap holding fewer than k pairs keeps the scan invariant |
| TopK.ReplaceKeepsDominance | src/shore_db.cpp:132-135 | after a strictly higher score replaces the top, no dropped pair scores above a kept one |
| TopK.ReplaceKeepsContents | src/shore_db.cpp:132-135 | after replacing the top, kept and dropped pairs together are exactly the pairs seen |
| TopK.ReplaceKeepsSelecting | src/shore_db.cpp:132-135 | replacing the top of a full heap by a strictly higher-scoring pair keeps the scan invariant |
| TopK.SkipKeepsSelecting | src/shore_db.cpp:130-135 | a pair scoring no higher than the top of a full heap is dropped and the scan invariant holds |
| TopK.ReversedAt | src/shore_db.cpp:148 | the reverse holds element t at position length - 1 - t |
| TopK.ReversedMultiset | src/shore_db.cpp:148 | reversing keeps the same pairs |
| TopK.DrainedIsTopK | src/shore_db.cpp:138-150 | draining the final heap least pair first and reversing gives the top-k answer |
| TopK.ReverseInPlace | src/shore_db.cpp:148 | the array is reversed in place |
| TopK.NearestNeighbours | src/shore_db.cpp:103-151 | rejects an empty query, then k <= 0, then an empty store, in that order; otherwise succeeds with min(k, scored) pairs of scored entries, in non-increasing pair order, no excluded pair scoring above a returned one |
| TopK.TopKReturnsAllWhenKCovers | src/shore_db.cpp:128-150 | when k is at least the number of scoring entries, every scored pair is returned |
| TopK.TopKFirstIsBest | src/shore_db.cpp:138-150 | the first pair returned has the highest score of all scored entries |
| TopK.TopKFromStore | src/shore_db.cpp:117-150 | every returned pair is the id of a stored entry and the score that entry got |
| IdGenerator.Candidate | src/shore_db.cpp:54 | one pass builds 16 characters, each from the alphabet |
| IdGenerator.GenerateId | src/shore_db.cpp:46-60 | returns a 16-character id over the 62-character alphabet that is not in use; it is the first unused candidate, and the generator advanced 16 draws per pass |
| Serializer.DecodeEncodeLE | src/shore_db.cpp:163-167 | a number written as little-endian bytes reads back unchanged |
| Serializer.EncodeDecodeLE | src/shore_db.cpp:209-213 | little-endian bytes read and rewritten are the same bytes |
| Serializer.DecodeEncodeU64 | src/shore_db.cpp:175-176 | a length field reads back as the length written |
| Serializer.DecodeEncodeFloat | src/shore_db.cpp:184 | one float reads back bit for bit |
| Serializer.DecodeEncodeFloats | src/shore_db.cpp:182-184 | a float payload reads back bit for bit |
| Serializer.EncodeEntry | src/shore_db.cpp:172-184 | one entry takes 16 + id length + 4 * value count bytes |
| Serializer.EncodeEntries | src/shore_db.cpp:170-186 | the entries take at least 16 bytes each, for their two length fields |
| Serializer.Encode | src/shore_db.cpp:163-186 | the file starts with the entry count as 8 bytes, and is at least 8 + 16 bytes per entry long |
| Serializer.EncodeEntriesAppend | src/shore_db.cpp:170-186 | the bytes of one more entry follow those of the earlier entries |
| Serializer.ReadEntryErrors | src/shore_db.cpp:218-246 | a read fails with the id-length error exactly when fewer than 8 bytes are left, with the id error exactly when the id is cut, with the data-length error exactly when that field is cut, and with the data error exactly when the values are cut; never with the count error |
| Serializer.ReadEntryLayout | src/shore_db.cpp:218-246 | a successful read consumes the id length, the id, the data length and 4 bytes per value from the front, in that order, and leaves the rest |
| Serializer.ReadEntries | src/shore_db.cpp:216-255 | the loop loads at most `count` entries and never reports the count field's error |
| Serializer.ReadEntriesComplete | src/shore_db.cpp:216-255 | the loop loads all `count` entries exactly when no read comes up short |
| Serializer.ReadEntriesCons | src/shore_db.cpp:216-255 | after a whole first entry the loop loads it and goes on with the bytes behind it |
| Serializer.Decode | src/shore_db.cpp:209-255 | fails with the count error, loading nothing, exactly when the file has fewer than 8 bytes; otherwise it loads all the entries the count field announces exactly when there is no error |
| Serializer.ReadEntriesStep | src/shore_db.cpp:216-255 | one successful loop pass moves one entry from the bytes to the loaded entries |
| Serializer.ReadEntriesFirstFails | src/shore_db.cpp:218-241 | a short read of the next entry stops the load with that error and loads nothing more |
| Serializer.ReadEncodedEntry | src/shore_db.cpp:218-246 | reading the bytes of an entry gives back that entry and the bytes after it |
| Serializer.DecodeEncode | src/shore_db.cpp:163-254 | decoding what was encoded gives the same entries, in order, with the same ids and bit-identical values, and no error |
| Serializer.ReadTruncatedEntry | src/shore_db.cpp:218-241 | a proper prefix of one entry's bytes is a short read |
| Serializer.ReadTruncatedFirst | src/shore_db.cpp:216-241 | bytes cut inside the first entry stop the loop with an error and nothing loaded |
| Serializer.ReadTruncatedAfterFirst | src/shore_db.cpp:216-255 | a whole first entry before a cut rest is loaded, and the loop then fails where the rest fails |
| Serializer.ReadTruncatedEntries | src/shore_db.cpp:216-241 | a proper prefix of the entries' bytes stops with an error after a strict prefix of the entries |
| Serializer.DecodeTruncated | src/shore_db.cpp:209-241 | a saved file cut anywhere is rejected, and what was loaded before the error is a prefix of the saved entries |
| ShoreDb.ShoreDB.constructor | src/shore_db.cpp:37-43 | a new store is empty, satisfies the index invariant and has made no draws |
| ShoreDb.ShoreDB.RandomIDGenerator | src/shore_db.cpp:46-60 | returns a 16-character id over the alphabet that is not a key of the map, the first such candidate drawn |
| ShoreDb.ShoreDB.AddVector | src/shore_db.cpp:63-87 | a repeated id fails and changes nothing; otherwise it appends exactly one entry at the old size and maps the id there; keeps the class invariant, and the full index invariant when it held before |
| ShoreDb.ShoreDB.GetVectorByID | src/shore_db.cpp:90-100 | an unknown id fails with not-found; otherwise it returns the entry at the mapped position, whose id is the one asked for |
| ShoreDb.ShoreDB.KNearestNeighbours | src/shore_db.cpp:103-151 | the three argument errors in order, otherwise the top-k answer over the stored entries |
| ShoreDb.ShoreDB.SaveToDisk | src/shore_db.cpp:154-192 | writes exactly `Encode` of the stored entries |
| ShoreDb.SaveStep | src/shore_db.cpp:170-186 | each pass of the save loop extends the file by the next entry's bytes |
| ShoreDb.ShoreDB.LoadFromFile | src/shore_db.cpp:194-260 | clears both fields; loads the entries `Decode` reads, keeping those read before a short read, with the map rebuilt from them; fails with the first short read and succeeds only when there is none |
| ShoreDb.SaveLoadRoundTrip | src/shore_db.cpp:153-260 | loading what a store under the index invariant saved gives the same entries and the same map, with no error |
| ShoreDb.LoadDistinctIsIndexed | src/shore_db.cpp:194-260 | a load of entries with distinct ids establishes the full index invariant |
| ShoreDb.LoadAcceptsRepeatedId | src/shore_db.cpp:248-254 | a file repeating an id loads without error, the id maps to the later entry, and the full index invariant fails |
| SimpleVectorDb.SimpleVectorDB.constructor | vector.cpp:66-72 | a new store is empty and satisfies the index invariant |
| SimpleVectorDb.SimpleVectorDB.RandomIDGenerator | vector.cpp:75-89 | returns a 16-character id over the alphabet that is not a key of the map |
| SimpleVectorDb.SimpleVectorDB.AddVector | vector.cpp:92-116 | a repeated id fails and changes nothing; otherwise it appends at the old size and maps the id there, keeping the index invariant |
| SimpleVectorDb.SimpleVectorDB.GetVectorByID | vector.cpp:119-129 | an unknown id fails; otherwise it returns the entry at the mapped position, with that id |
| SimpleVectorDb.SimpleVectorDB.KNearestNeighbours | vector.cpp:132-180 | the three argument errors in order, otherwise the top-k answer over the stored entries |
| SimpleVectorDb.AddDocuments | vector.cpp:185-197 | the four documents of `main` are all added, in order |
| SimpleVectorDb.CheckDuplicateRejected | vector.cpp:208-214 | adding doc_A again is rejected and the store is unchanged |
| SimpleVectorDb.CheckLookup | vector.cpp:223-235 | doc_A is found with its values, and an id never added is not found |
| SimpleVectorDb.CheckQueryArguments | vector.cpp:245-272 | an empty query, k = 0 and a search of an empty store are each rejected with their own error |
| SimpleVectorDb.CheckZeroVectorSkipped | vector.cpp:310-325 | with a zero vector stored, the search still succeeds and never returns the zero vector |

## Left out

- The float arithmetic of `CosineSimilarity` (sums of products, `sqrt`, division) is a parameter, not computed. NaN and infinite scores are out of scope: a score is a real.
- Opening, creating and closing files, and the two "could not open or create" errors, are left out. Save and load work on byte sequences.
- Native endianness and the width of `size_t` are left out. The model fixes 8 little-endian bytes, and floats are written as their 4 little-endian bytes.
- ShoreDb.ShoreDB.SaveToDisk: requires every length to fit in 64 bits (`Encodable`), which a real store always meets, since `size_t` bounds its sizes.
- The clock-seeded `std::mt19937` is left out. Its draws are a stream fixed when the store is made.
- ShoreDb.ShoreDB.RandomIDGenerator: requires that some later pass meets an unused id. The source loops until one does, and with random draws that is a matter of chance, so termination is not proved unconditionally. The same holds for `SimpleVectorDb.SimpleVectorDB.RandomIDGenerator` and `IdGenerator.GenerateId`.
- ShoreDb.ShoreDB.GetVectorByID: returns the entry rather than a pointer into `VectorSpace`, so pointer invalidation after a later insert is not modelled.
- The internals of `std::priority_queue` and `std::map` are left out. They are a sorted sequence and a Dafny map.
- The warnings printed to `std::cerr` for skipped entries, and all console output, are left out.
- `main` in vector.cpp also adds two vectors under random ids (vector.cpp:199-206). These adds are left out of the checks, because they depend on the random draws. It also runs three searches that only print their results (vector.cpp:275-308), and these are not modelled.
- The multiplication `dataSize * sizeof(float)` could overflow for a corrupt length. A length too large to allocate throws `bad_alloc` or `length_error` in the source. In the model every such length is a short read of the field.
- A store that reads a file repeating an id is left with an inconsistent map. The model states that such a file exists (`ShoreDb.LoadAcceptsRepeatedId`) and keeps the weaker class invariant.
- tests/test.cpp is a demonstration program and is not part of this model. include/shore_db.hpp is used only for the field and constant names.
