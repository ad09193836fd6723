# Memory store of dead-simple-memory-mcp, modelled in Dafny

The Python server keeps short text memories in one SQLite file. It has two tables:

- `memories`: id, content, embedding blob, `created_at`, `updated_at`, JSON metadata;
- `vec_memories`: a sqlite-vec index of the same embeddings, keyed by rowid.

Every write embeds the text with a sentence-transformer model that loads in the background.

The model has three modules:

- `Wrappers` (`wrappers.dfy`): `Option` and `Result`. The exceptions of `get_embedding` and of `struct.unpack` are `Failure` values; database errors are not modelled (see "Left out").
- `Embeddings` (`embeddings.dfy`): the module globals of `embeddings.py` as the class `EmbeddingProvider`.
  - Its fields are `model`, `modelError` and `modelReady`.
  - `LoadModel` is the state transition of `_load_model`.
  - `GetEmbedding` follows the order of checks in `get_embedding`.
  - The blob codec treats each float as an opaque 4-byte word.
- `Database` (`database.dfy`): the database file as the class `MemoryStore`.
  - Fields: the two tables as maps, the AUTOINCREMENT counter `lastId`, and a ghost set `issued` of every id ever handed out.
  - One method per operation of `database.py`, each an atomic commit.
  - Searching is specified by the functions `Collect` and `Search`, and listing by `CreatedDescOrder`, `PageOf` and `TotalPages`. Lemmas state the search and listing properties on these functions.

Two external services are parameters of the store.

- **The loaded model:** `Embeddings.Encoder`, a function from text to a vector of 384 floats. Being a Dafny function, it is deterministic.
- **The nearest-neighbour query of sqlite-vec:** `Database.KnnOracle`. A value of this type is any function that returns at most `k` rows for `LIMIT k`. Each returned rowid is in the vector table, each distance is non-negative, and distances ascend.

The invariant `MemoryStore.Valid` (`Database.Consistent` on the field values) says four things:

- the two tables hold the same ids, with equal embeddings;
- every live id was handed out;
- every handed-out id lies between 1 and the counter;
- every embedding is 4 × 384 bytes.

Every state-changing method preserves it. So the pairing, the freshness of new ids and the loadability of every candidate row hold in every reachable state.

Timestamps are an abstract integer clock passed in as `now`. Distances, similarities and thresholds are reals. Metadata is an opaque map. An empty map is stored as NULL, as `json.dumps(metadata) if metadata else None` does.

## Model

| member | source | states |
|---|---|---|
| Embeddings.EmbeddingProvider.constructor | src/mcp_memory_server/embeddings.py:11-13 | At import there is no model, no error, and the ready flag is clear. |
| Embeddings.EmbeddingProvider.LoadModel | src/mcp_memory_server/embeddings.py:16-25 | Both outcomes set the ready flag. Success stores the model and leaves the error as it was. Failure records the error and leaves the model as it was (unset after a first load, the earlier model after a repeated one). The flag is never cleared, and a failed load stays failed. |
| Embeddings.EmbeddingProvider.GetEmbedding | src/mcp_memory_server/embeddings.py:34-43 | Once ready: a recorded load error is raised first, then "Model not loaded" if there is no model; otherwise the result is the model's encoding of the text, 384 entries long. |
| Embeddings.EmbeddingProvider.IsModelReady | src/mcp_memory_server/embeddings.py:57-59 | `is_model_ready` holds exactly in the Ready load phase (flag set, no error recorded); in a reachable state a model is then loaded. |
| Embeddings.EmbeddingSucceedsIffReady | src/mcp_memory_server/embeddings.py:57-59 | In a reachable state, `get_embedding` succeeds exactly when `is_model_ready` holds; otherwise it raises the recorded load error. |
| Embeddings.EmbeddingDeterministic | tests/test_embeddings.py:20-32 | The same model gives the same vector for the same text, and the vector has 384 entries. |
| Embeddings.WordBytes | src/mcp_memory_server/embeddings.py:46-48 | A packed float takes four bytes. |
| Embeddings.EmbeddingToBlob | src/mcp_memory_server/embeddings.py:46-48 | A vector of n floats packs into exactly 4n bytes. Bytes 4i to 4i+3 are float i. |
| Embeddings.Words | src/mcp_memory_server/embeddings.py:51-54 | A blob grouped into words yields length/4 of them. |
| Embeddings.BlobToEmbedding | src/mcp_memory_server/embeddings.py:51-54 | Unpacking succeeds exactly when the length is a multiple of 4, and then yields length/4 floats. Otherwise `struct.error` reports the required size 4·(length div 4) and the actual size. |
| Embeddings.WordsOfEncoding | src/mcp_memory_server/embeddings.py:46-54 | The encoding of a vector groups back into the same vector. |
| Embeddings.DecodeEncode | src/mcp_memory_server/embeddings.py:46-54 | Decoding an encoded vector gives back the original, float for float. |
| Embeddings.EncodeWords | src/mcp_memory_server/embeddings.py:46-54 | Re-packing the words of a blob gives back the blob. |
| Embeddings.EncodeDecode | src/mcp_memory_server/embeddings.py:46-54 | Every blob that decodes is exactly the encoding of what it decodes to. |
| Embeddings.ModelBlobWidth | src/mcp_memory_server/database.py:45-49 | A model vector packs into 4·384 bytes, the width of the `float[384]` column, and decodes back to itself. |
| Database.InsertKeepsConsistent | src/mcp_memory_server/database.py:146-157 | Inserting a record and its vector row under counter+1 keeps both tables paired. It also keeps every other part of the invariant. The new id was never handed out before. |
| Database.ReplaceKeepsConsistent | src/mcp_memory_server/database.py:190-198 | Replacing a live record and its vector row with the same new embedding keeps the invariant. |
| Database.RemoveKeepsConsistent | src/mcp_memory_server/database.py:221-222 | Deleting an id from both tables keeps the invariant. |
| Database.Similarity | src/mcp_memory_server/database.py:83-85 | The similarity 1 − d²/2 is at most 1. |
| Database.SimilarityAntitone | src/mcp_memory_server/database.py:83-85 | A larger distance never gives a larger similarity. |
| Database.Collect | src/mcp_memory_server/database.py:81-104 | The hits collected from the candidates number no more than the candidates. Each hit is a stored record, loaded as its row reads, with similarity at or above the threshold. |
| Database.Search | src/mcp_memory_server/database.py:80-107 | The search returns at most `limit` hits, a prefix of what the loop collects. |
| Database.CollectExtend | src/mcp_memory_server/database.py:81-104 | One more candidate adds nothing if it falls below the threshold or does not load; otherwise it adds its hit. |
| Database.CollectPrefix | src/mcp_memory_server/database.py:81-104 | Fewer candidates give a prefix of the hits. |
| Database.StoppedLoopIsSearch | src/mcp_memory_server/database.py:106-107 | Where the loop stops, its results are the search's result. It stops either after the last candidate or once it has `limit` results. |
| Database.CollectSimilarityAtLeast | src/mcp_memory_server/database.py:72-87 | Candidates no farther than d give hits no less similar than Similarity(d). |
| Database.CollectOrdered | src/mcp_memory_server/database.py:72-104 | Candidates in ascending distance give hits in non-increasing similarity. |
| Database.SearchOrdered | src/mcp_memory_server/database.py:72-107 | Search results never rise in similarity down the list. |
| Database.CollectAllPass | src/mcp_memory_server/database.py:85-87 | When every candidate clears both thresholds, the threshold does not change the hits. |
| Database.CollectThresholdPrefix | src/mcp_memory_server/database.py:85-87 | On distance-ordered candidates, the hits at a higher threshold are a prefix of the hits at a lower one. |
| Database.SearchThresholdMonotone | src/mcp_memory_server/database.py:85-107 | Raising the threshold only cuts results off the end of the list. |
| Database.ExactMatchFoundFirst | src/mcp_memory_server/database.py:81-104 | A stored record at distance 0 in front of the candidates comes back first, with similarity 1. |
| Database.NewestExists | src/mcp_memory_server/database.py:243 | A non-empty table has a record that lists before all others. |
| Database.CreatedDescOrder | src/mcp_memory_server/database.py:239-247 | The listing order has one entry per record, each a stored id. |
| Database.CreatedDescOrderIsPermutation | src/mcp_memory_server/database.py:239-247 | The listing order names every stored id exactly once. |
| Database.CreatedDescOrderSorted | src/mcp_memory_server/database.py:243 | Every id lists before all later ones, with `created_at` non-increasing down the order. |
| Database.Start | src/mcp_memory_server/database.py:244-246 | The offset where the page starts never lies past the end of the order. |
| Database.PageOf | src/mcp_memory_server/database.py:238-246 | A page is taken from the order starting at the offset, where a negative offset counts as 0. It holds `limit` ids, or all that remain if fewer. |
| Database.TotalPages | src/mcp_memory_server/database.py:261 | The page count is at least 1, and it is 1 for an empty table. Otherwise it is the ceiling of total/limit: (pages−1)·limit < total ≤ pages·limit. |
| Database.AppendPage | src/mcp_memory_server/database.py:238-246 | Appending the page at an offset extends the covered prefix of the order by one page. |
| Database.PagesUpToPrefix | src/mcp_memory_server/database.py:238-246 | Pages 1 to n together are the first n·limit ids of the order. |
| Database.PagesCoverOrder | src/mcp_memory_server/database.py:238-261 | Reading pages 1 to `total_pages` in turn gives the whole listing order, each id once. |
| Database.PastLastPageEmpty | src/mcp_memory_server/database.py:238-247 | A page past `total_pages` is empty, not an error. |
| Database.PageCountExamples | tests/test_web.py:154-171 | Five records at two per page make three pages, and an empty table reports one page. |
| Database.NatToString | src/mcp_memory_server/database.py:183 | The decimal form of a natural number is non-empty and all digits. |
| Database.IntToString | src/mcp_memory_server/database.py:183 | `str` of an integer is non-empty. |
| Database.NotFoundMessage | src/mcp_memory_server/database.py:183 | The error message ends in " not found". |
| Database.MemoryStore.constructor | src/mcp_memory_server/database.py:29-52 | A fresh database has both tables empty and the counter at 0, and is consistent. |
| Database.MemoryStore.Candidates | src/mcp_memory_server/database.py:65-78 | The KNN query for `LIMIT limit * 2` returns at most 2·limit rows of the vector table, in ascending distance. |
| Database.MemoryStore.SearchMemories | src/mcp_memory_server/database.py:55-110 | The method returns `SearchOutcome`. It raises exactly when embedding the query raises. Otherwise it returns at most `limit` stored records, each at or above the threshold, ranked by similarity. |
| Database.MemoryStore.FindSimilarMemories | src/mcp_memory_server/database.py:113-119 | The method is the search with limit 5 at the given threshold, or the configured duplicate threshold when none is given. At most 5 results. |
| Database.MemoryStore.InsertMemory | src/mcp_memory_server/database.py:139-170 | If embedding raises, nothing changes. Otherwise both rows are inserted under counter+1, with `created_at` and `updated_at` both `now`. That id was never issued and exceeds every issued id. Nothing else changes, and the reply is "stored" with that id and content. |
| Database.MemoryStore.CreateMemory | src/mcp_memory_server/database.py:122-170 | Without `force`, the guard search runs first. It can raise. A non-empty result gives "conflict_detected" listing those hits, and neither table changes. A conflict is reported only then. In every other case the method behaves as InsertMemory. The store stays consistent. |
| Database.MemoryStore.UpdateMemory | src/mcp_memory_server/database.py:173-208 | The model need be loaded only when the id exists: an unknown id is answered before the embedding is requested. An unknown id gives "Memory with id … not found", and nothing changes. If embedding raises, nothing changes. Otherwise the record gets the new content, embedding, metadata and `updated_at`, and its vector row the new embedding. `created_at`, all other records, the id set and the counter stay the same. |
| Database.MemoryStore.DeleteMemory | src/mcp_memory_server/database.py:211-227 | An unknown id gives the not-found error, and nothing changes. Otherwise exactly that id leaves both tables. The counter and the issued ids stay, so the id is never reused. |
| Database.MemoryStore.ListMemories | src/mcp_memory_server/database.py:230-268 | `total` is the record count and `page` is echoed back. `total_pages` is TotalPages. There are at most `limit` rows: row i is the stored record at position i of the page at offset (page−1)·limit of the `created_at`-descending order. |
| Database.SearchOutcomeSound | src/mcp_memory_server/database.py:55-110 | In any state, the search raises exactly when the embedding does. Otherwise it returns at most `limit` stored records at or above the threshold, ranked by similarity. |
| Database.ConflictListSound | src/mcp_memory_server/database.py:126-137 | A refused create lists between 1 and 5 stored memories. Each has its stored content and a similarity at or above the duplicate threshold. |
| Database.IdenticalContentBlocked | tests/test_database.py:41-46 | Suppose the index returns the stored copy of identical content at distance 0. Then a create without `force` is refused, and that copy is listed first at similarity 1. |
| Database.CandidatesLoad | src/mcp_memory_server/database.py:89-94 | In a consistent state every candidate row names a stored record. Every stored vector decodes into 384 floats. |

## Left out

- Connections, extension loading and the DDL (`get_connection`, `init_database`). These are I/O: the tables are maps, and each commit is one method body.
- The internals of sqlite-vec's KNN search and of the SentenceTransformer model. Both are foreign libraries, replaced by the `knn` and `Encoder` parameters.
- The background thread, `start_model_loading` and `threading.Event`. These are concurrency, so the flags are sequential state only.
- `GetEmbedding`, `SearchMemories`, `FindSimilarMemories`, `CreateMemory`, `InsertMemory`: `_model_ready.wait()` becomes the precondition `modelReady`, because these calls reach `get_embedding` on every path and do not return before the flag is set. `UpdateMemory` requires it only when the id exists, since an unknown id is answered before `get_embedding` is called (src/mcp_memory_server/database.py:180-185); `DeleteMemory` and `ListMemories` never embed and do not require it.
- The check-then-act race between the guard's search and the insert. The code uses two separate connections for these (src/mcp_memory_server/database.py:127 and 143). The model runs them back to back.
- The IEEE-754 layout of `struct.pack`: a float is an opaque 4-byte word. Distances, similarities and thresholds are exact reals.
- Rounding of the reported similarity to 4 places (src/mcp_memory_server/database.py:98). Hits carry the exact similarity.
- Timestamp strings (`CURRENT_TIMESTAMP`, `datetime.now().isoformat()`). The clock is an integer `now` supplied by the caller.
- The `datetime.now()` fallback at src/mcp_memory_server/database.py:161. It is unreachable once the insert has committed, so `created_at` is `now`.
- CreatedDescOrder: the query leaves the order of records with equal `created_at` unspecified. The model breaks such ties by larger id first, a choice of the model.
- JSON encoding of metadata. Metadata is an opaque map of values; only the empty-as-NULL rule is modelled.
- Database errors and partial commits (a full disk, a failing `DELETE`). Each method is all-or-nothing.
- UpdateMemory: an id outside signed 64 bits makes sqlite3 raise `OverflowError` when binding it (src/mcp_memory_server/database.py:180); the model, with unbounded integers, answers it as an unknown id.
- DeleteMemory: likewise an id outside signed 64 bits raises `OverflowError` at src/mcp_memory_server/database.py:216; the model answers it as an unknown id.
- ListMemories: an offset (page − 1) · limit or a limit outside signed 64 bits raises `OverflowError` at src/mcp_memory_server/database.py:239-247; the model returns the page (empty past the end) instead.
- SearchMemories: a limit with limit · 2 outside signed 64 bits raises `OverflowError` at src/mcp_memory_server/database.py:65-76; the model runs the search with the unbounded limit instead.
- InsertMemory: the 2^63 − 1 ceiling of SQLite's AUTOINCREMENT (`SQLITE_FULL`) is not modelled, because ids are unbounded integers.
- src/mcp_memory_server/server.py and src/mcp_memory_server/web.py: protocol and HTTP adapters. Their bounds `page ≥ 1` and `limit ≥ 1` only motivate two preconditions, `limit >= 1` on `ListMemories` (the division at line 261) and on `SearchMemories`.
  - ListMemories does not require `page ≥ 1`: a smaller page gives a negative OFFSET, which SQLite reads as 0, and `PageOf` does the same.
- SearchMemories: a limit below 1 is excluded by the precondition. In SQLite a negative LIMIT means unbounded, and the break at line 106 then stops after the first result; that path is not modelled.
- `get_statistics`: it is not part of this model, since its definition is not among the files modelled.
- src/mcp_memory_server/config.py parses environment variables only. The duplicate threshold is a constructor parameter, and every search states its threshold.
- BlobToEmbedding: `len(blob) // 4` floats are produced only when the length is a multiple of 4. For any other length, `struct.unpack` raises, so the model returns `Failure` rather than a truncated vector.
- GetEmbedding: in a reachable state the "Model not loaded" branch cannot be taken. A finished load always leaves a model or an error (EmbeddingSucceedsIffReady). The branch is still modelled, in the source's order.
