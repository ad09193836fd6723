/**
  The memory store of database.py. Two tables, `memories` (id -> record) and
  `vec_memories` (rowid -> embedding), written together in one commit per
  operation; a similarity search over the vector index; a duplicate guard in
  front of inserts; and paged listing in `created_at`-descending order.

  The vector index's nearest-neighbour query and the embedding model are
  external services: the first is the function value `knn` of type KnnOracle,
  the second the EmbeddingProvider of module Embeddings.
 */
module Database {
  import opened Wrappers
  import opened Embeddings

  /** Width of the `vec_memories.embedding` column (`float[384]`). */
  const EMBEDDING_DIM := 384

  /** Candidates fetched from the vector index per requested result. */
  const OVERFETCH := 2

  /** `find_similar_memories` searches with this limit. */
  const DUPLICATE_SEARCH_LIMIT := 5

  /** An abstract, ordered clock reading (the source stores formatted timestamps). */
  type Timestamp = int

  /** One metadata value, kept as its JSON text: the engine never looks inside. */
  datatype MetaValue = MetaValue(json: string)

  type Metadata = map<string, MetaValue>

  /** A row of the `memories` table. */
  datatype Memory = Memory(
    content: string,
    embedding: Blob,
    createdAt: Timestamp,
    updatedAt: Timestamp,
    metadata: Option<Metadata>)

  /** The two tables agree: the same ids, and each vector row holds its record's embedding. */
  ghost predicate Paired(memories: map<int, Memory>, vecMemories: map<int, Blob>) {
    && memories.Keys == vecMemories.Keys
    && forall id :: id in memories ==> memories[id].embedding == vecMemories[id]
  }

  /**
    The store's invariant on plain values: the tables are paired, every live
    id was handed out, every handed-out id lies in 1..lastId, and every
    embedding has the model's width.
   */
  ghost predicate Consistent(memories: map<int, Memory>, vecMemories: map<int, Blob>, lastId: nat, issued: set<int>) {
    && Paired(memories, vecMemories)
    && memories.Keys <= issued
    && (forall id :: id in issued ==> 1 <= id <= lastId)
    && (forall id :: id in memories ==> |memories[id].embedding| == FLOAT_SIZE * EMBEDDING_DIM)
  }

  /** Inserting a record of the model's width under the next id keeps the invariant. */
  lemma InsertKeepsConsistent(memories: map<int, Memory>, vecMemories: map<int, Blob>, lastId: nat, issued: set<int>, record: Memory)
    requires Consistent(memories, vecMemories, lastId, issued)
    requires |record.embedding| == FLOAT_SIZE * EMBEDDING_DIM
    ensures lastId + 1 !in issued
    ensures Consistent(memories[lastId + 1 := record], vecMemories[lastId + 1 := record.embedding], lastId + 1, issued + {lastId + 1})
  {
  }

  /** Replacing a live record by one of the model's width keeps the invariant. */
  lemma ReplaceKeepsConsistent(memories: map<int, Memory>, vecMemories: map<int, Blob>, lastId: nat, issued: set<int>, id: int, record: Memory)
    requires Consistent(memories, vecMemories, lastId, issued)
    requires id in memories && |record.embedding| == FLOAT_SIZE * EMBEDDING_DIM
    ensures Consistent(memories[id := record], vecMemories[id := record.embedding], lastId, issued)
  {
  }

  /** Removing an id from both tables keeps the invariant. */
  lemma RemoveKeepsConsistent(memories: map<int, Memory>, vecMemories: map<int, Blob>, lastId: nat, issued: set<int>, id: int)
    requires Consistent(memories, vecMemories, lastId, issued)
    ensures Consistent(memories - {id}, vecMemories - {id}, lastId, issued)
  {
  }

  /** `json.dumps(metadata) if metadata else None`: absent or empty metadata is stored as NULL. */
  function StoredMetadata(metadata: Option<Metadata>): (stored: Option<Metadata>)
    ensures stored.Some? <==> metadata.Some? && metadata.value != map[]
    ensures stored.Some? ==> stored == metadata
  {
    if metadata.None? || metadata.value == map[] then None else metadata
  }

  // ---------------------------------------------------------------------------
  // The nearest-neighbour oracle

  /** One row of the KNN query: a rowid of `vec_memories` and its L2 distance to the query. */
  datatype Neighbour = Neighbour(rowid: int, distance: real)

  /** Distances are non-negative and come in ascending order (`ORDER BY v.distance ASC`). */
  predicate Ascending(cands: seq<Neighbour>) {
    && (forall i :: 0 <= i < |cands| ==> 0.0 <= cands[i].distance)
    && (forall i, j :: 0 <= i < j < |cands| ==> cands[i].distance <= cands[j].distance)
  }

  /** What the vector index promises for `LIMIT k`: at most k rows, each a rowid of the table, in ascending distance. */
  predicate KnnAnswer(table: map<int, Blob>, k: int, cands: seq<Neighbour>) {
    && (k >= 0 ==> |cands| <= k)
    && (forall i :: 0 <= i < |cands| ==> cands[i].rowid in table)
    && Ascending(cands)
  }

  /** sqlite-vec's `MATCH ... ORDER BY distance LIMIT k`, abstracted to its promise. */
  type KnnOracle = f: (map<int, Blob>, Blob, int) -> seq<Neighbour>
    | forall table, query, k :: KnnAnswer(table, k, f(table, query, k))
    witness (table: map<int, Blob>, query: Blob, k: int) => []

  // ---------------------------------------------------------------------------
  // Search as a function of the record table and the candidate rows

  /** Cosine similarity of two unit vectors at L2 distance `distance`. */
  function Similarity(distance: real): (s: real)
    ensures s <= 1.0
  {
    1.0 - distance * distance / 2.0
  }

  lemma SimilarityAntitone(near: real, far: real)
    requires 0.0 <= near <= far
    ensures Similarity(far) <= Similarity(near)
  {
    assert near * near <= near * far;
    assert near * far <= far * far;
  }

  /** One search result: the stored record with the similarity it was found at. */
  datatype SearchHit = SearchHit(
    id: int,
    content: string,
    similarity: real,
    createdAt: Timestamp,
    updatedAt: Timestamp,
    metadata: Option<Metadata>)

  function HitOf(id: int, m: Memory, similarity: real): SearchHit {
    SearchHit(id, m.content, similarity, m.createdAt, m.updatedAt, m.metadata)
  }

  /** What one candidate row adds: nothing below the threshold or when the record does not load. */
  function Step(memories: map<int, Memory>, c: Neighbour, threshold: real): seq<SearchHit> {
    var similarity := Similarity(c.distance);
    if similarity < threshold || c.rowid !in memories then []
    else [HitOf(c.rowid, memories[c.rowid], similarity)]
  }

  /**
    The results the search loop collects from the candidates, in candidate
    order, before the limit stops it.
   */
  function Collect(memories: map<int, Memory>, cands: seq<Neighbour>, threshold: real): (hits: seq<SearchHit>)
    ensures |hits| <= |cands|
    ensures forall i :: 0 <= i < |hits| ==>
      && hits[i].id in memories
      && hits[i] == HitOf(hits[i].id, memories[hits[i].id], hits[i].similarity)
      && hits[i].similarity >= threshold
    decreases |cands|
  {
    if cands == [] then []
    else Collect(memories, cands[..|cands| - 1], threshold) + Step(memories, cands[|cands| - 1], threshold)
  }

  /** `search_memories` after the query has been embedded and the index asked: the first `limit` collected hits. */
  function Search(memories: map<int, Memory>, cands: seq<Neighbour>, limit: int, threshold: real): (hits: seq<SearchHit>)
    requires limit >= 1
    ensures |hits| <= limit
    ensures hits <= Collect(memories, cands, threshold)
  {
    var all := Collect(memories, cands, threshold);
    if |all| <= limit then all else all[..limit]
  }

  /** One more candidate row adds what Step says. */
  lemma CollectExtend(memories: map<int, Memory>, cands: seq<Neighbour>, threshold: real, n: nat)
    requires n < |cands|
    ensures Collect(memories, cands[..n + 1], threshold) == Collect(memories, cands[..n], threshold) + Step(memories, cands[n], threshold)
  {
    assert cands[..n + 1][..n] == cands[..n];
  }

  /** Collecting from a prefix of the candidates gives a prefix of the results. */
  lemma {:induction false} CollectPrefix(memories: map<int, Memory>, cands: seq<Neighbour>, threshold: real, n: nat)
    requires n <= |cands|
    ensures Collect(memories, cands[..n], threshold) <= Collect(memories, cands, threshold)
    decreases |cands|
  {
    if n < |cands| {
      var front := cands[..|cands| - 1];
      assert front[..n] == cands[..n];
      CollectPrefix(memories, front, threshold, n);
    } else {
      assert cands[..n] == cands;
    }
  }

  /** Where the search loop stops, its results are the first `limit` collected hits. */
  lemma StoppedLoopIsSearch(memories: map<int, Memory>, cands: seq<Neighbour>, limit: int, threshold: real,
                            n: nat, results: seq<SearchHit>)
    requires limit >= 1 && n <= |cands|
    requires results == Collect(memories, cands[..n], threshold)
    requires (n == |cands| && |results| < limit) || |results| == limit
    ensures results == Search(memories, cands, limit, threshold)
  {
    CollectPrefix(memories, cands, threshold, n);
    if n == |cands| {
      assert cands[..n] == cands;
    }
  }

  /** Every hit collected from candidates no farther than `d` has similarity at least Similarity(d). */
  lemma {:induction false} CollectSimilarityAtLeast(memories: map<int, Memory>, cands: seq<Neighbour>, threshold: real, d: real)
    requires forall i :: 0 <= i < |cands| ==> 0.0 <= cands[i].distance <= d
    ensures forall i :: 0 <= i < |Collect(memories, cands, threshold)| ==>
      Collect(memories, cands, threshold)[i].similarity >= Similarity(d)
    decreases |cands|
  {
    if cands != [] {
      var front := cands[..|cands| - 1];
      var last := cands[|cands| - 1];
      CollectSimilarityAtLeast(memories, front, threshold, d);
      SimilarityAntitone(last.distance, d);
    }
  }

  /** Hits come out in non-increasing similarity when the candidates come in ascending distance. */
  lemma {:induction false} CollectOrdered(memories: map<int, Memory>, cands: seq<Neighbour>, threshold: real)
    requires Ascending(cands)
    ensures forall i, j :: 0 <= i < j < |Collect(memories, cands, threshold)| ==>
      Collect(memories, cands, threshold)[i].similarity >= Collect(memories, cands, threshold)[j].similarity
    decreases |cands|
  {
    if cands != [] {
      var front := cands[..|cands| - 1];
      var last := cands[|cands| - 1];
      CollectOrdered(memories, front, threshold);
      CollectSimilarityAtLeast(memories, front, threshold, last.distance);
    }
  }

  /** Similarity never rises down the list. */
  predicate RankedBySimilarity(hits: seq<SearchHit>) {
    forall i, j :: 0 <= i < j < |hits| ==> hits[i].similarity >= hits[j].similarity
  }

  /** Search results never rise in similarity down the list. */
  lemma SearchOrdered(memories: map<int, Memory>, cands: seq<Neighbour>, limit: int, threshold: real)
    requires limit >= 1 && Ascending(cands)
    ensures RankedBySimilarity(Search(memories, cands, limit, threshold))
  {
    CollectOrdered(memories, cands, threshold);
  }

  /** When every candidate passes both thresholds, which threshold is used does not matter. */
  lemma {:induction false} CollectAllPass(memories: map<int, Memory>, cands: seq<Neighbour>, t1: real, t2: real)
    requires forall i :: 0 <= i < |cands| ==> Similarity(cands[i].distance) >= t1 && Similarity(cands[i].distance) >= t2
    ensures Collect(memories, cands, t1) == Collect(memories, cands, t2)
    decreases |cands|
  {
    if cands != [] {
      CollectAllPass(memories, cands[..|cands| - 1], t1, t2);
    }
  }

  lemma {:induction false} CollectThresholdPrefix(memories: map<int, Memory>, cands: seq<Neighbour>, lower: real, higher: real)
    requires lower <= higher && Ascending(cands)
    ensures Collect(memories, cands, higher) <= Collect(memories, cands, lower)
    decreases |cands|
  {
    if cands != [] {
      var front := cands[..|cands| - 1];
      var last := cands[|cands| - 1];
      if Similarity(last.distance) >= higher {
        forall i | 0 <= i < |front|
          ensures Similarity(front[i].distance) >= higher
        {
          SimilarityAntitone(front[i].distance, last.distance);
        }
        CollectAllPass(memories, front, lower, higher);
      } else {
        CollectThresholdPrefix(memories, front, lower, higher);
      }
    }
  }

  /**
    Lowering the threshold never removes a result: the results at the higher
    threshold are a prefix of those at the lower one.
   */
  lemma SearchThresholdMonotone(memories: map<int, Memory>, cands: seq<Neighbour>, limit: int, lower: real, higher: real)
    requires limit >= 1 && lower <= higher && Ascending(cands)
    ensures Search(memories, cands, limit, higher) <= Search(memories, cands, limit, lower)
  {
    CollectThresholdPrefix(memories, cands, lower, higher);
  }

  /** A stored record at distance 0 in front of the candidates comes back first, at similarity 1. */
  lemma ExactMatchFoundFirst(memories: map<int, Memory>, cands: seq<Neighbour>, limit: int, threshold: real)
    requires limit >= 1 && threshold <= 1.0
    requires |cands| > 0 && cands[0].rowid in memories && cands[0].distance == 0.0
    ensures |Search(memories, cands, limit, threshold)| >= 1
    ensures Search(memories, cands, limit, threshold)[0] == HitOf(cands[0].rowid, memories[cands[0].rowid], 1.0)
  {
    CollectPrefix(memories, cands, threshold, 1);
    assert cands[..1][..0] == [];
  }

  // ---------------------------------------------------------------------------
  // Listing as a function of the record table

  /** `a` lists before `b` under `ORDER BY created_at DESC`; ties (left open by the query) go to the larger id. */
  predicate NewerOrSame(m: map<int, Memory>, a: int, b: int)
    requires a in m && b in m
  {
    m[a].createdAt > m[b].createdAt || (m[a].createdAt == m[b].createdAt && a >= b)
  }

  lemma SomeId(ids: set<int>) returns (k: int)
    requires ids != {}
    ensures k in ids
  {
    if forall x: int :: x !in ids {
      assert false;
    }
    k :| k in ids;
  }

  lemma {:induction false} NewestExists(m: map<int, Memory>)
    requires |m| > 0
    ensures exists newest :: newest in m && forall j :: j in m ==> NewerOrSame(m, newest, j)
    decreases |m|
  {
    assert |m.Keys| == |m|;
    var k := SomeId(m.Keys);
    var rest := m - {k};
    assert rest.Keys == m.Keys - {k};
    if |rest| == 0 {
      assert rest.Keys == {};
      assert m.Keys == {k};
      assert forall j :: j in m ==> NewerOrSame(m, k, j);
    } else {
      NewestExists(rest);
      var best :| best in rest && forall j :: j in rest ==> NewerOrSame(rest, best, j);
      if NewerOrSame(m, best, k) {
        assert forall j :: j in m ==> NewerOrSame(m, best, j) by {
          forall j | j in m ensures NewerOrSame(m, best, j) {
            if j != k { assert j in rest; }
          }
        }
      } else {
        assert forall j :: j in m ==> NewerOrSame(m, k, j) by {
          forall j | j in m ensures NewerOrSame(m, k, j) {
            if j != k { assert j in rest && NewerOrSame(rest, best, j); }
          }
        }
      }
    }
  }

  /** The ids of the table in the order `ORDER BY created_at DESC` returns them. */
  function CreatedDescOrder(m: map<int, Memory>): (order: seq<int>)
    ensures |order| == |m|
    ensures forall i :: 0 <= i < |order| ==> order[i] in m
    decreases |m|
  {
    if |m| == 0 then []
    else
      NewestExists(m);
      var newest :| newest in m && forall j :: j in m ==> NewerOrSame(m, newest, j);
      var rest := m - {newest};
      assert rest.Keys == m.Keys - {newest};
      [newest] + CreatedDescOrder(rest)
  }

  /** The listing order names every stored id exactly once. */
  lemma {:induction false} CreatedDescOrderIsPermutation(m: map<int, Memory>)
    ensures forall id :: id in m ==> id in CreatedDescOrder(m)
    ensures forall i, j :: 0 <= i < j < |CreatedDescOrder(m)| ==> CreatedDescOrder(m)[i] != CreatedDescOrder(m)[j]
    decreases |m|
  {
    if |m| > 0 {
      var order := CreatedDescOrder(m);
      var newest := order[0];
      var rest := m - {newest};
      assert rest.Keys == m.Keys - {newest};
      assert order[1..] == CreatedDescOrder(rest);
      CreatedDescOrderIsPermutation(rest);
      forall id | id in m ensures id in order {
        if id != newest { assert id in rest; }
      }
      forall i, j | 0 <= i < j < |order| ensures order[i] != order[j] {
        if i == 0 { assert order[j] in rest; }
        else { assert order[i] == order[1..][i - 1] && order[j] == order[1..][j - 1]; }
      }
    }
  }

  /** Most recent first: each id lists before every later one (by `created_at`, ties by id). */
  lemma {:induction false} CreatedDescOrderSorted(m: map<int, Memory>)
    ensures forall i, j :: 0 <= i < j < |CreatedDescOrder(m)| ==>
      NewerOrSame(m, CreatedDescOrder(m)[i], CreatedDescOrder(m)[j])
    ensures forall i, j :: 0 <= i < j < |CreatedDescOrder(m)| ==>
      m[CreatedDescOrder(m)[i]].createdAt >= m[CreatedDescOrder(m)[j]].createdAt
    decreases |m|
  {
    if |m| > 0 {
      var order := CreatedDescOrder(m);
      var newest := order[0];
      var rest := m - {newest};
      assert rest.Keys == m.Keys - {newest};
      assert order[1..] == CreatedDescOrder(rest);
      assert forall j :: j in m ==> NewerOrSame(m, newest, j);
      CreatedDescOrderSorted(rest);
      forall i, j | 0 <= i < j < |order| ensures NewerOrSame(m, order[i], order[j]) {
        if i > 0 {
          assert order[i] == order[1..][i - 1] && order[j] == order[1..][j - 1];
          assert NewerOrSame(rest, order[i], order[j]);
        }
      }
    }
  }

  /** Where `OFFSET offset` starts: SQLite reads a negative offset as 0, and past the end nothing is left. */
  function Start(offset: int, n: nat): (start: nat)
    ensures start <= n
  {
    if offset < 0 then 0 else if offset > n then n else offset
  }

  /** `LIMIT limit OFFSET offset`: the first `limit` ids from the offset on, or all that remain. */
  function PageOf(order: seq<int>, offset: int, limit: int): (page: seq<int>)
    requires limit >= 1
    ensures page <= order[Start(offset, |order|)..]
    ensures |page| == if |order| - Start(offset, |order|) < limit then |order| - Start(offset, |order|) else limit
  {
    var start := Start(offset, |order|);
    var end := if start + limit > |order| then |order| else start + limit;
    order[start..end]
  }

  /** `(total + limit - 1) // limit if total > 0 else 1`. */
  function TotalPages(total: nat, limit: int): (pages: int)
    requires limit >= 1
    ensures pages >= 1
    ensures total == 0 ==> pages == 1
    ensures total > 0 ==> (pages - 1) * limit < total <= pages * limit
  {
    if total > 0 then
      var q := (total + limit - 1) / limit;
      var r := (total + limit - 1) % limit;
      assert q * limit + r == total + limit - 1;
      assert (q - 1) * limit == q * limit - limit;
      q
    else 1
  }

  /** Pages 1 to `pages`, one after the other. */
  function PagesUpTo(order: seq<int>, limit: int, pages: nat): seq<int>
    requires limit >= 1
  {
    if pages == 0 then [] else PagesUpTo(order, limit, pages - 1) + PageOf(order, (pages - 1) * limit, limit)
  }

  lemma MultiplyStep(pages: nat, limit: int)
    requires pages > 0
    ensures pages * limit == (pages - 1) * limit + limit
  {
  }

  /** Appending the page at `before` to the ids before it extends the covered prefix by one page. */
  lemma AppendPage(order: seq<int>, limit: int, before: int, done: seq<int>)
    requires limit >= 1 && before >= 0
    requires done == if before <= |order| then order[..before] else order
    ensures done + PageOf(order, before, limit) == if before + limit <= |order| then order[..before + limit] else order
  {
    var page := PageOf(order, before, limit);
    if before >= |order| {
      assert page == [];
    } else {
      var end := if before + limit <= |order| then before + limit else |order|;
      assert page == order[before..end];
      assert order[..before] + order[before..end] == order[..end];
    }
  }

  /** The first `pages` pages are the listing order up to `covered`, which is `pages * limit`. */
  lemma {:induction false} PagesUpToPrefix(order: seq<int>, limit: int, pages: nat, covered: int)
    requires limit >= 1 && covered == pages * limit
    ensures PagesUpTo(order, limit, pages) == if covered <= |order| then order[..covered] else order
  {
    if pages > 0 {
      var before := (pages - 1) * limit;
      MultiplyStep(pages, limit);
      PagesUpToPrefix(order, limit, pages - 1, before);
      AppendPage(order, limit, before, PagesUpTo(order, limit, pages - 1));
    }
  }

  /** Reading pages 1 to `total_pages` in turn gives every id once, in listing order. */
  lemma PagesCoverOrder(order: seq<int>, limit: int)
    requires limit >= 1
    ensures PagesUpTo(order, limit, TotalPages(|order|, limit)) == order
  {
    var pages := TotalPages(|order|, limit);
    PagesUpToPrefix(order, limit, pages, pages * limit);
    var covered := pages * limit;
    assert covered >= |order|;
    if covered == |order| {
      assert order[..covered] == order;
    }
  }

  lemma MultiplyMonotone(small: int, large: int, limit: int)
    requires 0 <= small <= large && limit >= 1
    ensures small * limit <= large * limit
  {
  }

  /** A page past `total_pages` is empty rather than an error. */
  lemma PastLastPageEmpty(order: seq<int>, limit: int, page: int)
    requires limit >= 1 && page > TotalPages(|order|, limit)
    ensures PageOf(order, (page - 1) * limit, limit) == []
  {
    var pages := TotalPages(|order|, limit);
    MultiplyMonotone(pages, page - 1, limit);
  }

  /** Five records at two per page make three pages; an empty table still reports one page. */
  lemma PageCountExamples()
    ensures TotalPages(5, 2) == 3
    ensures TotalPages(0, 2) == 1 && TotalPages(0, 50) == 1
  {
  }

  /** A row of `list_memories`. */
  datatype MemoryRow = MemoryRow(
    id: int,
    content: string,
    createdAt: Timestamp,
    updatedAt: Timestamp,
    metadata: Option<Metadata>)

  function RowOf(id: int, m: Memory): MemoryRow {
    MemoryRow(id, m.content, m.createdAt, m.updatedAt, m.metadata)
  }

  // ---------------------------------------------------------------------------
  // Replies

  datatype SimilarMemory = SimilarMemory(id: int, content: string, similarity: real)

  datatype CreateReply =
    | Stored(id: int, content: string, createdAt: Timestamp)
    | ConflictDetected(message: string, similarMemories: seq<SimilarMemory>)

  datatype UpdateReply =
    | Updated(id: int, content: string, updatedAt: Timestamp)
    | UpdateError(message: string)

  datatype DeleteReply =
    | Deleted(id: int)
    | DeleteError(message: string)

  datatype ListReply = ListReply(memories: seq<MemoryRow>, total: nat, page: int, totalPages: int)

  const CONFLICT_MESSAGE := "Found similar existing memories. Use force=true to create anyway, or call update_memory to merge."

  /** The `id`, `content` and `similarity` of each conflicting hit. */
  function Summaries(hits: seq<SearchHit>): (s: seq<SimilarMemory>)
    ensures |s| == |hits|
    ensures forall i :: 0 <= i < |s| ==> s[i] == SimilarMemory(hits[i].id, hits[i].content, hits[i].similarity)
  {
    seq(|hits|, i requires 0 <= i < |hits| => SimilarMemory(hits[i].id, hits[i].content, hits[i].similarity))
  }

  function DigitChar(d: nat): char
    requires d < 10
  {
    "0123456789"[d]
  }

  function NatToString(n: nat): (s: string)
    ensures |s| >= 1
    ensures forall i :: 0 <= i < |s| ==> '0' <= s[i] <= '9'
    decreases n
  {
    if n < 10 then [DigitChar(n)] else NatToString(n / 10) + [DigitChar(n % 10)]
  }

  /** Python's `str` of an int. */
  function IntToString(i: int): (s: string)
    ensures |s| >= 1
  {
    if i < 0 then "-" + NatToString(-i) else NatToString(i)
  }

  /** `f"Memory with id {memory_id} not found"`. */
  function NotFoundMessage(id: int): (message: string)
    ensures |message| >= 10 && message[|message| - 10..] == " not found"
  {
    "Memory with id " + IntToString(id) + " not found"
  }

  // ---------------------------------------------------------------------------
  // The store

  /** The database file: both tables, the AUTOINCREMENT counter, and the services the code calls. */
  class MemoryStore {
    /** The loaded (or loading) embedding model. */
    const provider: EmbeddingProvider
    /** The vector index's nearest-neighbour query. */
    const knn: KnnOracle
    /** `MEMORY_DUPLICATE_THRESHOLD`, consulted when no threshold is given. */
    const duplicateThreshold: real

    var memories: map<int, Memory>
    var vecMemories: map<int, Blob>
    /** The `sqlite_sequence` entry of `memories`: the largest id ever handed out. */
    var lastId: nat
    /** Every id ever handed out, deleted or not. */
    ghost var issued: set<int>

    ghost predicate Valid()
      reads this
    {
      Consistent(memories, vecMemories, lastId, issued)
    }

    /** A freshly initialised database: both tables empty, no id handed out yet. */
    constructor (provider: EmbeddingProvider, knn: KnnOracle, duplicateThreshold: real)
      ensures Valid()
      ensures this.provider == provider && this.knn == knn && this.duplicateThreshold == duplicateThreshold
      ensures memories == map[] && vecMemories == map[] && lastId == 0 && issued == {}
    {
      this.provider := provider;
      this.knn := knn;
      this.duplicateThreshold := duplicateThreshold;
      memories := map[];
      vecMemories := map[];
      lastId := 0;
      issued := {};
    }

    /** The rows the KNN query returns for `LIMIT limit * 2`. */
    function Candidates(query: Blob, limit: int): (cands: seq<Neighbour>)
      reads this
      requires limit >= 1
      ensures |cands| <= OVERFETCH * limit
      ensures forall i :: 0 <= i < |cands| ==> cands[i].rowid in vecMemories
      ensures Ascending(cands)
    {
      knn(vecMemories, query, OVERFETCH * limit)
    }

    /** What `search_memories(query, limit, threshold)` returns or raises in the current state. */
    function SearchOutcome(query: string, limit: int, threshold: real): Result<seq<SearchHit>, EmbedError>
      reads this, provider
      requires provider.modelReady && limit >= 1
    {
      match provider.GetEmbedding(query)
      case Failure(e) => Failure(e)
      case Success(v) => Success(Search(memories, Candidates(EmbeddingToBlob(v), limit), limit, threshold))
    }

    /**
      `search_memories`: walk the candidates in distance order, skip those
      below the threshold or whose record does not load, stop at `limit`.
     */
    method SearchMemories(query: string, limit: int, threshold: real) returns (r: Result<seq<SearchHit>, EmbedError>)
      requires provider.modelReady && limit >= 1
      ensures r == SearchOutcome(query, limit, threshold)
      ensures r.Failure? <==> provider.GetEmbedding(query).Failure?
      ensures r.Success? ==> |r.value| <= limit
      ensures r.Success? ==> forall i :: 0 <= i < |r.value| ==>
        && r.value[i].id in memories
        && r.value[i] == HitOf(r.value[i].id, memories[r.value[i].id], r.value[i].similarity)
        && r.value[i].similarity >= threshold
      ensures r.Success? ==> RankedBySimilarity(r.value)
    {
      var embedding := provider.GetEmbedding(query);
      if embedding.Failure? {
        return Failure(embedding.error);
      }
      var queryBlob := EmbeddingToBlob(embedding.value);
      var rows := Candidates(queryBlob, limit);
      var results: seq<SearchHit> := [];
      var i := 0;
      while i < |rows|
        invariant 0 <= i <= |rows|
        invariant results == Collect(memories, rows[..i], threshold)
        invariant |results| < limit
      {
        var row := rows[i];
        CollectExtend(memories, rows, threshold, i);
        var similarity := Similarity(row.distance);
        if similarity < threshold {
          assert Step(memories, row, threshold) == [];
          i := i + 1;
          continue;
        }
        if row.rowid in memories {
          assert Step(memories, row, threshold) == [HitOf(row.rowid, memories[row.rowid], similarity)];
          results := results + [HitOf(row.rowid, memories[row.rowid], similarity)];
        } else {
          assert Step(memories, row, threshold) == [];
        }
        i := i + 1;
        if |results| >= limit {
          break;
        }
      }
      StoppedLoopIsSearch(memories, rows, limit, threshold, i, results);
      assert SearchOutcome(query, limit, threshold) == Success(Search(memories, rows, limit, threshold));
      r := Success(results);
      SearchOutcomeSound(this, query, limit, threshold);
    }

    /** `find_similar_memories`: a search with limit 5 at the given or the configured duplicate threshold. */
    method FindSimilarMemories(content: string, threshold: Option<real>) returns (r: Result<seq<SearchHit>, EmbedError>)
      requires provider.modelReady
      ensures r == SearchOutcome(content, DUPLICATE_SEARCH_LIMIT, if threshold.Some? then threshold.value else duplicateThreshold)
      ensures r.Success? ==> |r.value| <= DUPLICATE_SEARCH_LIMIT
    {
      var t := if threshold.Some? then threshold.value else duplicateThreshold;
      r := SearchMemories(content, DUPLICATE_SEARCH_LIMIT, t);
    }

    /** The duplicate guard's search for `content` in the current state. */
    function GuardOutcome(content: string): Result<seq<SearchHit>, EmbedError>
      reads this, provider
      requires provider.modelReady
    {
      SearchOutcome(content, DUPLICATE_SEARCH_LIMIT, duplicateThreshold)
    }

    /** The create is refused: the guard ran (no `force`), succeeded, and found something. */
    function Blocked(content: string, force: bool): bool
      reads this, provider
      requires provider.modelReady
    {
      !force && GuardOutcome(content).Success? && |GuardOutcome(content).value| > 0
    }

    /**
      The commit half of `create_memory`: embed the content and insert both
      rows under the next AUTOINCREMENT id, with `created_at` and
      `updated_at` both `now`.
     */
    method InsertMemory(content: string, metadata: Option<Metadata>, now: Timestamp)
      returns (r: Result<CreateReply, EmbedError>)
      requires Valid() && provider.modelReady
      modifies this
      ensures Valid()
      ensures r.Failure? <==> provider.GetEmbedding(content).Failure?
      ensures r.Failure? ==> r.error == provider.GetEmbedding(content).error
      ensures r.Failure? ==>
        memories == old(memories) && vecMemories == old(vecMemories) && lastId == old(lastId) && issued == old(issued)
      ensures r.Success? ==> r.value.Stored?
      ensures r.Success? ==>
        var id := r.value.id;
        var blob := EmbeddingToBlob(provider.GetEmbedding(content).value);
        && id == old(lastId) + 1 && id !in old(issued)
        && (forall used :: used in old(issued) ==> used < id)
        && r.value.content == content && r.value.createdAt == now
        && memories == old(memories)[id := Memory(content, blob, now, now, StoredMetadata(metadata))]
        && vecMemories == old(vecMemories)[id := blob]
        && lastId == id && issued == old(issued) + {id}
    {
      var embedding := provider.GetEmbedding(content);
      if embedding.Failure? {
        return Failure(embedding.error);
      }
      var blob := EmbeddingToBlob(embedding.value);
      var id := lastId + 1;
      var record := Memory(content, blob, now, now, StoredMetadata(metadata));
      InsertKeepsConsistent(memories, vecMemories, lastId, issued, record);
      memories := memories[id := record];
      vecMemories := vecMemories[id := blob];
      lastId := id;
      issued := issued + {id};
      r := Success(Stored(id, content, now));
    }

    /**
      `create_memory`: unless `force`, the duplicate guard runs first and a
      non-empty result refuses the write; otherwise the memory is inserted.
     */
    method CreateMemory(content: string, metadata: Option<Metadata>, force: bool, now: Timestamp)
      returns (r: Result<CreateReply, EmbedError>)
      requires Valid() && provider.modelReady
      modifies this
      ensures Valid()
      ensures !force && old(GuardOutcome(content)).Failure? ==> r == Failure(old(GuardOutcome(content)).error)
      ensures old(Blocked(content, force)) ==>
        r == Success(ConflictDetected(CONFLICT_MESSAGE, Summaries(old(GuardOutcome(content)).value)))
      ensures r.Success? && r.value.ConflictDetected? ==> old(Blocked(content, force))
      ensures (force || old(GuardOutcome(content)).Success?) && !old(Blocked(content, force)) ==>
        if provider.GetEmbedding(content).Failure? then r == Failure(provider.GetEmbedding(content).error)
        else r.Success? && r.value.Stored?
      ensures r.Success? && r.value.Stored? ==>
        var id := r.value.id;
        var blob := EmbeddingToBlob(provider.GetEmbedding(content).value);
        && provider.GetEmbedding(content).Success?
        && id == old(lastId) + 1 && id !in old(issued)
        && (forall used :: used in old(issued) ==> used < id)
        && r.value.content == content && r.value.createdAt == now
        && memories == old(memories)[id := Memory(content, blob, now, now, StoredMetadata(metadata))]
        && vecMemories == old(vecMemories)[id := blob]
        && lastId == id && issued == old(issued) + {id}
      ensures !(r.Success? && r.value.Stored?) ==>
        memories == old(memories) && vecMemories == old(vecMemories) && lastId == old(lastId) && issued == old(issued)
    {
      if !force {
        var similar := FindSimilarMemories(content, None);
        assert similar == GuardOutcome(content);
        if similar.Failure? {
          return Failure(similar.error);
        }
        if |similar.value| > 0 {
          return Success(ConflictDetected(CONFLICT_MESSAGE, Summaries(similar.value)));
        }
      }
      r := InsertMemory(content, metadata, now);
    }

    /**
      `update_memory`: the id is looked up first; an existing record gets new
      content, embedding, metadata and `updated_at`, and its vector row the
      new embedding, in one commit.
     */
    method UpdateMemory(id: int, content: string, metadata: Option<Metadata>, now: Timestamp)
      returns (r: Result<UpdateReply, EmbedError>)
      requires Valid() && (id in memories ==> provider.modelReady)
      modifies this
      ensures Valid()
      ensures lastId == old(lastId) && issued == old(issued)
      ensures id !in old(memories) ==>
        r == Success(UpdateError(NotFoundMessage(id)))
      ensures id in old(memories) && provider.GetEmbedding(content).Failure? ==>
        r == Failure(provider.GetEmbedding(content).error)
      ensures id in old(memories) && provider.GetEmbedding(content).Success? ==>
        var blob := EmbeddingToBlob(provider.GetEmbedding(content).value);
        && r == Success(Updated(id, content, now))
        && memories == old(memories)[id := old(memories)[id].(content := content, embedding := blob,
                                                              metadata := StoredMetadata(metadata), updatedAt := now)]
        && vecMemories == old(vecMemories)[id := blob]
      ensures !(r.Success? && r.value.Updated?) ==> memories == old(memories) && vecMemories == old(vecMemories)
      ensures memories.Keys == old(memories.Keys)
      ensures forall other :: other in old(memories) && other != id ==> memories[other] == old(memories)[other]
      ensures id in memories ==> memories[id].createdAt == old(memories)[id].createdAt
    {
      if id !in memories {
        return Success(UpdateError(NotFoundMessage(id)));
      }
      var embedding := provider.GetEmbedding(content);
      if embedding.Failure? {
        return Failure(embedding.error);
      }
      var blob := EmbeddingToBlob(embedding.value);
      var record := memories[id].(content := content, embedding := blob, metadata := StoredMetadata(metadata), updatedAt := now);
      ReplaceKeepsConsistent(memories, vecMemories, lastId, issued, id, record);
      memories := memories[id := record];
      vecMemories := vecMemories[id := blob];
      r := Success(Updated(id, content, now));
    }

    /** `delete_memory`: the id is looked up first; an existing id leaves both tables in one commit. */
    method DeleteMemory(id: int) returns (r: DeleteReply)
      requires Valid()
      modifies this
      ensures Valid()
      ensures lastId == old(lastId) && issued == old(issued)
      ensures id !in old(memories) ==>
        r == DeleteError(NotFoundMessage(id)) && memories == old(memories) && vecMemories == old(vecMemories)
      ensures id in old(memories) ==>
        r == Deleted(id) && memories == old(memories) - {id} && vecMemories == old(vecMemories) - {id}
    {
      if id !in memories {
        return DeleteError(NotFoundMessage(id));
      }
      RemoveKeepsConsistent(memories, vecMemories, lastId, issued, id);
      vecMemories := vecMemories - {id};
      memories := memories - {id};
      r := Deleted(id);
    }

    /**
      `list_memories`: the count, then the page of the `created_at`-descending
      order at offset `(page - 1) * limit`, then the page count.
     */
    method ListMemories(page: int, limit: int) returns (reply: ListReply)
      requires limit >= 1
      ensures reply.total == |memories|
      ensures reply.page == page
      ensures reply.totalPages == TotalPages(|memories|, limit)
      ensures |reply.memories| <= limit
      ensures |reply.memories| == |PageOf(CreatedDescOrder(memories), (page - 1) * limit, limit)|
      ensures forall i :: 0 <= i < |reply.memories| ==>
        var id := PageOf(CreatedDescOrder(memories), (page - 1) * limit, limit)[i];
        id in memories && reply.memories[i] == RowOf(id, memories[id])
    {
      var total := |memories|;
      var offset := (page - 1) * limit;
      var ids := PageOf(CreatedDescOrder(memories), offset, limit);
      var rows: seq<MemoryRow> := [];
      var i := 0;
      while i < |ids|
        invariant 0 <= i <= |ids|
        invariant |rows| == i
        invariant forall k :: 0 <= k < i ==> ids[k] in memories && rows[k] == RowOf(ids[k], memories[ids[k]])
      {
        rows := rows + [RowOf(ids[i], memories[ids[i]])];
        i := i + 1;
      }
      var totalPages := TotalPages(total, limit);
      reply := ListReply(rows, total, page, totalPages);
    }
  }

  /**
    Whatever the state, the search raises exactly when the embedding does,
    returns at most `limit` hits, each a stored record at or above the threshold,
    and ranks them by similarity.
   */
  lemma SearchOutcomeSound(s: MemoryStore, query: string, limit: int, threshold: real)
    requires s.provider.modelReady && limit >= 1
    ensures s.SearchOutcome(query, limit, threshold).Failure? <==> s.provider.GetEmbedding(query).Failure?
    ensures var r := s.SearchOutcome(query, limit, threshold);
      r.Success? ==>
        && |r.value| <= limit
        && (forall i :: 0 <= i < |r.value| ==>
             && r.value[i].id in s.memories
             && r.value[i] == HitOf(r.value[i].id, s.memories[r.value[i].id], r.value[i].similarity)
             && r.value[i].similarity >= threshold)
        && RankedBySimilarity(r.value)
  {
    var embedding := s.provider.GetEmbedding(query);
    if embedding.Success? {
      SearchOrdered(s.memories, s.Candidates(EmbeddingToBlob(embedding.value), limit), limit, threshold);
    }
  }

  /**
    A refused create lists at most five stored memories, each with its stored
    content and a similarity at or above the duplicate threshold.
   */
  lemma ConflictListSound(s: MemoryStore, content: string)
    requires s.provider.modelReady && s.Blocked(content, false)
    ensures var similar := Summaries(s.GuardOutcome(content).value);
      && 0 < |similar| <= DUPLICATE_SEARCH_LIMIT
      && forall i :: 0 <= i < |similar| ==>
           && similar[i].id in s.memories
           && similar[i].content == s.memories[similar[i].id].content
           && similar[i].similarity >= s.duplicateThreshold
  {
    SearchOutcomeSound(s, content, DUPLICATE_SEARCH_LIMIT, s.duplicateThreshold);
  }

  /**
    Re-creating identical content is refused: when the index returns the
    stored copy at distance 0, the guard's search finds it at similarity 1.
   */
  lemma IdenticalContentBlocked(s: MemoryStore, content: string)
    requires s.provider.modelReady && s.provider.GetEmbedding(content).Success?
    requires s.duplicateThreshold <= 1.0
    requires var cands := s.Candidates(EmbeddingToBlob(s.provider.GetEmbedding(content).value), DUPLICATE_SEARCH_LIMIT);
      |cands| > 0 && cands[0].rowid in s.memories && cands[0].distance == 0.0
    ensures s.Blocked(content, false)
    ensures s.GuardOutcome(content).value[0].id == s.Candidates(EmbeddingToBlob(s.provider.GetEmbedding(content).value), DUPLICATE_SEARCH_LIMIT)[0].rowid
    ensures s.GuardOutcome(content).value[0].similarity == 1.0
  {
    var cands := s.Candidates(EmbeddingToBlob(s.provider.GetEmbedding(content).value), DUPLICATE_SEARCH_LIMIT);
    ExactMatchFoundFirst(s.memories, cands, DUPLICATE_SEARCH_LIMIT, s.duplicateThreshold);
  }

  /** Under the pairing invariant every candidate row names a stored record, and its embedding has the column's width. */
  lemma CandidatesLoad(s: MemoryStore, query: Blob, limit: int)
    requires s.Valid() && limit >= 1
    ensures forall i :: 0 <= i < |s.Candidates(query, limit)| ==> s.Candidates(query, limit)[i].rowid in s.memories
    ensures forall id :: id in s.vecMemories ==>
      (BlobToEmbedding(s.vecMemories[id]).Success? && |BlobToEmbedding(s.vecMemories[id]).value| == EMBEDDING_DIM)
  {
  }
}
