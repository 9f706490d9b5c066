/**
 * ProductSearch: the three queries over `product_chunks`. Each keeps the
 * rows whose score is strictly below a threshold, then either groups them by
 * product (MIN of the score per product, ascending, LIMIT) or returns the
 * rows themselves (ascending, LIMIT).
 *
 * The pgvector distance `<=>` and the pg_textsearch score `<@>` are
 * parameters: any real-valued functions.
 */
module ProductSearch {
  import opened Wrappers
  import opened Collections
  import opened Tiger

  const DefaultLimit: nat := 20
  const DefaultMaxDistance: real := 0.7
  const DefaultChunkLimit: nat := 50
  const DefaultScoreThreshold: real := -1.0

  /** `embeddings <=> query`: a distance between two vectors. */
  type Distance = (Embedding, Embedding) -> real

  /** `chunk_text <@> to_bm25query(query, ...)`: a BM25 score, lower is better. */
  type Bm25 = (string, string) -> real

  /** The distance of a row's embedding to the query vector. */
  function ByDistance(distance: Distance, query: Embedding): ChunkRow -> real
  {
    (row: ChunkRow) => distance(row.embedding, query)
  }

  /** The BM25 score of a row's text against the query text. */
  function ByBm25(bm25: Bm25, query: string): ChunkRow -> real
  {
    (row: ChunkRow) => bm25(row.chunkText, query)
  }

  /** The WHERE clause: positions of the rows whose score is strictly below the threshold, in table order. */
  function Below(rows: seq<ChunkRow>, score: ChunkRow -> real, threshold: real): (ps: seq<nat>)
    ensures Distinct(ps)
    ensures forall i :: 0 <= i < |ps| ==> ps[i] < |rows| && score(rows[ps[i]]) < threshold
    ensures forall p :: 0 <= p < |rows| && score(rows[p]) < threshold ==> p in ps
  {
    if rows == [] then []
    else
      var n := |rows| - 1;
      var init := Below(rows[..n], score, threshold);
      assert forall i :: 0 <= i < |init| ==> rows[..n][init[i]] == rows[init[i]];
      if score(rows[n]) < threshold then init + [n] else init
  }

  /**
   * MIN(score) over the qualifying rows of one product: None when the
   * product has no row below the threshold.
   */
  function GroupMin(rows: seq<ChunkRow>, score: ChunkRow -> real, threshold: real, id: int): (m: Option<real>)
    ensures m.None? <==> forall p :: 0 <= p < |rows| && rows[p].productId == id ==> score(rows[p]) >= threshold
    ensures m.Some? ==> exists p :: 0 <= p < |rows| && rows[p].productId == id && score(rows[p]) == m.value
    ensures m.Some? ==> m.value < threshold
    ensures m.Some? ==> forall p :: 0 <= p < |rows| && rows[p].productId == id && score(rows[p]) < threshold ==>
      m.value <= score(rows[p])
  {
    if rows == [] then None
    else
      var n := |rows| - 1;
      var init := rows[..n];
      var m0 := GroupMin(init, score, threshold, id);
      assert forall p :: 0 <= p < n ==> init[p] == rows[p];
      var row := rows[n];
      if row.productId == id && score(row) < threshold then
        (match m0
         case None => Some(score(row))
         case Some(v) => Some(if score(row) < v then score(row) else v))
      else m0
  }

  /** The product ids of the qualifying rows, each once, in order of first qualifying row. */
  function Groups(rows: seq<ChunkRow>, score: ChunkRow -> real, threshold: real): seq<int>
  {
    var ps := Below(rows, score, threshold);
    Dedup(seq(|ps|, i requires 0 <= i < |ps| => rows[ps[i]].productId))
  }

  /** One entry per group, scored by its negated minimum so that descending is ascending MIN. */
  function GroupEntries(rows: seq<ChunkRow>, score: ChunkRow -> real, threshold: real): seq<Entry>
  {
    var ids := Groups(rows, score, threshold);
    seq(|ids|, i requires 0 <= i < |ids| =>
      Entry(ids[i], match GroupMin(rows, score, threshold, ids[i]) case Some(v) => -v case None => 0.0))
  }

  /** SELECT product_id, MIN(score) ... WHERE score < threshold GROUP BY product_id ORDER BY MIN ASC LIMIT limit. */
  function TopGroups(rows: seq<ChunkRow>, score: ChunkRow -> real, threshold: real, limit: nat): seq<int>
  {
    Keys(TopK(GroupEntries(rows, score, threshold), limit))
  }

  /** A product forms a group exactly when one of its rows is below the threshold. */
  lemma GroupsCorrect(rows: seq<ChunkRow>, score: ChunkRow -> real, threshold: real)
    ensures Distinct(Groups(rows, score, threshold))
    ensures forall id :: id in Groups(rows, score, threshold) <==> GroupMin(rows, score, threshold, id).Some?
  {
    var ps := Below(rows, score, threshold);
    var pids := seq(|ps|, i requires 0 <= i < |ps| => rows[ps[i]].productId);
    forall id ensures id in pids <==> GroupMin(rows, score, threshold, id).Some? {
      if GroupMin(rows, score, threshold, id).Some? {
        var p :| 0 <= p < |rows| && rows[p].productId == id && score(rows[p]) == GroupMin(rows, score, threshold, id).value;
        var i :| 0 <= i < |ps| && ps[i] == p;
        assert pids[i] == id;
      }
    }
  }

  /**
   * Each group's entry carries the product id and its negated minimum; the
   * ids are distinct and every product with a qualifying row has its entry.
   */
  lemma GroupEntriesCorrect(rows: seq<ChunkRow>, score: ChunkRow -> real, threshold: real)
    ensures Distinct(Keys(GroupEntries(rows, score, threshold)))
    ensures forall e :: e in GroupEntries(rows, score, threshold) ==>
      GroupMin(rows, score, threshold, e.key).Some? && e.score == -GroupMin(rows, score, threshold, e.key).value
  {
    var ids := Groups(rows, score, threshold);
    var es := GroupEntries(rows, score, threshold);
    GroupsCorrect(rows, score, threshold);
    assert Keys(es) == ids;
    forall e | e in es
      ensures GroupMin(rows, score, threshold, e.key).Some? && e.score == -GroupMin(rows, score, threshold, e.key).value
    {
      var k :| 0 <= k < |es| && es[k] == e;
      assert ids[k] in ids;
    }
  }

  /** Every product with a qualifying row has its group's entry. */
  lemma GroupEntriesComplete(rows: seq<ChunkRow>, score: ChunkRow -> real, threshold: real, id: int)
    requires GroupMin(rows, score, threshold, id).Some?
    ensures Entry(id, -GroupMin(rows, score, threshold, id).value) in GroupEntries(rows, score, threshold)
  {
    var ids := Groups(rows, score, threshold);
    var es := GroupEntries(rows, score, threshold);
    GroupsCorrect(rows, score, threshold);
    var k :| 0 <= k < |ids| && ids[k] == id;
    assert es[k] == Entry(id, -GroupMin(rows, score, threshold, id).value);
    assert es[k] in es;
  }

  /**
   * The grouped query: distinct ids, each with a chunk strictly below the
   * threshold, in ascending order of their best (minimum) score, at most
   * `limit` of them; a product left out has no qualifying chunk, or the
   * limit is reached by products scoring no worse.
   */
  lemma TopGroupsCorrect(rows: seq<ChunkRow>, score: ChunkRow -> real, threshold: real, limit: nat)
    ensures var r := TopGroups(rows, score, threshold, limit);
      Distinct(r) && |r| <= limit &&
      (forall i :: 0 <= i < |r| ==> GroupMin(rows, score, threshold, r[i]).Some?) &&
      (forall i, j :: 0 <= i < j < |r| ==>
        GroupMin(rows, score, threshold, r[i]).value <= GroupMin(rows, score, threshold, r[j]).value)
    ensures var r := TopGroups(rows, score, threshold, limit);
      forall id :: GroupMin(rows, score, threshold, id).Some? && id !in r ==>
        |r| == limit &&
        forall i :: 0 <= i < |r| ==> GroupMin(rows, score, threshold, r[i]).value <= GroupMin(rows, score, threshold, id).value
  {
    var es := GroupEntries(rows, score, threshold);
    var top := TopK(es, limit);
    var r := Keys(top);
    GroupEntriesCorrect(rows, score, threshold);
    TopKCorrect(es, limit);
    forall i | 0 <= i < |r|
      ensures GroupMin(rows, score, threshold, r[i]).Some?
      ensures top[i].score == -GroupMin(rows, score, threshold, r[i]).value
    {
      assert top[i] in es;
    }
    forall id | GroupMin(rows, score, threshold, id).Some? && id !in r
      ensures |r| == limit
      ensures forall i :: 0 <= i < |r| ==> GroupMin(rows, score, threshold, r[i]).value <= GroupMin(rows, score, threshold, id).value
    {
      GroupEntriesComplete(rows, score, threshold, id);
    }
  }

  /** searchByEmbedding(): the grouped query scored by distance to the query vector. */
  function SearchByEmbedding(rows: seq<ChunkRow>, distance: Distance, query: Embedding, limit: nat, maxDistance: real): seq<int>
  {
    TopGroups(rows, ByDistance(distance, query), maxDistance, limit)
  }

  /** searchByBM25(): the grouped query scored by BM25 against the query text. */
  function SearchByBm25(rows: seq<ChunkRow>, bm25: Bm25, query: string, limit: nat, scoreThreshold: real): seq<int>
  {
    TopGroups(rows, ByBm25(bm25, query), scoreThreshold, limit)
  }

  /**
   * Every id returned by searchByEmbedding() has a chunk strictly closer
   * than maxDistance, appears once, and at most `limit` ids come back,
   * nearest (by its closest chunk) first; a product with a qualifying chunk
   * is left out only when `limit` products no farther fill the result.
   */
  lemma SearchByEmbeddingCorrect(rows: seq<ChunkRow>, distance: Distance, query: Embedding, limit: nat, maxDistance: real)
    ensures var r := SearchByEmbedding(rows, distance, query, limit, maxDistance);
      Distinct(r) && |r| <= limit &&
      forall i :: 0 <= i < |r| ==>
        exists p :: 0 <= p < |rows| && rows[p].productId == r[i] && distance(rows[p].embedding, query) < maxDistance
    ensures var r, score := SearchByEmbedding(rows, distance, query, limit, maxDistance), ByDistance(distance, query);
      (forall i :: 0 <= i < |r| ==> GroupMin(rows, score, maxDistance, r[i]).Some?) &&
      forall i, j :: 0 <= i < j < |r| ==>
        GroupMin(rows, score, maxDistance, r[i]).value <= GroupMin(rows, score, maxDistance, r[j]).value
    ensures var r, score := SearchByEmbedding(rows, distance, query, limit, maxDistance), ByDistance(distance, query);
      forall id :: GroupMin(rows, score, maxDistance, id).Some? && id !in r ==>
        |r| == limit &&
        forall i :: 0 <= i < |r| ==>
          GroupMin(rows, score, maxDistance, r[i]).Some? &&
          GroupMin(rows, score, maxDistance, r[i]).value <= GroupMin(rows, score, maxDistance, id).value
  {
    var score := ByDistance(distance, query);
    TopGroupsCorrect(rows, score, maxDistance, limit);
    var r := TopGroups(rows, score, maxDistance, limit);
    forall i | 0 <= i < |r|
      ensures exists p :: 0 <= p < |rows| && rows[p].productId == r[i] && distance(rows[p].embedding, query) < maxDistance
    {
      var m := GroupMin(rows, score, maxDistance, r[i]);
      var p :| 0 <= p < |rows| && rows[p].productId == r[i] && score(rows[p]) == m.value;
    }
  }

  /** A product all of whose chunks are at distance maxDistance or more (the boundary included) is never returned. */
  lemma SearchByEmbeddingExcludes(rows: seq<ChunkRow>, distance: Distance, query: Embedding, limit: nat, maxDistance: real, id: int)
    requires forall p :: 0 <= p < |rows| && rows[p].productId == id ==> distance(rows[p].embedding, query) >= maxDistance
    ensures id !in SearchByEmbedding(rows, distance, query, limit, maxDistance)
  {
    var score := ByDistance(distance, query);
    TopGroupsCorrect(rows, score, maxDistance, limit);
    assert GroupMin(rows, score, maxDistance, id).None?;
  }

  /**
   * Every id returned by searchByBM25() has a chunk scoring strictly below
   * the threshold, appears once, and at most `limit` ids come back, best
   * (lowest minimum score) first; a product with a qualifying chunk is left
   * out only when `limit` products scoring no worse fill the result.
   */
  lemma SearchByBm25Correct(rows: seq<ChunkRow>, bm25: Bm25, query: string, limit: nat, scoreThreshold: real)
    ensures var r := SearchByBm25(rows, bm25, query, limit, scoreThreshold);
      Distinct(r) && |r| <= limit &&
      forall i :: 0 <= i < |r| ==>
        exists p :: 0 <= p < |rows| && rows[p].productId == r[i] && bm25(rows[p].chunkText, query) < scoreThreshold
    ensures var r, score := SearchByBm25(rows, bm25, query, limit, scoreThreshold), ByBm25(bm25, query);
      (forall i :: 0 <= i < |r| ==> GroupMin(rows, score, scoreThreshold, r[i]).Some?) &&
      forall i, j :: 0 <= i < j < |r| ==>
        GroupMin(rows, score, scoreThreshold, r[i]).value <= GroupMin(rows, score, scoreThreshold, r[j]).value
    ensures var r, score := SearchByBm25(rows, bm25, query, limit, scoreThreshold), ByBm25(bm25, query);
      forall id :: GroupMin(rows, score, scoreThreshold, id).Some? && id !in r ==>
        |r| == limit &&
        forall i :: 0 <= i < |r| ==>
          GroupMin(rows, score, scoreThreshold, r[i]).Some? &&
          GroupMin(rows, score, scoreThreshold, r[i]).value <= GroupMin(rows, score, scoreThreshold, id).value
  {
    var score := ByBm25(bm25, query);
    TopGroupsCorrect(rows, score, scoreThreshold, limit);
    var r := TopGroups(rows, score, scoreThreshold, limit);
    forall i | 0 <= i < |r|
      ensures exists p :: 0 <= p < |rows| && rows[p].productId == r[i] && bm25(rows[p].chunkText, query) < scoreThreshold
    {
      var m := GroupMin(rows, score, scoreThreshold, r[i]);
      var p :| 0 <= p < |rows| && rows[p].productId == r[i] && score(rows[p]) == m.value;
    }
  }

  /**
   * A chunk of searchChunksWithDetails(): the selected columns of its row
   * and its distance to the query.
   */
  datatype ChunkMatch = ChunkMatch(
    productId: int,
    chunkText: string,
    chunkIndex: int,
    metadata: ChunkMetadata,
    distance: real)

  /** One entry per qualifying row: its position, scored by its negated distance. */
  function DetailEntries(rows: seq<ChunkRow>, distance: Distance, query: Embedding, maxDistance: real): seq<Entry>
  {
    var ps := Below(rows, ByDistance(distance, query), maxDistance);
    seq(|ps|, i requires 0 <= i < |ps| => Entry(ps[i], -distance(rows[ps[i]].embedding, query)))
  }

  /** The positions of the rows searchChunksWithDetails() returns, best first. */
  function DetailPositions(rows: seq<ChunkRow>, distance: Distance, query: Embedding, limit: nat, maxDistance: real): (r: seq<int>)
    ensures forall k :: 0 <= k < |r| ==> 0 <= r[k] < |rows|
  {
    DetailTop(rows, distance, query, limit, maxDistance);
    Keys(TopK(DetailEntries(rows, distance, query, maxDistance), limit))
  }

  /**
   * The entries name distinct qualifying positions, each scored by its
   * negated distance, and every qualifying position has its entry.
   */
  lemma DetailEntriesCorrect(rows: seq<ChunkRow>, distance: Distance, query: Embedding, maxDistance: real)
    ensures |DetailEntries(rows, distance, query, maxDistance)| == |Below(rows, ByDistance(distance, query), maxDistance)|
    ensures Distinct(Keys(DetailEntries(rows, distance, query, maxDistance)))
    ensures forall e :: e in DetailEntries(rows, distance, query, maxDistance) ==>
      0 <= e.key < |rows| && e.score == -distance(rows[e.key].embedding, query) &&
      distance(rows[e.key].embedding, query) < maxDistance
  {
    var score := ByDistance(distance, query);
    var ps := Below(rows, score, maxDistance);
    var es := DetailEntries(rows, distance, query, maxDistance);
    assert Keys(es) == ps;
    forall e | e in es
      ensures 0 <= e.key < |rows| && e.score == -distance(rows[e.key].embedding, query)
      ensures distance(rows[e.key].embedding, query) < maxDistance
    {
      var i :| 0 <= i < |es| && es[i] == e;
      assert score(rows[ps[i]]) < maxDistance;
    }
  }

  /** Every qualifying position has its entry. */
  lemma DetailEntriesComplete(rows: seq<ChunkRow>, distance: Distance, query: Embedding, maxDistance: real, p: int)
    requires 0 <= p < |rows| && distance(rows[p].embedding, query) < maxDistance
    ensures Entry(p, -distance(rows[p].embedding, query)) in DetailEntries(rows, distance, query, maxDistance)
  {
    var score := ByDistance(distance, query);
    var ps := Below(rows, score, maxDistance);
    var es := DetailEntries(rows, distance, query, maxDistance);
    assert score(rows[p]) < maxDistance;
    var i :| 0 <= i < |ps| && ps[i] == p;
    assert es[i] == Entry(p, -distance(rows[p].embedding, query));
  }

  /** Each of the best `limit` entries is a qualifying position scored by its negated distance. */
  lemma DetailTop(rows: seq<ChunkRow>, distance: Distance, query: Embedding, limit: nat, maxDistance: real)
    ensures var top := TopK(DetailEntries(rows, distance, query, maxDistance), limit);
      forall k :: 0 <= k < |top| ==>
        0 <= top[k].key < |rows| && top[k].score == -distance(rows[top[k].key].embedding, query) &&
        distance(rows[top[k].key].embedding, query) < maxDistance
  {
    var es := DetailEntries(rows, distance, query, maxDistance);
    var top := TopK(es, limit);
    DetailEntriesCorrect(rows, distance, query, maxDistance);
    TopKCorrect(es, limit);
    forall k | 0 <= k < |top|
      ensures 0 <= top[k].key < |rows| && top[k].score == -distance(rows[top[k].key].embedding, query)
      ensures distance(rows[top[k].key].embedding, query) < maxDistance
    {
      assert top[k] in es;
    }
  }

  /** searchChunksWithDetails(): single rows (not grouped) below maxDistance, nearest first, at most `limit`. */
  function SearchChunksWithDetails(rows: seq<ChunkRow>, distance: Distance, query: Embedding, limit: nat, maxDistance: real): seq<ChunkMatch>
  {
    var pos := DetailPositions(rows, distance, query, limit, maxDistance);
    seq(|pos|, k requires 0 <= k < |pos| =>
      var row := rows[pos[k]];
      ChunkMatch(row.productId, row.chunkText, row.chunkIndex, row.metadata, distance(row.embedding, query)))
  }

  /**
   * The positions chosen by the detailed query: distinct rows of the table,
   * all strictly below maxDistance, in ascending distance,
   * min(limit, number of qualifying rows) of them; a qualifying row left out
   * is no closer than any chosen one.
   */
  lemma DetailPositionsCorrect(rows: seq<ChunkRow>, distance: Distance, query: Embedding, limit: nat, maxDistance: real)
    ensures var pos := DetailPositions(rows, distance, query, limit, maxDistance);
      Distinct(pos) &&
      forall k :: 0 <= k < |pos| ==> 0 <= pos[k] < |rows| && distance(rows[pos[k]].embedding, query) < maxDistance
    ensures var pos := DetailPositions(rows, distance, query, limit, maxDistance);
      forall k, l :: 0 <= k < l < |pos| ==>
        distance(rows[pos[k]].embedding, query) <= distance(rows[pos[l]].embedding, query)
    ensures var pos := DetailPositions(rows, distance, query, limit, maxDistance);
      var n := |Below(rows, ByDistance(distance, query), maxDistance)|;
      |pos| == if limit < n then limit else n
    ensures var pos := DetailPositions(rows, distance, query, limit, maxDistance);
      forall p :: 0 <= p < |rows| && distance(rows[p].embedding, query) < maxDistance && p !in pos ==>
        |pos| == limit &&
        forall k :: 0 <= k < |pos| ==>
          distance(rows[pos[k]].embedding, query) <= distance(rows[p].embedding, query)
  {
    var es := DetailEntries(rows, distance, query, maxDistance);
    var top := TopK(es, limit);
    var pos := Keys(top);
    DetailEntriesCorrect(rows, distance, query, maxDistance);
    TopKCorrect(es, limit);
    DetailTop(rows, distance, query, limit, maxDistance);
    forall p | 0 <= p < |rows| && distance(rows[p].embedding, query) < maxDistance && p !in pos
      ensures |top| == limit && forall k :: 0 <= k < |top| ==> -top[k].score <= distance(rows[p].embedding, query)
    {
      DetailEntriesComplete(rows, distance, query, maxDistance, p);
    }
  }

  /**
   * searchChunksWithDetails() returns, for each chosen position, the
   * selected columns of that row of the table and its own distance: so the
   * rows are distinct, below maxDistance and nearest first.
   */
  lemma SearchChunksWithDetailsCorrect(rows: seq<ChunkRow>, distance: Distance, query: Embedding, limit: nat, maxDistance: real)
    ensures var pos := DetailPositions(rows, distance, query, limit, maxDistance);
      var r := SearchChunksWithDetails(rows, distance, query, limit, maxDistance);
      |r| == |pos| &&
      forall k :: 0 <= k < |r| ==>
        0 <= pos[k] < |rows| &&
        r[k] == ChunkMatch(rows[pos[k]].productId, rows[pos[k]].chunkText, rows[pos[k]].chunkIndex, rows[pos[k]].metadata,
                           distance(rows[pos[k]].embedding, query)) &&
        r[k].distance < maxDistance
    ensures var r := SearchChunksWithDetails(rows, distance, query, limit, maxDistance);
      forall k, l :: 0 <= k < l < |r| ==> r[k].distance <= r[l].distance
  {
    DetailPositionsCorrect(rows, distance, query, limit, maxDistance);
  }
}
