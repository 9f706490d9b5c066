/**
 * HybridSearchService: run the semantic and the BM25 search, turn each list
 * of ids into 1-based ranks, fuse them with weighted Reciprocal Rank Fusion
 * (k = 60), sort by fused score, highest first, and keep the first `limit`
 * ids. Scores are exact reals.
 */
module HybridSearch {
  import opened Collections
  import opened Tiger
  import opened ProductSearch

  const RrfK: nat := 60
  /** getSemanticResults() calls searchByEmbedding() with this maximum distance. */
  const SemanticMaxDistance: real := 0.78
  const DefaultLimit: nat := 20
  const DefaultSemanticWeight: real := 0.6
  const DefaultKeywordWeight: real := 0.4

  /** A PHP array product_id => rank: its keys in insertion order, and the rank of each key. */
  datatype RankMap = RankMap(order: seq<int>, rank: map<int, nat>)

  /** The keys are listed once each, and every rank is at least 1. */
  predicate ValidRanks(m: RankMap)
  {
    Distinct(m.order) &&
    (forall id :: id in m.rank ==> id in m.order) &&
    (forall id :: id in m.order ==> id in m.rank) &&
    (forall id :: id in m.rank ==> m.rank[id] >= 1)
  }

  /** `foreach ($ids as $rank => $id) $ranked[$id] = $rank + 1;` as a value. */
  function RankOf(ids: seq<int>): RankMap
  {
    if ids == [] then RankMap([], map[])
    else
      var m := RankOf(ids[..|ids| - 1]);
      var id := ids[|ids| - 1];
      RankMap(if id in m.rank then m.order else m.order + [id], m.rank[id := |ids|])
  }

  /** The keys of the rank map are the distinct ids, in order of first appearance, each with a rank of at least 1. */
  lemma {:induction false} RankOfKeys(ids: seq<int>)
    ensures ValidRanks(RankOf(ids))
    ensures RankOf(ids).order == Dedup(ids)
  {
    if ids != [] {
      RankOfKeys(ids[..|ids| - 1]);
    }
  }

  /**
   * Each id's rank is one more than the index of its last occurrence, so the
   * i-th id of a list without repetitions gets rank i + 1.
   */
  lemma {:induction false} RankOfRanks(ids: seq<int>)
    ensures forall id :: id in RankOf(ids).rank ==>
      1 <= RankOf(ids).rank[id] <= |ids| && ids[RankOf(ids).rank[id] - 1] == id &&
      forall j :: RankOf(ids).rank[id] <= j < |ids| ==> ids[j] != id
    ensures forall id :: id in ids ==> id in RankOf(ids).rank
  {
    if ids != [] {
      var init, id := ids[..|ids| - 1], ids[|ids| - 1];
      RankOfRanks(init);
      var m := RankOf(ids);
      forall x | x in m.rank
        ensures 1 <= m.rank[x] <= |ids| && ids[m.rank[x] - 1] == x && forall j :: m.rank[x] <= j < |ids| ==> ids[j] != x
      {
        if x != id {
          assert init[RankOf(init).rank[x] - 1] == x;
        }
      }
      forall x | x in ids ensures x in m.rank {
        if x != id {
          var i :| 0 <= i < |ids| && ids[i] == x;
          assert init[i] == x;
        }
      }
    }
  }

  /** For a list without repetitions (as both searches return), the i-th id has rank i + 1. */
  lemma RankOfDistinct(ids: seq<int>)
    requires Distinct(ids)
    ensures forall i :: 0 <= i < |ids| ==> ids[i] in RankOf(ids).rank && RankOf(ids).rank[ids[i]] == i + 1
  {
    RankOfRanks(ids);
    forall i | 0 <= i < |ids| ensures ids[i] in RankOf(ids).rank && RankOf(ids).rank[ids[i]] == i + 1 {
      assert ids[i] in ids;
      var r := RankOf(ids).rank[ids[i]];
      assert ids[r - 1] == ids[i];
    }
  }

  /** getSemanticResults()/getBM25Results(): the ranking loop. */
  method RankResults(ids: seq<int>) returns (ranked: RankMap)
    ensures ranked == RankOf(ids)
  {
    ranked := RankMap([], map[]);
    var i := 0;
    while i < |ids|
      invariant 0 <= i <= |ids|
      invariant ranked == RankOf(ids[..i])
    {
      var id := ids[i];
      assert ids[..i + 1][..i] == ids[..i];
      if id !in ranked.rank {
        ranked := ranked.(order := ranked.order + [id]);
      }
      ranked := ranked.(rank := ranked.rank[id := i + 1]);
      i := i + 1;
    }
    assert ids[..|ids|] == ids;
  }

  /** getSemanticResults(): ranks of searchByEmbedding() with the caller's limit and maxDistance 0.78. */
  method GetSemanticResults(rows: seq<ChunkRow>, distance: Distance, embedding: Embedding, limit: nat) returns (ranked: RankMap)
    ensures ranked == RankOf(SearchByEmbedding(rows, distance, embedding, limit, SemanticMaxDistance))
  {
    var ids := SearchByEmbedding(rows, distance, embedding, limit, SemanticMaxDistance);
    ranked := RankResults(ids);
  }

  /** getBM25Results(): ranks of searchByBM25() with the caller's limit and the default threshold. */
  method GetBm25Results(rows: seq<ChunkRow>, bm25: Bm25, query: string, limit: nat) returns (ranked: RankMap)
    ensures ranked == RankOf(SearchByBm25(rows, bm25, query, limit, DefaultScoreThreshold))
  {
    var ids := SearchByBm25(rows, bm25, query, limit, DefaultScoreThreshold);
    ranked := RankResults(ids);
  }

  /** One side's RRF term: weight / (60 + rank), or 0 when the id is absent from that side. */
  function Contribution(weight: real, m: RankMap, id: int): real
  {
    if id in m.rank then weight * (1.0 / ((RrfK + m.rank[id]) as real)) else 0.0
  }

  /** The fused score of one id. */
  function RrfScore(semantic: RankMap, bm25: RankMap, semanticWeight: real, keywordWeight: real, id: int): real
  {
    0.0 + Contribution(semanticWeight, semantic, id) + Contribution(keywordWeight, bm25, id)
  }

  /** array_unique(array_merge(array_keys($semantic), array_keys($bm25))). */
  function Candidates(semantic: RankMap, bm25: RankMap): seq<int>
  {
    Dedup(semantic.order + bm25.order)
  }

  /** The `$combined` array before arsort(): each candidate with its fused score, in candidate order. */
  function Combined(semantic: RankMap, bm25: RankMap, semanticWeight: real, keywordWeight: real): seq<Entry>
  {
    var c := Candidates(semantic, bm25);
    seq(|c|, i requires 0 <= i < |c| => Entry(c[i], RrfScore(semantic, bm25, semanticWeight, keywordWeight, c[i])))
  }

  /** The fused ranking: arsort($combined), a stable sort by descending score. */
  function Fused(semantic: RankMap, bm25: RankMap, semanticWeight: real, keywordWeight: real): seq<Entry>
  {
    SortDesc(Combined(semantic, bm25, semanticWeight, keywordWeight))
  }

  /** fuseResults(): the scoring loop, then arsort(). */
  method FuseResults(semantic: RankMap, bm25: RankMap, semanticWeight: real, keywordWeight: real) returns (fused: seq<Entry>)
    ensures fused == Fused(semantic, bm25, semanticWeight, keywordWeight)
  {
    var k := RrfK;
    var combined: seq<Entry> := [];
    var allProductIds := Dedup(semantic.order + bm25.order);
    var i := 0;
    while i < |allProductIds|
      invariant 0 <= i <= |allProductIds|
      invariant combined == Combined(semantic, bm25, semanticWeight, keywordWeight)[..i]
    {
      var productId := allProductIds[i];
      ghost var target := Combined(semantic, bm25, semanticWeight, keywordWeight);
      assert target[..i + 1] == target[..i] + [target[i]];
      var score := 0.0;
      if productId in semantic.rank {
        score := score + semanticWeight * (1.0 / ((k + semantic.rank[productId]) as real));
      }
      if productId in bm25.rank {
        score := score + keywordWeight * (1.0 / ((k + bm25.rank[productId]) as real));
      }
      assert score == RrfScore(semantic, bm25, semanticWeight, keywordWeight, productId);
      combined := combined + [Entry(productId, score)];
      i := i + 1;
    }
    assert combined == Combined(semantic, bm25, semanticWeight, keywordWeight);
    fused := SortDesc(combined);
  }

  /** The fused ranking is a reordering of the candidates: each exactly once, with its RRF score. */
  lemma FusedEntries(semantic: RankMap, bm25: RankMap, semanticWeight: real, keywordWeight: real)
    ensures var f := Fused(semantic, bm25, semanticWeight, keywordWeight);
      Distinct(Keys(f)) &&
      (forall id :: id in Keys(f) <==> id in Candidates(semantic, bm25)) &&
      (forall i :: 0 <= i < |f| ==> f[i].score == RrfScore(semantic, bm25, semanticWeight, keywordWeight, f[i].key))
  {
    var c := Candidates(semantic, bm25);
    var comb := Combined(semantic, bm25, semanticWeight, keywordWeight);
    var f := SortDesc(comb);
    assert Keys(comb) == c;
    SortDescCorrect(comb);
    SortDescDistinct(comb);
    forall id ensures id in Keys(f) <==> id in c {
      if id in Keys(f) {
        var i :| 0 <= i < |f| && f[i].key == id;
        assert f[i] in multiset(comb);
      }
      if id in c {
        var i :| 0 <= i < |c| && c[i] == id;
        assert comb[i] in multiset(f);
      }
    }
    forall i | 0 <= i < |f| ensures f[i].score == RrfScore(semantic, bm25, semanticWeight, keywordWeight, f[i].key) {
      assert f[i] in multiset(comb);
    }
  }

  /**
   * The fused ranking holds every id of either side exactly once, each with
   * its RRF score, highest first; entries of equal score keep the candidate
   * order, in which the semantic ids come first, in rank order.
   */
  lemma FusedCorrect(semantic: RankMap, bm25: RankMap, semanticWeight: real, keywordWeight: real)
    requires ValidRanks(semantic) && ValidRanks(bm25)
    ensures var f := Fused(semantic, bm25, semanticWeight, keywordWeight);
      SortedDesc(f) && Distinct(Keys(f)) &&
      (forall id :: id in Keys(f) <==> id in semantic.rank || id in bm25.rank) &&
      (forall i :: 0 <= i < |f| ==> f[i].score == RrfScore(semantic, bm25, semanticWeight, keywordWeight, f[i].key))
    ensures forall v :: (WithScore(Fused(semantic, bm25, semanticWeight, keywordWeight), v) ==
      WithScore(Combined(semantic, bm25, semanticWeight, keywordWeight), v))
    ensures |Candidates(semantic, bm25)| >= |semantic.order|
    ensures Candidates(semantic, bm25)[..|semantic.order|] == semantic.order
  {
    SortDescCorrect(Combined(semantic, bm25, semanticWeight, keywordWeight));
    FusedEntries(semantic, bm25, semanticWeight, keywordWeight);
    DedupKeepsPrefix(semantic.order, bm25.order);
  }

  /** The candidates are listed in the order of the `$combined` array. */
  lemma CombinedKeys(semantic: RankMap, bm25: RankMap, semanticWeight: real, keywordWeight: real)
    ensures Keys(Combined(semantic, bm25, semanticWeight, keywordWeight)) == Candidates(semantic, bm25)
  {
  }

  /** With a positive weight, a better (smaller) rank on a side gives a strictly larger contribution. */
  lemma ContributionDecreasing(weight: real, m: RankMap, better: int, worse: int)
    requires weight > 0.0
    requires better in m.rank && worse in m.rank && m.rank[better] < m.rank[worse]
    ensures Contribution(weight, m, better) > Contribution(weight, m, worse)
  {
    ReciprocalDecreasing((RrfK + m.rank[better]) as real, (RrfK + m.rank[worse]) as real);
  }

  lemma ReciprocalDecreasing(a: real, b: real)
    requires 0.0 < a < b
    ensures 1.0 / a > 1.0 / b
  {
    var x, y := 1.0 / a, 1.0 / b;
    assert x * a == 1.0 && y * b == 1.0;
    assert y > 0.0;
  }

  /** An id that appears on neither side gets no score, and two empty sides fuse to nothing. */
  lemma FusedOfEmpty(semanticWeight: real, keywordWeight: real)
    ensures Fused(RankOf([]), RankOf([]), semanticWeight, keywordWeight) == []
  {
    assert Candidates(RankOf([]), RankOf([])) == [];
  }

  /** search(): the first `limit` keys of the fused ranking. */
  function HybridIds(rows: seq<ChunkRow>, distance: Distance, bm25: Bm25, query: string, embedding: Embedding,
                     limit: nat, semanticWeight: real, keywordWeight: real): seq<int>
  {
    var semantic := RankOf(SearchByEmbedding(rows, distance, embedding, limit, SemanticMaxDistance));
    var keyword := RankOf(SearchByBm25(rows, bm25, query, limit, DefaultScoreThreshold));
    var keys := Keys(Fused(semantic, keyword, semanticWeight, keywordWeight));
    keys[..if limit < |keys| then limit else |keys|]
  }

  /** search(). */
  method Search(rows: seq<ChunkRow>, distance: Distance, bm25: Bm25, query: string, embedding: Embedding,
                limit: nat, semanticWeight: real, keywordWeight: real) returns (ids: seq<int>)
    ensures ids == HybridIds(rows, distance, bm25, query, embedding, limit, semanticWeight, keywordWeight)
  {
    var semanticResults := GetSemanticResults(rows, distance, embedding, limit);
    var bm25Results := GetBm25Results(rows, bm25, query, limit);
    var fusedResults := FuseResults(semanticResults, bm25Results, semanticWeight, keywordWeight);
    var keys := Keys(fusedResults);
    ids := keys[..if limit < |keys| then limit else |keys|];
  }

  /**
   * search() returns at most `limit` distinct ids, each found by the
   * semantic or by the BM25 search, in non-increasing fused score.
   */
  lemma HybridIdsCorrect(rows: seq<ChunkRow>, distance: Distance, bm25: Bm25, query: string, embedding: Embedding,
                         limit: nat, semanticWeight: real, keywordWeight: real)
    ensures var semantic := RankOf(SearchByEmbedding(rows, distance, embedding, limit, SemanticMaxDistance));
      var keyword := RankOf(SearchByBm25(rows, bm25, query, limit, DefaultScoreThreshold));
      var r := HybridIds(rows, distance, bm25, query, embedding, limit, semanticWeight, keywordWeight);
      |r| <= limit && Distinct(r) &&
      (forall i :: 0 <= i < |r| ==>
        r[i] in SearchByEmbedding(rows, distance, embedding, limit, SemanticMaxDistance) ||
        r[i] in SearchByBm25(rows, bm25, query, limit, DefaultScoreThreshold)) &&
      forall i, j :: 0 <= i < j < |r| ==>
        RrfScore(semantic, keyword, semanticWeight, keywordWeight, r[i]) >=
        RrfScore(semantic, keyword, semanticWeight, keywordWeight, r[j])
  {
    var semIds := SearchByEmbedding(rows, distance, embedding, limit, SemanticMaxDistance);
    var bmIds := SearchByBm25(rows, bm25, query, limit, DefaultScoreThreshold);
    var semantic, keyword := RankOf(semIds), RankOf(bmIds);
    RankOfKeys(semIds);
    RankOfKeys(bmIds);
    FusedCorrect(semantic, keyword, semanticWeight, keywordWeight);
    var f := Fused(semantic, keyword, semanticWeight, keywordWeight);
    var keys := Keys(f);
    var r := HybridIds(rows, distance, bm25, query, embedding, limit, semanticWeight, keywordWeight);
    assert r == keys[..|r|];
    forall i | 0 <= i < |r| ensures r[i] in semIds || r[i] in bmIds {
      assert keys[i] in keys;
    }
  }

  lemma RankOfOne(a: int)
    ensures RankOf([a]) == RankMap([a], map[a := 1])
  {
    assert [a][..0] == [];
  }

  lemma RankOfTwo(a: int, b: int)
    requires a != b
    ensures RankOf([a, b]) == RankMap([a, b], map[a := 1, b := 2])
  {
    assert [a, b][..1] == [a];
    RankOfOne(a);
  }

  lemma DedupThree(a: int, b: int, c: int)
    requires a != b && b != c && a != c
    ensures Dedup([a, b, b, c]) == [a, b, c]
  {
    var s := [a, b, b, c];
    assert s[..3] == [a, b, b] && [a, b, b][..2] == [a, b] && [a, b][..1] == [a] && [a][..0] == [];
    assert Dedup([a]) == [a];
    assert Dedup([a, b]) == [a, b];
    assert Dedup([a, b, b]) == [a, b];
  }

  lemma DedupTwo(a: int, b: int)
    requires a != b
    ensures Dedup([a, b]) == [a, b]
  {
    assert [a, b][..1] == [a] && [a][..0] == [];
    assert Dedup([a]) == [a];
  }

  lemma SortThree(e1: Entry, e2: Entry, e3: Entry)
    requires e1.score < e2.score && e3.score <= e1.score
    ensures SortDesc([e1, e2, e3]) == [e2, e1, e3]
  {
    var s := [e1, e2, e3];
    assert s[..2] == [e1, e2] && [e1, e2][..1] == [e1] && [e1][..0] == [];
    assert SortDesc([e1]) == [e1];
    assert SortDesc([e1, e2]) == [e2, e1];
    assert InsertDesc([e1], e3) == [e1] + InsertDesc([], e3);
  }

  lemma SortTie(e1: Entry, e2: Entry)
    requires e1.score == e2.score
    ensures SortDesc([e1, e2]) == [e1, e2]
  {
    assert [e1, e2][..1] == [e1] && [e1][..0] == [];
    assert SortDesc([e1]) == [e1];
    assert InsertDesc([e1], e2) == [e1] + InsertDesc([], e2);
  }

  /**
   * Semantic [a, b] and BM25 [b, c] with weights 0.6 / 0.4: b, found by
   * both searches, comes first, then a, then c.
   */
  lemma FusedExample(a: int, b: int, c: int)
    requires a != b && b != c && a != c
    ensures Keys(Fused(RankOf([a, b]), RankOf([b, c]), 0.6, 0.4)) == [b, a, c]
  {
    RankOfTwo(a, b);
    RankOfTwo(b, c);
    var semantic, keyword := RankOf([a, b]), RankOf([b, c]);
    assert semantic.order + keyword.order == [a, b, b, c];
    DedupThree(a, b, c);
    var e1, e2, e3 := Entry(a, 0.0 + 0.6 * (1.0 / 61.0) + 0.0),
                      Entry(b, 0.0 + 0.6 * (1.0 / 62.0) + 0.4 * (1.0 / 61.0)),
                      Entry(c, 0.0 + 0.0 + 0.4 * (1.0 / 62.0));
    var comb := Combined(semantic, keyword, 0.6, 0.4);
    assert comb == [e1, e2, e3] by {
      assert comb[0] == e1 && comb[1] == e2 && comb[2] == e3;
    }
    SortThree(e1, e2, e3);
  }

  /**
   * Equal scores keep candidate order: semantic [a] and BM25 [b] with equal
   * weights tie, and the semantic id comes first.
   */
  lemma FusedTieExample(a: int, b: int, weight: real)
    requires a != b
    ensures Keys(Fused(RankOf([a]), RankOf([b]), weight, weight)) == [a, b]
  {
    RankOfOne(a);
    RankOfOne(b);
    var semantic, keyword := RankOf([a]), RankOf([b]);
    assert semantic.order + keyword.order == [a, b];
    DedupTwo(a, b);
    var e1, e2 := Entry(a, 0.0 + weight * (1.0 / 61.0) + 0.0), Entry(b, 0.0 + 0.0 + weight * (1.0 / 61.0));
    var comb := Combined(semantic, keyword, weight, weight);
    assert comb == [e1, e2] by {
      assert comb[0] == e1 && comb[1] == e2;
    }
    SortTie(e1, e2);
  }
}
