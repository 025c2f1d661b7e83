// `compute_similarity_groups`: enumerate and sort the pairs, keep those
// scoring above SIMILARITY_THRESHOLD, group them and label the groups.
// The sentence embeddings and their cosine scores are replaced by the
// score matrix they produce, given as a parameter.

module SimilarityPipeline {
  import opened PairScoring
  import opened ScoreOrder
  import opened ThresholdFilter
  import opened Grouping
  import opened Components
  import opened Labelling

  /** `similarity_df_above_threshold`: the sorted pairs table after the threshold filter. */
  function FilteredPairs(scores: seq<seq<real>>): seq<Pair>
    requires Square(scores)
  {
    Above(SortByScore(Enumerated(scores)), SimilarityThreshold)
  }

  /** Item e has a partner whose score with it is above the threshold. */
  ghost predicate HasSimilar(scores: seq<seq<real>>, e: nat)
    requires Square(scores)
  {
    exists i, j | 0 <= i < j < |scores| && (e == i || e == j) :: scores[i][j] > SimilarityThreshold
  }

  /** The filtered table holds each above-threshold pair once, highest score first. */
  lemma FilteredMembers(scores: seq<seq<real>>)
    requires Square(scores)
    ensures forall p :: p in FilteredPairs(scores) <==>
      p.i < p.j < |scores| && p.score == scores[p.i][p.j] && p.score > SimilarityThreshold
    ensures SortedDesc(FilteredPairs(scores))
  {
    var sorted := SortByScore(Enumerated(scores));
    EnumeratedMembers(scores);
    SortPermutes(Enumerated(scores));
    AboveMembers(sorted, SimilarityThreshold);
    forall p ensures p in sorted <==> p in Enumerated(scores) {
      assert p in sorted <==> p in multiset(sorted);
    }
    SortSorted(Enumerated(scores));
    AboveSorted(sorted, SimilarityThreshold);
  }

  /** The items of the output are exactly those with an above-threshold partner. */
  lemma FilteredEndpoints(scores: seq<seq<real>>)
    requires Square(scores)
    ensures forall e :: e in Endpoints(FilteredPairs(scores)) <==> HasSimilar(scores, e)
    ensures forall e | e in Endpoints(FilteredPairs(scores)) :: e < |scores|
  {
    FilteredMembers(scores);
    var filtered := FilteredPairs(scores);
    forall e | e in Endpoints(filtered) ensures HasSimilar(scores, e) && e < |scores| {
      var p :| p in filtered && e in EdgeSet(p);
      assert scores[p.i][p.j] > SimilarityThreshold;
    }
    forall e | HasSimilar(scores, e) ensures e in Endpoints(filtered) {
      SimilarIsEndpoint(scores, e);
    }
  }

  /** An item with an above-threshold partner is an endpoint of the filtered table. */
  lemma SimilarIsEndpoint(scores: seq<seq<real>>, e: nat)
    requires Square(scores) && HasSimilar(scores, e)
    ensures e in Endpoints(FilteredPairs(scores))
  {
    var i, j :| 0 <= i < j < |scores| && (e == i || e == j) && scores[i][j] > SimilarityThreshold;
    var p := Pair(i, j, scores[i][j]);
    FilteredMembers(scores);
    assert p in FilteredPairs(scores) && e in EdgeSet(p);
  }

  /**
   * `compute_similarity_groups` over the grouping as written. With fewer than
   * two items the pairs table has no `index` column and the lookup raises KeyError.
   */
  method ComputeSimilarityGroups(ids: seq<string>, scores: seq<seq<real>>, firstToken: nat)
    returns (r: Result<map<nat, Record>>)
    requires Square(scores) && |scores| == |ids|
    ensures r.KeyError? <==> |scores| < 2
    ensures r.Ok? ==> forall e :: e in r.value <==> HasSimilar(scores, e)
    ensures r.Ok? ==> LabelledByGroups(r.value, ids, Grouped(FilteredPairs(scores)), firstToken)
  {
    var pairs := EnumeratePairs(scores);
    EnumeratedCount(scores);
    if |pairs| == 0 {
      return KeyError;
    }
    var sorted := SortByScore(pairs);
    var filtered := Above(sorted, SimilarityThreshold);
    FilteredEndpoints(scores);
    r := GroupsDf(filtered, ids, firstToken);
  }

  /**
   * The same pipeline over the corrected grouping: two items share a token
   * exactly when a chain of above-threshold pairs joins them.
   */
  method ComputeSimilarityGroupsFixed(ids: seq<string>, scores: seq<seq<real>>, firstToken: nat)
    returns (r: Result<map<nat, Record>>)
    requires Square(scores) && |scores| == |ids|
    ensures r.KeyError? <==> |scores| < 2
    ensures r.Ok? ==> forall e :: e in r.value <==> HasSimilar(scores, e)
    ensures r.Ok? ==> forall e | e in r.value ::
      e < |ids| && r.value[e].id == ids[e] && r.value[e].similarityUuid.Token?
    ensures r.Ok? ==> forall a, b | a in r.value && b in r.value ::
      r.value[a].similarityUuid == r.value[b].similarityUuid <==> Connected(FilteredPairs(scores), a, b)
  {
    var pairs := EnumeratePairs(scores);
    EnumeratedCount(scores);
    if |pairs| == 0 {
      return KeyError;
    }
    var sorted := SortByScore(pairs);
    var filtered := Above(sorted, SimilarityThreshold);
    FilteredEndpoints(scores);
    r := GroupsDfFixed(filtered, ids, firstToken);
  }

  /** Two items scoring exactly the threshold are not similar: nothing is output. */
  lemma AtThresholdNoGroups()
    ensures FilteredPairs([[1.0, 0.65], [0.65, 1.0]]) == []
  {
    var m := [[1.0, 0.65], [0.65, 1.0]];
    var p := Pair(0, 1, 0.65);
    assert RowPrefix(m, 0, 2) == [p] by {
      assert RowPrefix(m, 0, 1) == [];
    }
    assert Enumerated(m) == [p] by {
      assert RowsBefore(m, 0) == [];
    }
    assert SortByScore([p]) == [p] by {
      assert [p][1..] == [];
    }
    assert Above([p], SimilarityThreshold) == [] by {
      assert [p][1..] == [];
    }
  }

  /**
   * A score matrix whose above-threshold pairs are (0,1) 0.9, (2,3) 0.8 and
   * (1,2) 0.7. Its leading principal minors (1, 0.19, 0.044, 0.01) are all
   * positive, so it is the cosine matrix of four unit vectors.
   */
  function ChainScores(): (m: seq<seq<real>>)
    ensures Square(m)
  {
    [[1.0, 0.9, 0.4, 0.0],
     [0.9, 1.0, 0.7, 0.3],
     [0.4, 0.7, 1.0, 0.8],
     [0.0, 0.3, 0.8, 1.0]]
  }

  lemma ChainEnumerated()
    ensures Enumerated(ChainScores()) == [Pair(0, 1, 0.9), Pair(0, 2, 0.4), Pair(0, 3, 0.0),
                                          Pair(1, 2, 0.7), Pair(1, 3, 0.3), Pair(2, 3, 0.8)]
  {
    var m := ChainScores();
    var p01, p02, p03 := Pair(0, 1, 0.9), Pair(0, 2, 0.4), Pair(0, 3, 0.0);
    var p12, p13, p23 := Pair(1, 2, 0.7), Pair(1, 3, 0.3), Pair(2, 3, 0.8);
    assert RowPrefix(m, 0, 4) == [p01, p02, p03] by {
      assert RowPrefix(m, 0, 1) == [];
      assert RowPrefix(m, 0, 2) == [p01];
      assert RowPrefix(m, 0, 3) == [p01, p02];
    }
    assert RowPrefix(m, 1, 4) == [p12, p13] by {
      assert RowPrefix(m, 1, 2) == [];
      assert RowPrefix(m, 1, 3) == [p12];
    }
    assert RowPrefix(m, 2, 4) == [p23] by {
      assert RowPrefix(m, 2, 3) == [];
    }
    assert RowsBefore(m, 0) == [];
    assert RowsBefore(m, 1) == [p01, p02, p03];
    assert RowsBefore(m, 2) == [p01, p02, p03, p12, p13];
  }

  lemma ChainSorted()
    ensures SortByScore([Pair(0, 1, 0.9), Pair(0, 2, 0.4), Pair(0, 3, 0.0),
                         Pair(1, 2, 0.7), Pair(1, 3, 0.3), Pair(2, 3, 0.8)])
         == [Pair(0, 1, 0.9), Pair(2, 3, 0.8), Pair(1, 2, 0.7),
             Pair(0, 2, 0.4), Pair(1, 3, 0.3), Pair(0, 3, 0.0)]
  {
    var p01, p02, p03 := Pair(0, 1, 0.9), Pair(0, 2, 0.4), Pair(0, 3, 0.0);
    var p12, p13, p23 := Pair(1, 2, 0.7), Pair(1, 3, 0.3), Pair(2, 3, 0.8);
    var all := [p01, p02, p03, p12, p13, p23];
    assert SortByScore([p23]) == [p23] by {
      assert [p23][1..] == [];
    }
    assert SortByScore([p13, p23]) == [p23, p13] by {
      assert [p13, p23][1..] == [p23];
      assert [p23][1..] == [];
      assert Insert(p13, []) == [p13];
      assert Insert(p13, [p23]) == [p23, p13];
    }
    assert SortByScore([p12, p13, p23]) == [p23, p12, p13] by {
      assert [p12, p13, p23][1..] == [p13, p23];
      assert Insert(p12, [p13]) == [p12, p13];
      assert [p23, p13][1..] == [p13];
    }
    assert SortByScore([p03, p12, p13, p23]) == [p23, p12, p13, p03] by {
      assert [p03, p12, p13, p23][1..] == [p12, p13, p23];
      assert Insert(p03, []) == [p03];
      assert [p13][1..] == [];
      assert Insert(p03, [p13]) == [p13, p03];
      assert [p12, p13][1..] == [p13];
      assert Insert(p03, [p12, p13]) == [p12, p13, p03];
      assert [p23, p12, p13][1..] == [p12, p13];
    }
    assert SortByScore([p02, p03, p12, p13, p23]) == [p23, p12, p02, p13, p03] by {
      assert [p02, p03, p12, p13, p23][1..] == [p03, p12, p13, p23];
      assert Insert(p02, [p13, p03]) == [p02, p13, p03];
      assert [p12, p13, p03][1..] == [p13, p03];
      assert Insert(p02, [p12, p13, p03]) == [p12, p02, p13, p03];
      assert [p23, p12, p13, p03][1..] == [p12, p13, p03];
    }
    assert all[1..] == [p02, p03, p12, p13, p23];
  }

  lemma ChainFiltered()
    ensures Above([Pair(0, 1, 0.9), Pair(2, 3, 0.8), Pair(1, 2, 0.7),
                   Pair(0, 2, 0.4), Pair(1, 3, 0.3), Pair(0, 3, 0.0)], SimilarityThreshold)
         == [Pair(0, 1, 0.9), Pair(2, 3, 0.8), Pair(1, 2, 0.7)]
  {
    var p01, p02, p03 := Pair(0, 1, 0.9), Pair(0, 2, 0.4), Pair(0, 3, 0.0);
    var p12, p13, p23 := Pair(1, 2, 0.7), Pair(1, 3, 0.3), Pair(2, 3, 0.8);
    var sorted := [p01, p23, p12, p02, p13, p03];
    assert Above([p03], SimilarityThreshold) == [] by {
      assert [p03][1..] == [];
    }
    assert Above([p13, p03], SimilarityThreshold) == [] by {
      assert [p13, p03][1..] == [p03];
    }
    assert Above([p02, p13, p03], SimilarityThreshold) == [] by {
      assert [p02, p13, p03][1..] == [p13, p03];
    }
    assert Above([p12, p02, p13, p03], SimilarityThreshold) == [p12] by {
      assert [p12, p02, p13, p03][1..] == [p02, p13, p03];
    }
    assert Above([p23, p12, p02, p13, p03], SimilarityThreshold) == [p23, p12] by {
      assert [p23, p12, p02, p13, p03][1..] == [p12, p02, p13, p03];
    }
    assert sorted[1..] == [p23, p12, p02, p13, p03];
  }

  /**
   * The split labels are reachable from scores: items 2 and 3 score 0.8 with
   * each other, yet `compute_similarity_groups` as written labels them with the
   * tokens of two different groups.
   */
  lemma ChainScoresSplit()
    ensures FilteredPairs(ChainScores()) == [Pair(0, 1, 0.9), Pair(2, 3, 0.8), Pair(1, 2, 0.7)]
    ensures Connected(FilteredPairs(ChainScores()), 2, 3)
    ensures var groups := Grouped(FilteredPairs(ChainScores()));
      2 in Union(groups) && 3 in Union(groups) && LastGroupOf(groups, 2) != LastGroupOf(groups, 3)
  {
    ChainEnumerated();
    ChainSorted();
    ChainFiltered();
    ConnectedEdge(FilteredPairs(ChainScores()), Pair(2, 3, 0.8));
    SplitLabelsExample();
  }
}
