// The threshold filter `similarity_df[similarity_df["score"] > SIMILARITY_THRESHOLD]`.

module ThresholdFilter {
  import opened PairScoring
  import opened ScoreOrder

  /** SIMILARITY_THRESHOLD. */
  const SimilarityThreshold: real := 0.65

  /** The rows of `ps` scoring strictly above `t`, in their order in `ps`. */
  function Above(ps: seq<Pair>, t: real): seq<Pair>
  {
    if ps == [] then []
    else (if ps[0].score > t then [ps[0]] else []) + Above(ps[1..], t)
  }

  /** Exactly the rows scoring strictly above the threshold survive, with their multiplicity. */
  lemma {:induction false} AboveKeeps(ps: seq<Pair>, t: real)
    ensures forall p :: multiset(Above(ps, t))[p] == if p.score > t then multiset(ps)[p] else 0
  {
    if ps != [] {
      AboveKeeps(ps[1..], t);
      assert ps == [ps[0]] + ps[1..];
    }
  }

  lemma AboveMembers(ps: seq<Pair>, t: real)
    ensures forall p :: p in Above(ps, t) <==> p in ps && p.score > t
  {
    AboveKeeps(ps, t);
    forall p ensures p in Above(ps, t) <==> p in ps && p.score > t {
      assert p in Above(ps, t) <==> p in multiset(Above(ps, t));
      assert p in ps <==> p in multiset(ps);
    }
  }

  /** Order preservation: filtering commutes with concatenation. */
  lemma {:induction false} AboveConcat(a: seq<Pair>, b: seq<Pair>, t: real)
    ensures Above(a + b, t) == Above(a, t) + Above(b, t)
  {
    if a != [] {
      AboveConcat(a[1..], b, t);
      assert (a + b)[1..] == a[1..] + b;
    } else {
      assert a + b == b;
    }
  }

  /** A row scoring exactly the threshold is dropped. */
  lemma AtThresholdDropped(ps: seq<Pair>, p: Pair)
    requires p.score == SimilarityThreshold
    ensures p !in Above(ps, SimilarityThreshold)
  {
    AboveMembers(ps, SimilarityThreshold);
  }

  /** Filtering a score-sorted table leaves it score-sorted. */
  lemma {:induction false} AboveSorted(ps: seq<Pair>, t: real)
    requires SortedDesc(ps)
    ensures SortedDesc(Above(ps, t))
  {
    if ps != [] {
      AboveSorted(ps[1..], t);
      AboveMembers(ps[1..], t);
      var rest := Above(ps[1..], t);
      forall k | 0 <= k < |rest| ensures ps[0].score >= rest[k].score {
        assert rest[k] in ps[1..];
        var b :| 0 <= b < |ps[1..]| && ps[1..][b] == rest[k];
        assert ps[b + 1] == rest[k];
      }
    }
  }
}
