// `sorted(pairs, key=score, reverse=True)`: Python's sort is stable, also with
// `reverse=True`, so pairs of equal score keep their enumeration order.

module ScoreOrder {
  import opened PairScoring

  /** Non-increasing in score. */
  predicate SortedDesc(ps: seq<Pair>)
  {
    forall a, b | 0 <= a < b < |ps| :: ps[a].score >= ps[b].score
  }

  /** The pairs of `ps` whose score is exactly `v`, in their order in `ps`. */
  function WithScore(ps: seq<Pair>, v: real): seq<Pair>
  {
    if ps == [] then []
    else (if ps[0].score == v then [ps[0]] else []) + WithScore(ps[1..], v)
  }

  /** Puts `p` in front of the first element of `s` that does not score higher. */
  function Insert(p: Pair, s: seq<Pair>): seq<Pair>
  {
    if s == [] || s[0].score <= p.score then [p] + s
    else [s[0]] + Insert(p, s[1..])
  }

  /** The stable descending sort of `ps` by score. */
  function SortByScore(ps: seq<Pair>): seq<Pair>
  {
    if ps == [] then [] else Insert(ps[0], SortByScore(ps[1..]))
  }

  /** The filter keeps only pairs of `ps` that score exactly `v`. */
  lemma {:induction false} WithScoreFrom(ps: seq<Pair>, v: real)
    ensures forall p | p in WithScore(ps, v) :: p in ps && p.score == v
  {
    if ps != [] {
      WithScoreFrom(ps[1..], v);
    }
  }

  lemma {:induction false} InsertPermutes(p: Pair, s: seq<Pair>)
    ensures multiset(Insert(p, s)) == multiset(s) + multiset{p}
  {
    if s != [] && s[0].score > p.score {
      InsertPermutes(p, s[1..]);
      assert s == [s[0]] + s[1..];
    }
  }

  lemma {:induction false} InsertSorted(p: Pair, s: seq<Pair>)
    requires SortedDesc(s)
    ensures SortedDesc(Insert(p, s))
  {
    if s != [] && s[0].score > p.score {
      InsertSorted(p, s[1..]);
      InsertPermutes(p, s[1..]);
      var t := Insert(p, s[1..]);
      forall k | 0 <= k < |t| ensures s[0].score >= t[k].score {
        assert t[k] in multiset(t);
        if t[k] != p {
          assert t[k] in multiset(s[1..]);
          var b :| 0 <= b < |s[1..]| && s[1..][b] == t[k];
          assert s[b + 1] == t[k];
        }
      }
    }
  }

  lemma InsertStableFront(p: Pair, s: seq<Pair>, v: real)
    requires s == [] || s[0].score <= p.score
    ensures WithScore(Insert(p, s), v) == (if p.score == v then [p] else []) + WithScore(s, v)
  {
    var t := [p] + s;
    assert Insert(p, s) == t;
    assert t[1..] == s;
  }

  lemma InsertStableSkip(p: Pair, s: seq<Pair>, v: real)
    requires s != [] && s[0].score > p.score
    requires WithScore(Insert(p, s[1..]), v) == (if p.score == v then [p] else []) + WithScore(s[1..], v)
    ensures WithScore(Insert(p, s), v) == (if p.score == v then [p] else []) + WithScore(s, v)
  {
    var rest := Insert(p, s[1..]);
    var t := [s[0]] + rest;
    assert Insert(p, s) == t;
    assert t[1..] == rest;
    var first := if s[0].score == v then [s[0]] else [];
    assert WithScore(t, v) == first + WithScore(rest, v);
    assert WithScore(s, v) == first + WithScore(s[1..], v);
  }

  /** Inserting the earliest pair before all pairs of equal score keeps stability. */
  lemma {:induction false} InsertStable(p: Pair, s: seq<Pair>, v: real)
    ensures WithScore(Insert(p, s), v) == (if p.score == v then [p] else []) + WithScore(s, v)
  {
    if s == [] || s[0].score <= p.score {
      InsertStableFront(p, s, v);
    } else {
      InsertStable(p, s[1..], v);
      InsertStableSkip(p, s, v);
    }
  }

  /** The sorted list is a permutation of its input. */
  lemma {:induction false} SortPermutes(ps: seq<Pair>)
    ensures multiset(SortByScore(ps)) == multiset(ps)
  {
    if ps != [] {
      SortPermutes(ps[1..]);
      InsertPermutes(ps[0], SortByScore(ps[1..]));
      assert ps == [ps[0]] + ps[1..];
    }
  }

  /** The sorted list is non-increasing in score. */
  lemma {:induction false} SortSorted(ps: seq<Pair>)
    ensures SortedDesc(SortByScore(ps))
  {
    if ps != [] {
      SortSorted(ps[1..]);
      InsertSorted(ps[0], SortByScore(ps[1..]));
    }
  }

  /** Stability: for every score, the pairs with that score keep their input order. */
  lemma {:induction false} SortStable(ps: seq<Pair>, v: real)
    ensures WithScore(SortByScore(ps), v) == WithScore(ps, v)
  {
    if ps != [] {
      SortStable(ps[1..], v);
      InsertStable(ps[0], SortByScore(ps[1..]), v);
    }
  }

  lemma {:induction false} WithScoreOrdered(ps: seq<Pair>, v: real)
    requires IndexOrdered(ps)
    ensures IndexOrdered(WithScore(ps, v))
  {
    if ps != [] {
      WithScoreOrdered(ps[1..], v);
      WithScoreFrom(ps[1..], v);
      var rest := WithScore(ps[1..], v);
      forall k | 0 <= k < |rest| ensures IndexBefore(ps[0], rest[k]) {
        assert rest[k] in ps[1..];
        var b :| 0 <= b < |ps[1..]| && ps[1..][b] == rest[k];
        assert ps[b + 1] == rest[k];
      }
    }
  }

  /** Sorting the enumerated pairs breaks score ties by index order. */
  lemma TiesInIndexOrder(m: seq<seq<real>>, v: real)
    requires Square(m)
    ensures IndexOrdered(WithScore(SortByScore(Enumerated(m)), v))
  {
    EnumeratedOnce(m);
    SortStable(Enumerated(m), v);
    WithScoreOrdered(Enumerated(m), v);
  }
}
