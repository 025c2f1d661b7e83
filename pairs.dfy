// Pair enumeration: every index pair (i, j) with i < j of an n-by-n score
// matrix, in the order of the two nested `for` loops of `_pairs_df_model`.

module PairScoring {

  /** One row of the pairs table: the `index` list [i, j] and its `score`. */
  datatype Pair = Pair(i: nat, j: nat, score: real)

  /** The shape of a cosine-similarity matrix over n items: n rows of n scores. */
  predicate Square(m: seq<seq<real>>)
  {
    forall r | 0 <= r < |m| :: |m[r]| == |m|
  }

  /** Strict lexicographic order on the (i, j) index of two pairs. */
  predicate IndexBefore(p: Pair, q: Pair)
  {
    p.i < q.i || (p.i == q.i && p.j < q.j)
  }

  /** Pairs strictly increasing in index order: in particular no index pair repeats. */
  predicate IndexOrdered(ps: seq<Pair>)
  {
    forall a, b {:trigger IndexBefore(ps[a], ps[b])} | 0 <= a < b < |ps| :: IndexBefore(ps[a], ps[b])
  }

  /** The pairs (i, i+1) .. (i, j-1) that the inner loop has appended for row i. */
  function RowPrefix(m: seq<seq<real>>, i: nat, j: nat): seq<Pair>
    requires Square(m) && i < j <= |m|
    decreases j
  {
    if j == i + 1 then [] else RowPrefix(m, i, j - 1) + [Pair(i, j - 1, m[i][j - 1])]
  }

  /** All pairs of the rows 0 .. i-1, in loop order. */
  function RowsBefore(m: seq<seq<real>>, i: nat): seq<Pair>
    requires Square(m) && i < |m|
  {
    if i == 0 then [] else RowsBefore(m, i - 1) + RowPrefix(m, i - 1, |m|)
  }

  /** The whole `pairs` list before sorting; empty when there are fewer than two items. */
  function Enumerated(m: seq<seq<real>>): seq<Pair>
    requires Square(m)
  {
    if |m| == 0 then [] else RowsBefore(m, |m| - 1)
  }

  /** The nested loops of `_pairs_df_model` over the matrix `m` returned by `cos_sim`. */
  method EnumeratePairs(m: seq<seq<real>>) returns (pairs: seq<Pair>)
    requires Square(m)
    ensures pairs == Enumerated(m)
  {
    pairs := [];
    var n := |m|;
    if n == 0 {
      return;
    }
    var i := 0;
    while i < n - 1
      invariant 0 <= i <= n - 1
      invariant pairs == RowsBefore(m, i)
    {
      var j := i + 1;
      while j < n
        invariant i + 1 <= j <= n
        invariant pairs == RowsBefore(m, i) + RowPrefix(m, i, j)
      {
        pairs := pairs + [Pair(i, j, m[i][j])];
        j := j + 1;
      }
      i := i + 1;
    }
  }

  lemma {:induction false} RowPrefixLength(m: seq<seq<real>>, i: nat, j: nat)
    requires Square(m) && i < j <= |m|
    ensures |RowPrefix(m, i, j)| == j - i - 1
    decreases j
  {
    if j > i + 1 {
      RowPrefixLength(m, i, j - 1);
    }
  }

  lemma {:induction false} RowPrefixMembers(m: seq<seq<real>>, i: nat, j: nat)
    requires Square(m) && i < j <= |m|
    ensures forall p :: p in RowPrefix(m, i, j) <==>
      p.i == i && i < p.j < j && p.score == m[i][p.j]
    decreases j
  {
    if j > i + 1 {
      RowPrefixMembers(m, i, j - 1);
    }
  }

  lemma {:induction false} RowPrefixOrdered(m: seq<seq<real>>, i: nat, j: nat)
    requires Square(m) && i < j <= |m|
    ensures IndexOrdered(RowPrefix(m, i, j))
    decreases j
  {
    if j > i + 1 {
      RowPrefixOrdered(m, i, j - 1);
      RowPrefixMembers(m, i, j - 1);
      var prev := RowPrefix(m, i, j - 1);
      forall a | 0 <= a < |prev| ensures prev[a].j < j - 1 {
        assert prev[a] in prev;
      }
    }
  }

  /** Arithmetic step of the count: row i-1 adds n - i pairs to the a pairs before it. */
  lemma CountStep(n: int, i: int, a: int, b: int)
    requires 2 * a == (i - 1) * (2 * n - 1 - (i - 1)) && b == n - i
    ensures 2 * (a + b) == i * (2 * n - 1 - i)
  {
    calc {
      (i - 1) * (2 * n - 1 - (i - 1));
      (i - 1) * (2 * n - i);
      i * (2 * n - i) - (2 * n - i);
      i * (2 * n - 1 - i) + i - 2 * n + i;
    }
  }

  lemma {:induction false} RowsBeforeCount(m: seq<seq<real>>, i: nat)
    requires Square(m) && i < |m|
    ensures 2 * |RowsBefore(m, i)| == i * (2 * |m| - 1 - i)
  {
    if i > 0 {
      var prev, row := RowsBefore(m, i - 1), RowPrefix(m, i - 1, |m|);
      RowsBeforeCount(m, i - 1);
      RowPrefixLength(m, i - 1, |m|);
      assert |RowsBefore(m, i)| == |prev| + |row|;
      CountStep(|m|, i, |prev|, |row|);
    }
  }

  lemma {:induction false} RowsBeforeMembers(m: seq<seq<real>>, i: nat)
    requires Square(m) && i < |m|
    ensures forall p :: p in RowsBefore(m, i) <==>
      p.i < i && p.i < p.j < |m| && p.score == m[p.i][p.j]
  {
    if i > 0 {
      var prev, row := RowsBefore(m, i - 1), RowPrefix(m, i - 1, |m|);
      assert RowsBefore(m, i) == prev + row;
      forall p: Pair ensures p in prev + row <==> p.i < i && p.i < p.j < |m| && p.score == m[p.i][p.j] {
        assert p in prev <==> p.i < i - 1 && p.i < p.j < |m| && p.score == m[p.i][p.j] by {
          RowsBeforeMembers(m, i - 1);
        }
        assert p in row <==> p.i == i - 1 && i - 1 < p.j < |m| && p.score == m[i - 1][p.j] by {
          RowPrefixMembers(m, i - 1, |m|);
        }
      }
    }
  }

  /** Appending a row whose pairs all start at r after pairs starting before r keeps index order. */
  lemma OrderedConcat(prev: seq<Pair>, row: seq<Pair>, r: nat)
    requires IndexOrdered(prev) && IndexOrdered(row)
    requires forall x | x in prev :: x.i < r
    requires forall y | y in row :: y.i == r
    ensures IndexOrdered(prev + row)
  {
    var s := prev + row;
    forall a, b | 0 <= a < b < |s| ensures IndexBefore(s[a], s[b]) {
      if b < |prev| {
        assert s[a] == prev[a] && s[b] == prev[b];
      } else if a < |prev| {
        assert s[a] == prev[a] && prev[a] in prev;
        assert s[b] == row[b - |prev|] && row[b - |prev|] in row;
      } else {
        assert s[a] == row[a - |prev|] && s[b] == row[b - |prev|];
      }
    }
  }

  lemma RowsBeforeBound(m: seq<seq<real>>, i: nat)
    requires Square(m) && i < |m|
    ensures forall x | x in RowsBefore(m, i) :: x.i < i
  {
    RowsBeforeMembers(m, i);
  }

  lemma RowPrefixRow(m: seq<seq<real>>, i: nat, j: nat)
    requires Square(m) && i < j <= |m|
    ensures forall y | y in RowPrefix(m, i, j) :: y.i == i
  {
    RowPrefixMembers(m, i, j);
  }

  lemma {:induction false} RowsBeforeOrdered(m: seq<seq<real>>, i: nat)
    requires Square(m) && i < |m|
    ensures IndexOrdered(RowsBefore(m, i))
  {
    if i > 0 {
      var prev, row := RowsBefore(m, i - 1), RowPrefix(m, i - 1, |m|);
      assert RowsBefore(m, i) == prev + row;
      assert IndexOrdered(prev) by {
        RowsBeforeOrdered(m, i - 1);
      }
      assert IndexOrdered(row) by {
        RowPrefixOrdered(m, i - 1, |m|);
      }
      assert forall x | x in prev :: x.i < i - 1 by {
        RowsBeforeBound(m, i - 1);
      }
      assert forall y | y in row :: y.i == i - 1 by {
        RowPrefixRow(m, i - 1, |m|);
      }
      OrderedConcat(prev, row, i - 1);
    }
  }

  /** `_pairs_df_model` yields n(n-1)/2 pairs (line 47 of its doc-comment). */
  lemma EnumeratedCount(m: seq<seq<real>>)
    requires Square(m)
    ensures 2 * |Enumerated(m)| == |m| * (|m| - 1)
  {
    if |m| > 0 {
      RowsBeforeCount(m, |m| - 1);
    }
  }

  /** A pair is emitted iff 0 <= i < j < n, and it carries the matrix entry m[i][j]. */
  lemma EnumeratedMembers(m: seq<seq<real>>)
    requires Square(m)
    ensures forall p :: p in Enumerated(m) <==>
      p.i < p.j < |m| && p.score == m[p.i][p.j]
  {
    if |m| > 0 {
      RowsBeforeMembers(m, |m| - 1);
      assert Enumerated(m) == RowsBefore(m, |m| - 1);
    }
  }

  /** Pairs come out in index order, so every unordered pair appears exactly once. */
  lemma EnumeratedOnce(m: seq<seq<real>>)
    requires Square(m)
    ensures IndexOrdered(Enumerated(m))
    ensures forall a, b | 0 <= a < b < |Enumerated(m)| ::
      (Enumerated(m)[a].i, Enumerated(m)[a].j) != (Enumerated(m)[b].i, Enumerated(m)[b].j)
  {
    var e := Enumerated(m);
    if |m| > 0 {
      RowsBeforeOrdered(m, |m| - 1);
    }
    forall a, b | 0 <= a < b < |e| ensures (e[a].i, e[a].j) != (e[b].i, e[b].j) {
      assert IndexBefore(e[a], e[b]);
    }
  }
}
