// The grouping `_groups_idx` is documented to compute: every set an edge
// touches is merged with the edge. The inner loop walks a snapshot of the list,
// so no removal shifts an unvisited set past the iterator. The result is the
// list of connected components of the edge graph.

module Components {
  import opened PairScoring
  import opened Grouping

  /** The sets of `ss` the edge does not touch, in their order. */
  function Untouched(ss: seq<Group>, idx: Group): seq<Group>
  {
    if ss == [] then []
    else
      var last := ss[|ss| - 1];
      Untouched(ss[..|ss| - 1], idx) + (if Touches(last, idx) then [] else [last])
  }

  /** Every index of a set of `ss` that the edge touches. */
  function Touched(ss: seq<Group>, idx: Group): Group
  {
    set g, x | g in ss && Touches(g, idx) && x in g :: x
  }

  /** One edge: the untouched sets stay, all touched sets and the edge become one set at the end. */
  function MergeEdge(ss: seq<Group>, idx: Group): seq<Group>
  {
    Untouched(ss, idx) + [idx + Touched(ss, idx)]
  }

  /** The list of groups after all of `edges`. */
  function Merged(edges: seq<Pair>): seq<Group>
  {
    if edges == [] then []
    else MergeEdge(Merged(edges[..|edges| - 1]), EdgeSet(edges[|edges| - 1]))
  }

  /** `_groups_idx` with the inner loop walking a snapshot of `sets_list`. */
  method GroupsIdxFixed(edges: seq<Pair>) returns (sets: seq<Group>)
    ensures sets == Merged(edges)
    ensures PairwiseDisjoint(sets)
    ensures Union(sets) == Endpoints(edges)
    ensures forall p | p in edges :: exists g :: g in sets && EdgeSet(p) <= g
    ensures forall g, x, y | g in sets && x in g :: y in g <==> Connected(edges, x, y)
  {
    sets := [];
    var e := 0;
    assert edges[..e] == [];
    while e < |edges|
      invariant 0 <= e <= |edges|
      invariant sets == Merged(edges[..e])
    {
      sets := MergeEdgeInto(sets, EdgeSet(edges[e]));
      ComponentsSnoc(edges, e);
      e := e + 1;
    }
    assert edges[..e] == edges;
    ComponentsPartition(edges);
    ComponentsCover(edges);
    ComponentsExact(edges);
  }

  /**
   * One iteration of the outer loop: the inner loop over a snapshot collects the
   * sets the edge misses and folds every touched set into `first_match`.
   */
  method MergeEdgeInto(sets: seq<Group>, idx: Group) returns (next: seq<Group>)
    ensures next == MergeEdge(sets, idx)
  {
    var wasSelected := false;
    var firstMatch: Group := {};
    var kept: seq<Group> := [];
    var k := 0;
    while k < |sets|
      invariant 0 <= k <= |sets|
      invariant SnapshotScanned(sets, k, idx, kept, firstMatch, wasSelected)
    {
      var group := sets[k];
      if Touches(group, idx) {
        SnapshotTouch(sets, k, idx, kept, firstMatch, wasSelected);
        firstMatch := firstMatch + (group + idx);
        wasSelected := true;
      } else {
        SnapshotMiss(sets, k, idx, kept, firstMatch, wasSelected);
        kept := kept + [group];
      }
      k := k + 1;
    }
    SnapshotDone(sets, idx, kept, firstMatch, wasSelected);
    next := kept;
    if |firstMatch| > 0 {
      next := next + [firstMatch];
    }
    if !wasSelected {
      next := next + [idx];
    }
  }

  /** The loop variables after the inner loop has visited the first k sets of the snapshot. */
  ghost predicate SnapshotScanned(sets: seq<Group>, k: nat, idx: Group, kept: seq<Group>, firstMatch: Group, wasSelected: bool)
    requires k <= |sets|
  {
    kept == Untouched(sets[..k], idx) &&
    wasSelected == (Touched(sets[..k], idx) != {}) &&
    firstMatch == (if wasSelected then idx else {}) + Touched(sets[..k], idx)
  }

  /** The inner loop visits a set the edge touches. */
  lemma SnapshotTouch(sets: seq<Group>, k: nat, idx: Group, kept: seq<Group>, firstMatch: Group, wasSelected: bool)
    requires k < |sets| && SnapshotScanned(sets, k, idx, kept, firstMatch, wasSelected)
    requires Touches(sets[k], idx)
    ensures SnapshotScanned(sets, k + 1, idx, kept, firstMatch + (sets[k] + idx), true)
  {
    TouchedSnoc(sets, k, idx);
    UntouchedSnoc(sets, k, idx);
    var before, after := Touched(sets[..k], idx), Touched(sets[..k + 1], idx);
    FoldInto(firstMatch, idx, before, after, sets[k], wasSelected);
  }

  lemma FoldInto(firstMatch: Group, idx: Group, before: Group, after: Group, g: Group, wasSelected: bool)
    requires firstMatch == (if wasSelected then idx else {}) + before
    requires after == before + g && g != {}
    ensures firstMatch + (g + idx) == idx + after && after != {}
  {
  }

  /** The inner loop visits a set the edge misses. */
  lemma SnapshotMiss(sets: seq<Group>, k: nat, idx: Group, kept: seq<Group>, firstMatch: Group, wasSelected: bool)
    requires k < |sets| && SnapshotScanned(sets, k, idx, kept, firstMatch, wasSelected)
    requires !Touches(sets[k], idx)
    ensures SnapshotScanned(sets, k + 1, idx, kept + [sets[k]], firstMatch, wasSelected)
  {
    TouchedSnoc(sets, k, idx);
    UntouchedSnoc(sets, k, idx);
  }

  lemma SnapshotDone(sets: seq<Group>, idx: Group, kept: seq<Group>, firstMatch: Group, wasSelected: bool)
    requires SnapshotScanned(sets, |sets|, idx, kept, firstMatch, wasSelected)
    ensures wasSelected ==> |firstMatch| > 0 && kept + [firstMatch] == MergeEdge(sets, idx)
    ensures !wasSelected ==> firstMatch == {} && kept + [idx] == MergeEdge(sets, idx)
  {
    assert sets[..|sets|] == sets;
    var touched := Touched(sets, idx);
    assert kept == Untouched(sets, idx);
    if wasSelected {
      assert touched != {} && firstMatch == idx + touched;
      assert firstMatch != {};
    } else {
      assert touched == {} && idx + touched == idx;
    }
  }

  // ----- the merge of one edge -----

  lemma TouchedSnoc(ss: seq<Group>, k: nat, idx: Group)
    requires k < |ss|
    ensures Touched(ss[..k + 1], idx) == Touched(ss[..k], idx) + (if Touches(ss[k], idx) then ss[k] else {})
    ensures Touches(ss[k], idx) ==> ss[k] != {}
  {
    var before, after := ss[..k], ss[..k + 1];
    assert after == before + [ss[k]];
    var extra := if Touches(ss[k], idx) then ss[k] else {};
    forall x ensures x in Touched(after, idx) <==> x in Touched(before, idx) + extra {
      if x in Touched(after, idx) {
        var g :| g in after && Touches(g, idx) && x in g;
        assert g in before || g == ss[k];
      }
      if x in Touched(before, idx) {
        var g :| g in before && Touches(g, idx) && x in g;
        assert g in after;
      }
      if x in extra {
        assert ss[k] in after;
      }
    }
    if Touches(ss[k], idx) {
      assert ss[k] * idx != {};
    }
  }

  lemma UntouchedSnoc(ss: seq<Group>, k: nat, idx: Group)
    requires k < |ss|
    ensures Untouched(ss[..k + 1], idx) == Untouched(ss[..k], idx) + (if Touches(ss[k], idx) then [] else [ss[k]])
  {
    assert ss[..k + 1][..k] == ss[..k];
  }

  lemma ComponentsSnoc(edges: seq<Pair>, e: nat)
    requires e < |edges|
    ensures Merged(edges[..e + 1]) == MergeEdge(Merged(edges[..e]), EdgeSet(edges[e]))
  {
    assert edges[..e + 1][..e] == edges[..e];
  }

  lemma {:induction false} UntouchedMembers(ss: seq<Group>, idx: Group)
    ensures forall s :: s in Untouched(ss, idx) <==> s in ss && !Touches(s, idx)
  {
    if ss != [] {
      var front := ss[..|ss| - 1];
      UntouchedMembers(front, idx);
      assert ss == front + [ss[|ss| - 1]];
    }
  }

  lemma {:induction false} UntouchedDisjoint(ss: seq<Group>, idx: Group)
    requires PairwiseDisjoint(ss)
    ensures PairwiseDisjoint(Untouched(ss, idx))
  {
    if ss != [] {
      var front, last := ss[..|ss| - 1], ss[|ss| - 1];
      UntouchedDisjoint(front, idx);
      UntouchedMembers(front, idx);
      var u := Untouched(front, idx);
      forall a | 0 <= a < |u| ensures u[a] * last == {} {
        assert u[a] in front;
        var m :| 0 <= m < |front| && front[m] == u[a];
        assert ss[m] == u[a];
      }
    }
  }

  lemma MergeUnion(ss: seq<Group>, idx: Group)
    ensures Union(MergeEdge(ss, idx)) == Union(ss) + idx
  {
    UntouchedMembers(ss, idx);
    UnionAppend(Untouched(ss, idx), idx + Touched(ss, idx));
    forall x | x in Union(ss) ensures x in Union(Untouched(ss, idx)) + Touched(ss, idx) {
      var g :| g in ss && x in g;
      if !Touches(g, idx) {
        assert g in Untouched(ss, idx);
      }
    }
  }

  lemma MergeDisjoint(ss: seq<Group>, idx: Group)
    requires PairwiseDisjoint(ss)
    ensures PairwiseDisjoint(MergeEdge(ss, idx))
  {
    var u, merged := Untouched(ss, idx), idx + Touched(ss, idx);
    UntouchedDisjoint(ss, idx);
    UntouchedMembers(ss, idx);
    forall a | 0 <= a < |u| ensures u[a] * merged == {} {
      assert u[a] in ss;
      var m :| 0 <= m < |ss| && ss[m] == u[a];
      forall g | g in ss && Touches(g, idx) ensures u[a] * g == {} {
        var n :| 0 <= n < |ss| && ss[n] == g;
        assert m != n;
      }
    }
    var r := MergeEdge(ss, idx);
    forall a, b | 0 <= a < b < |r| ensures r[a] * r[b] == {} {
      if b < |u| {
        assert r[a] == u[a] && r[b] == u[b];
      } else {
        assert r[a] == u[a] && r[b] == merged;
      }
    }
  }

  lemma MergeCovers(ss: seq<Group>, idx: Group)
    ensures forall g | g in ss :: exists t :: t in MergeEdge(ss, idx) && g <= t
    ensures idx + Touched(ss, idx) in MergeEdge(ss, idx)
  {
    UntouchedMembers(ss, idx);
    var merged := idx + Touched(ss, idx);
    assert merged in MergeEdge(ss, idx);
    forall g | g in ss ensures exists t :: t in MergeEdge(ss, idx) && g <= t {
      if Touches(g, idx) {
        assert g <= merged;
      } else {
        assert g in MergeEdge(ss, idx);
      }
    }
  }

  lemma MergeSizes(ss: seq<Group>, idx: Group)
    requires |idx| >= 2 && NoSingletons(ss)
    ensures NoSingletons(MergeEdge(ss, idx))
  {
    UntouchedMembers(ss, idx);
    SubsetSize(idx, idx + Touched(ss, idx));
  }

  // ----- the whole loop: a partition of the endpoints -----

  lemma {:induction false} ComponentsPartition(edges: seq<Pair>)
    ensures PairwiseDisjoint(Merged(edges))
    ensures Union(Merged(edges)) == Endpoints(edges)
    ensures forall g | g in Merged(edges) :: g != {}
  {
    if edges != [] {
      var front, idx := edges[..|edges| - 1], EdgeSet(edges[|edges| - 1]);
      ComponentsPartition(front);
      MergeDisjoint(Merged(front), idx);
      MergeUnion(Merged(front), idx);
      EndpointsSnoc(edges);
      UntouchedMembers(Merged(front), idx);
    }
  }

  /** Each group of `a` lies inside some group of `b`. */
  predicate Refines(a: seq<Group>, b: seq<Group>)
  {
    forall g | g in a :: exists h :: h in b && g <= h
  }

  lemma RefinesTrans(a: seq<Group>, b: seq<Group>, c: seq<Group>)
    requires Refines(a, b) && Refines(b, c)
    ensures Refines(a, c)
  {
    forall g | g in a ensures exists h :: h in c && g <= h {
      var t :| t in b && g <= t;
      var h :| h in c && t <= h;
    }
  }

  /** Groups are never split: each group after k edges lies inside a final group. */
  lemma {:induction false} ComponentsCoarsen(edges: seq<Pair>, k: nat)
    requires k <= |edges|
    ensures Refines(Merged(edges[..k]), Merged(edges))
    decreases |edges| - k
  {
    if k < |edges| {
      ComponentsCoarsen(edges, k + 1);
      ComponentsSnoc(edges, k);
      assert Refines(Merged(edges[..k]), Merged(edges[..k + 1])) by {
        MergeCovers(Merged(edges[..k]), EdgeSet(edges[k]));
      }
      RefinesTrans(Merged(edges[..k]), Merged(edges[..k + 1]), Merged(edges));
    } else {
      assert edges[..k] == edges;
    }
  }

  /** Both endpoints of every edge lie in one group. */
  lemma ComponentsCover(edges: seq<Pair>)
    ensures forall p | p in edges :: exists g :: g in Merged(edges) && EdgeSet(p) <= g
  {
    forall p | p in edges ensures exists g :: g in Merged(edges) && EdgeSet(p) <= g {
      var k :| 0 <= k < |edges| && edges[k] == p;
      assert edges[..k + 1][..k] == edges[..k];
      MergeCovers(Merged(edges[..k]), EdgeSet(p));
      var t := EdgeSet(p) + Touched(Merged(edges[..k]), EdgeSet(p));
      assert edges[..k + 1][k] == p;
      assert t in Merged(edges[..k + 1]);
      ComponentsCoarsen(edges, k + 1);
      var h :| h in Merged(edges) && t <= h;
    }
  }

  /** With no self-pairs, every group holds at least two indices. */
  lemma {:induction false} ComponentsSizes(edges: seq<Pair>)
    requires forall p | p in edges :: p.i != p.j
    ensures NoSingletons(Merged(edges))
  {
    if edges != [] {
      var front, last := edges[..|edges| - 1], edges[|edges| - 1];
      assert forall p | p in front :: p in edges;
      ComponentsSizes(front);
      TwoMembers(EdgeSet(last), last.i, last.j);
      MergeSizes(Merged(front), EdgeSet(last));
    }
  }

  // ----- connectivity -----

  /** Some edge joins a and b. */
  ghost predicate Adjacent(edges: seq<Pair>, a: nat, b: nat)
  {
    exists p :: p in edges && ((p.i == a && p.j == b) || (p.i == b && p.j == a))
  }

  ghost predicate IsWalk(edges: seq<Pair>, w: seq<nat>)
  {
    |w| >= 1 && forall t | 0 <= t < |w| - 1 :: Adjacent(edges, w[t], w[t + 1])
  }

  /** A path of edges leads from x to y. */
  ghost predicate Connected(edges: seq<Pair>, x: nat, y: nat)
  {
    exists w :: IsWalk(edges, w) && w[0] == x && w[|w| - 1] == y
  }

  lemma ConnectedRefl(edges: seq<Pair>, x: nat)
    ensures Connected(edges, x, x)
  {
    assert IsWalk(edges, [x]);
  }

  lemma ConnectedEdge(edges: seq<Pair>, p: Pair)
    requires p in edges
    ensures Connected(edges, p.i, p.j) && Connected(edges, p.j, p.i)
  {
    assert Adjacent(edges, p.i, p.j) && Adjacent(edges, p.j, p.i);
    assert IsWalk(edges, [p.i, p.j]);
    assert IsWalk(edges, [p.j, p.i]);
  }

  lemma ConnectedTrans(edges: seq<Pair>, x: nat, y: nat, z: nat)
    requires Connected(edges, x, y) && Connected(edges, y, z)
    ensures Connected(edges, x, z)
  {
    var w1 :| IsWalk(edges, w1) && w1[0] == x && w1[|w1| - 1] == y;
    var w2 :| IsWalk(edges, w2) && w2[0] == y && w2[|w2| - 1] == z;
    var w := w1 + w2[1..];
    forall t | 0 <= t < |w| - 1 ensures Adjacent(edges, w[t], w[t + 1]) {
      if t < |w1| - 1 {
        assert w[t] == w1[t] && w[t + 1] == w1[t + 1];
      } else {
        var s := t - |w1| + 1;
        assert w[t] == w2[s] && w[t + 1] == w2[s + 1];
      }
    }
    assert IsWalk(edges, w);
  }

  lemma ConnectedMono(edges: seq<Pair>, more: seq<Pair>, x: nat, y: nat)
    requires forall p | p in edges :: p in more
    requires Connected(edges, x, y)
    ensures Connected(more, x, y)
  {
    var w :| IsWalk(edges, w) && w[0] == x && w[|w| - 1] == y;
    forall t | 0 <= t < |w| - 1 ensures Adjacent(more, w[t], w[t + 1]) {
      assert Adjacent(edges, w[t], w[t + 1]);
    }
    assert IsWalk(more, w);
  }

  /** Every two members of a group are joined by a path. */
  ghost predicate GroupsConnected(edges: seq<Pair>, ss: seq<Group>)
  {
    forall g, x, y | g in ss && x in g && y in g :: Connected(edges, x, y)
  }

  lemma MergeConnected(edges: seq<Pair>, ss: seq<Group>, p: Pair)
    requires p in edges && GroupsConnected(edges, ss)
    ensures GroupsConnected(edges, MergeEdge(ss, EdgeSet(p)))
  {
    var idx := EdgeSet(p);
    var merged := idx + Touched(ss, idx);
    UntouchedMembers(ss, idx);
    ConnectedEdge(edges, p);
    ConnectedRefl(edges, p.i);
    ConnectedRefl(edges, p.j);
    // every member of the merged set reaches p.i, and p.i reaches every member
    forall x | x in merged ensures Connected(edges, x, p.i) && Connected(edges, p.i, x) {
      if x !in idx {
        var g :| g in ss && Touches(g, idx) && x in g;
        var z :| z in g * idx;
        if z == p.j {
          ConnectedTrans(edges, x, p.j, p.i);
          ConnectedTrans(edges, p.i, p.j, x);
        }
      } else if x == p.j {
      }
    }
    forall g, x, y | g in MergeEdge(ss, idx) && x in g && y in g ensures Connected(edges, x, y) {
      if g == merged {
        ConnectedTrans(edges, x, p.i, y);
      } else {
        assert g in ss;
      }
    }
  }

  lemma {:induction false} ComponentsConnected(edges: seq<Pair>)
    ensures GroupsConnected(edges, Merged(edges))
  {
    if edges != [] {
      var front, last := edges[..|edges| - 1], edges[|edges| - 1];
      ComponentsConnected(front);
      forall g, x, y | g in Merged(front) && x in g && y in g ensures Connected(edges, x, y) {
        ConnectedMono(front, edges, x, y);
      }
      MergeConnected(edges, Merged(front), last);
    }
  }

  /** In a disjoint list an index lies in at most one group. */
  lemma DisjointUnique(ss: seq<Group>, g: Group, h: Group, x: nat)
    requires PairwiseDisjoint(ss) && g in ss && h in ss && x in g && x in h
    ensures g == h
  {
    var a :| 0 <= a < |ss| && ss[a] == g;
    var b :| 0 <= b < |ss| && ss[b] == h;
    assert x in ss[a] * ss[b];
  }

  /** A walk that starts in a group never leaves it. */
  lemma {:induction false} WalkStays(edges: seq<Pair>, g: Group, w: seq<nat>)
    requires g in Merged(edges) && IsWalk(edges, w) && w[0] in g
    ensures w[|w| - 1] in g
    decreases |w|
  {
    if |w| > 1 {
      var front := w[..|w| - 1];
      assert IsWalk(edges, front) by {
        forall t | 0 <= t < |front| - 1 ensures Adjacent(edges, front[t], front[t + 1]) {
          assert front[t] == w[t] && front[t + 1] == w[t + 1];
        }
      }
      WalkStays(edges, g, front);
      var a, b := w[|w| - 2], w[|w| - 1];
      assert Adjacent(edges, a, b);
      var p :| p in edges && ((p.i == a && p.j == b) || (p.i == b && p.j == a));
      ComponentsCover(edges);
      ComponentsPartition(edges);
      var h :| h in Merged(edges) && EdgeSet(p) <= h;
      DisjointUnique(Merged(edges), g, h, a);
    }
  }

  /** Two indices share a group exactly when a path of edges joins them. */
  lemma ComponentsExact(edges: seq<Pair>)
    ensures forall g, x, y | g in Merged(edges) && x in g :: y in g <==> Connected(edges, x, y)
  {
    ComponentsConnected(edges);
    forall g, x, y | g in Merged(edges) && x in g && Connected(edges, x, y) ensures y in g {
      var w :| IsWalk(edges, w) && w[0] == x && w[|w| - 1] == y;
      WalkStays(edges, g, w);
    }
  }

  /**
   * The partition depends only on which edges there are, not on their order:
   * any reordering (or repetition) of the edges yields the same set of groups.
   */
  lemma OrderIndependent(edges: seq<Pair>, other: seq<Pair>)
    requires forall p :: p in edges <==> p in other
    ensures (set g | g in Merged(edges)) == (set g | g in Merged(other))
  {
    forall x, y ensures Connected(edges, x, y) <==> Connected(other, x, y) {
      if Connected(edges, x, y) {
        ConnectedMono(edges, other, x, y);
      }
      if Connected(other, x, y) {
        ConnectedMono(other, edges, x, y);
      }
    }
    ComponentsPartition(edges);
    ComponentsPartition(other);
    ComponentsExact(edges);
    ComponentsExact(other);
    assert Endpoints(edges) == Endpoints(other);
    forall g | g in Merged(edges) ensures g in Merged(other) {
      SameGroup(edges, other, g);
    }
    forall g | g in Merged(other) ensures g in Merged(edges) {
      SameGroup(other, edges, g);
    }
  }

  lemma SameGroup(edges: seq<Pair>, other: seq<Pair>, g: Group)
    requires g in Merged(edges)
    requires forall p :: p in edges <==> p in other
    requires forall x, y :: Connected(edges, x, y) <==> Connected(other, x, y)
    ensures g in Merged(other)
  {
    ComponentsPartition(edges);
    ComponentsPartition(other);
    ComponentsExact(edges);
    ComponentsExact(other);
    assert Endpoints(edges) == Endpoints(other);
    var x :| x in g;
    assert x in Union(Merged(edges));
    assert x in Union(Merged(other));
    var h :| h in Merged(other) && x in h;
    forall y ensures y in g <==> y in h {
      assert y in g <==> Connected(edges, x, y);
      assert y in h <==> Connected(other, x, y);
    }
    assert g == h;
  }
}
