// `_groups_idx` as written: a scan of the growing list `sets_list` for every
// edge, merging every set the edge touches into `first_match` and removing it
// from the list while a Python list iterator walks that same list.

module Grouping {
  import opened PairScoring

  /** A similarity group: a set of item indices. */
  type Group = set<nat>

  /** `set(idx)` of one row: the two indices of the pair. */
  function EdgeSet(p: Pair): Group
  {
    {p.i, p.j}
  }

  /** `len(set(idx) & group) > 0`: the pair shares an index with the group. */
  predicate Touches(g: Group, idx: Group)
  {
    |g * idx| > 0
  }

  /** Every index that is an endpoint of some pair of `ps`. */
  function Endpoints(ps: seq<Pair>): set<nat>
  {
    set p, x | p in ps && x in EdgeSet(p) :: x
  }

  /** Every index that lies in some group of `ss`. */
  function Union(ss: seq<Group>): Group
  {
    set s, x | s in ss && x in s :: x
  }

  /** No index lies in two groups at different positions of the list. */
  predicate PairwiseDisjoint(ss: seq<Group>)
  {
    forall a, b | 0 <= a < b < |ss| :: ss[a] * ss[b] == {}
  }

  /** Every group of the list holds at least two indices. */
  predicate NoSingletons(ss: seq<Group>)
  {
    forall s | s in ss :: |s| >= 2
  }

  /** Position of the first element equal to `g`: the element `list.remove(g)` deletes. */
  function FirstIndexOf(ss: seq<Group>, g: Group): (q: nat)
    requires g in ss
    ensures q < |ss| && ss[q] == g && g !in ss[..q]
  {
    if ss[0] == g then 0
    else
      assert g in ss[1..] by { assert ss == [ss[0]] + ss[1..]; }
      var q := 1 + FirstIndexOf(ss[1..], g);
      assert ss[..q] == [ss[0]] + ss[1..][..q - 1];
      q
  }

  function RemoveAt(ss: seq<Group>, q: nat): seq<Group>
    requires q < |ss|
  {
    ss[..q] + ss[q + 1..]
  }

  /**
   * The list after `group.update(idx)` on the group at position k followed by
   * `sets_list.remove(group)`: the widened group replaces the old one in place,
   * then the first element equal to it is deleted.
   */
  function Absorb(sets: seq<Group>, k: nat, idx: Group): seq<Group>
    requires k < |sets|
  {
    var updated := sets[k := sets[k] + idx];
    assert updated[k] == sets[k] + idx;
    RemoveAt(updated, FirstIndexOf(updated, sets[k] + idx))
  }

  /** The state of one pass of the inner loop: the list and the two loop variables. */
  datatype Scan = Scan(sets: seq<Group>, firstMatch: Group, wasSelected: bool)

  /**
   * The inner `for group in sets_list` loop resumed with the list iterator at
   * position k. A matched group is widened in place, absorbed into `first_match`
   * and removed by value; the iterator then moves on to position k + 1 of the
   * shortened list, so the element that slid into position k is never visited.
   */
  function ScanFrom(sets: seq<Group>, k: nat, idx: Group, firstMatch: Group, wasSelected: bool): Scan
    decreases |sets| + 1 - k
  {
    if k >= |sets| then Scan(sets, firstMatch, wasSelected)
    else if Touches(sets[k], idx) then
      ScanFrom(Absorb(sets, k, idx), k + 1, idx, firstMatch + (sets[k] + idx), true)
    else
      ScanFrom(sets, k + 1, idx, firstMatch, wasSelected)
  }

  /** One iteration of the outer loop: the scan, then the two appends. */
  function Step(sets: seq<Group>, idx: Group): seq<Group>
  {
    var s := ScanFrom(sets, 0, idx, {}, false);
    var withMatch := if |s.firstMatch| > 0 then s.sets + [s.firstMatch] else s.sets;
    if !s.wasSelected then withMatch + [idx] else withMatch
  }

  /** `sets_list` after the outer loop has processed all of `edges`. */
  function Grouped(edges: seq<Pair>): seq<Group>
  {
    if edges == [] then []
    else Step(Grouped(edges[..|edges| - 1]), EdgeSet(edges[|edges| - 1]))
  }

  /**
   * The inner `for group in sets_list` loop for one edge: the list iterator
   * advances one position per iteration, also after a removal.
   */
  method ScanGroups(sets: seq<Group>, idx: Group) returns (next: seq<Group>, firstMatch: Group, wasSelected: bool)
    ensures Scan(next, firstMatch, wasSelected) == ScanFrom(sets, 0, idx, {}, false)
  {
    next, firstMatch, wasSelected := sets, {}, false;
    var k := 0;
    while k < |next|
      invariant k <= |next| + 1
      invariant ScanFrom(next, k, idx, firstMatch, wasSelected) == ScanFrom(sets, 0, idx, {}, false)
      decreases |next| + 1 - k
    {
      var group := next[k];
      k := k + 1;
      if Touches(group, idx) {
        group := group + idx;
        next := next[k - 1 := group];
        assert next[k - 1] == group;
        firstMatch := firstMatch + group;
        next := RemoveAt(next, FirstIndexOf(next, group));
        wasSelected := true;
      }
    }
  }

  /** `_groups_idx` over the `index` column of the filtered pairs table. */
  method GroupsIdx(edges: seq<Pair>) returns (sets: seq<Group>)
    ensures sets == Grouped(edges)
    ensures Union(sets) == Endpoints(edges)
    ensures forall p | p in edges :: exists g :: g in sets && EdgeSet(p) <= g
  {
    sets := [];
    var e := 0;
    while e < |edges|
      invariant 0 <= e <= |edges|
      invariant sets == Grouped(edges[..e])
    {
      var idx := EdgeSet(edges[e]);
      ghost var before := sets;
      var firstMatch, wasSelected;
      sets, firstMatch, wasSelected := ScanGroups(sets, idx);
      if |firstMatch| > 0 {
        sets := sets + [firstMatch];
      }
      if !wasSelected {
        sets := sets + [idx];
      }
      assert sets == Step(before, idx);
      assert Grouped(edges[..e + 1]) == Step(Grouped(edges[..e]), idx) by {
        assert edges[..e + 1][..e] == edges[..e];
        assert edges[..e + 1][e] == edges[e];
      }
      e := e + 1;
    }
    assert edges[..e] == edges;
    assert Union(sets) == Endpoints(edges) by {
      GroupedUnion(edges);
    }
    assert forall p | p in edges :: exists g :: g in sets && EdgeSet(p) <= g by {
      GroupedCovers(edges);
    }
  }

  // ----- facts about lists of groups -----

  lemma UnionRemoveAt(ss: seq<Group>, q: nat)
    requires q < |ss|
    ensures Union(RemoveAt(ss, q)) + ss[q] == Union(ss)
    ensures forall s | s in ss && s != ss[q] :: s in RemoveAt(ss, q)
    ensures forall s | s in RemoveAt(ss, q) :: s in ss
  {
    assert ss == ss[..q] + [ss[q]] + ss[q + 1..];
  }

  lemma UnionUpdate(ss: seq<Group>, k: nat, g: Group)
    requires k < |ss| && ss[k] <= g
    ensures Union(ss[k := g]) == Union(ss) + g
    ensures forall s | s in ss[k := g] :: s in ss || s == g
  {
    assert ss[k := g][k] == g;
    forall x | x in Union(ss) ensures x in Union(ss[k := g]) {
      var s :| s in ss && x in s;
      var m :| 0 <= m < |ss| && ss[m] == s;
      if m != k {
        assert ss[k := g][m] == s;
      }
    }
  }

  lemma UnionAlgebra(total: Group, rest: Group, firstMatch: Group, merged: Group, idx: Group, whole: Group, absorbed: Group)
    requires total == rest + (firstMatch + merged) + idx
    requires rest + merged == whole + idx
    requires merged == absorbed + idx && absorbed <= whole
    ensures total == whole + firstMatch + idx
  {
  }

  lemma UnionAppend(ss: seq<Group>, g: Group)
    ensures Union(ss + [g]) == Union(ss) + g
  {
  }

  lemma SubsetSize(a: Group, b: Group)
    requires a <= b
    ensures |a| <= |b|
  {
    assert b == a + (b - a);
    assert a * (b - a) == {};
  }

  /** Two distinct members make a group of at least two. */
  lemma TwoMembers(g: Group, a: nat, b: nat)
    requires a in g && b in g && a != b
    ensures |g| >= 2
  {
    var rest := g - {a};
    assert b in rest;
    assert g == rest + {a};
  }

  // ----- the inner loop -----

  /** `was_selected` is set exactly when `first_match` is non-empty, and then holds the edge. */
  predicate ScanState(idx: Group, firstMatch: Group, wasSelected: bool)
  {
    (wasSelected <==> firstMatch != {}) && (wasSelected ==> idx <= firstMatch)
  }

  /** What `Absorb` does to the list: the widened group stands in for the old one and nothing else changes. */
  lemma AbsorbFacts(sets: seq<Group>, k: nat, idx: Group)
    requires k < |sets|
    ensures Union(Absorb(sets, k, idx)) + (sets[k] + idx) == Union(sets) + idx
    ensures forall s | s in Absorb(sets, k, idx) :: s in sets || s == sets[k] + idx
    ensures forall s | s in sets && s != sets[k] && s != sets[k] + idx :: s in Absorb(sets, k, idx)
  {
    var merged := sets[k] + idx;
    var updated := sets[k := merged];
    assert updated[k] == merged;
    var q := FirstIndexOf(updated, merged);
    UnionUpdate(sets, k, merged);
    UnionRemoveAt(updated, q);
    assert sets[k] in sets;
    forall s | s in sets && s != sets[k] && s != merged ensures s in updated {
      var m :| 0 <= m < |sets| && sets[m] == s;
      assert updated[m] == s;
    }
  }

  lemma {:induction false} ScanKeepsState(sets: seq<Group>, k: nat, idx: Group, firstMatch: Group, wasSelected: bool)
    requires idx != {} && ScanState(idx, firstMatch, wasSelected)
    ensures var r := ScanFrom(sets, k, idx, firstMatch, wasSelected);
      ScanState(idx, r.firstMatch, r.wasSelected) && (wasSelected ==> r.wasSelected)
    decreases |sets| + 1 - k
  {
    if k < |sets| {
      if Touches(sets[k], idx) {
        ScanKeepsState(Absorb(sets, k, idx), k + 1, idx, firstMatch + (sets[k] + idx), true);
      } else {
        ScanKeepsState(sets, k + 1, idx, firstMatch, wasSelected);
      }
    }
  }

  /** The indices of the list and `first_match` after the scan are those before it, plus the edge once it is selected. */
  predicate UnionKept(sets: seq<Group>, idx: Group, firstMatch: Group, r: Scan)
  {
    Union(r.sets) + r.firstMatch == Union(sets) + firstMatch + (if r.wasSelected then idx else {})
  }

  lemma {:induction false} ScanUnion(sets: seq<Group>, k: nat, idx: Group, firstMatch: Group, wasSelected: bool)
    requires idx != {} && ScanState(idx, firstMatch, wasSelected)
    ensures UnionKept(sets, idx, firstMatch, ScanFrom(sets, k, idx, firstMatch, wasSelected))
    decreases |sets| + 1 - k, 1
  {
    if k < |sets| {
      if Touches(sets[k], idx) {
        ScanUnionTouch(sets, k, idx, firstMatch, wasSelected);
      } else {
        ScanUnion(sets, k + 1, idx, firstMatch, wasSelected);
        assert ScanFrom(sets, k, idx, firstMatch, wasSelected) == ScanFrom(sets, k + 1, idx, firstMatch, wasSelected);
      }
    }
  }

  lemma {:induction false} ScanUnionTouch(sets: seq<Group>, k: nat, idx: Group, firstMatch: Group, wasSelected: bool)
    requires k < |sets| && Touches(sets[k], idx)
    requires idx != {} && ScanState(idx, firstMatch, wasSelected)
    ensures UnionKept(sets, idx, firstMatch, ScanFrom(sets, k, idx, firstMatch, wasSelected))
    decreases |sets| + 1 - k, 0
  {
    var merged := sets[k] + idx;
    ScanKeepsState(Absorb(sets, k, idx), k + 1, idx, firstMatch + merged, true);
    ScanUnion(Absorb(sets, k, idx), k + 1, idx, firstMatch + merged, true);
    UnionThroughAbsorb(sets, k, idx, firstMatch, wasSelected);
  }

  /** The step of `ScanUnion` for a group the edge touches. */
  lemma UnionThroughAbsorb(sets: seq<Group>, k: nat, idx: Group, firstMatch: Group, wasSelected: bool)
    requires k < |sets| && Touches(sets[k], idx)
    requires var r := ScanFrom(Absorb(sets, k, idx), k + 1, idx, firstMatch + (sets[k] + idx), true);
      r.wasSelected && UnionKept(Absorb(sets, k, idx), idx, firstMatch + (sets[k] + idx), r)
    ensures UnionKept(sets, idx, firstMatch, ScanFrom(sets, k, idx, firstMatch, wasSelected))
  {
    var merged := sets[k] + idx;
    var next := Absorb(sets, k, idx);
    var r := ScanFrom(next, k + 1, idx, firstMatch + merged, true);
    assert ScanFrom(sets, k, idx, firstMatch, wasSelected) == r;
    AbsorbFacts(sets, k, idx);
    assert sets[k] in sets;
    UnionAlgebra(Union(r.sets) + r.firstMatch, Union(next), firstMatch, merged, idx, Union(sets), sets[k]);
  }

  /** Every group of `sets` lies inside the scan's `first_match` or inside a group of its list. */
  predicate CoveredBy(sets: seq<Group>, firstMatch: Group, r: Scan)
  {
    firstMatch <= r.firstMatch &&
    forall s | s in sets :: s <= r.firstMatch || exists t :: t in r.sets && s <= t
  }

  lemma CoversThroughAbsorb(sets: seq<Group>, k: nat, idx: Group, firstMatch: Group, wasSelected: bool)
    requires k < |sets| && Touches(sets[k], idx)
    requires CoveredBy(Absorb(sets, k, idx), firstMatch + (sets[k] + idx),
                       ScanFrom(Absorb(sets, k, idx), k + 1, idx, firstMatch + (sets[k] + idx), true))
    ensures CoveredBy(sets, firstMatch, ScanFrom(sets, k, idx, firstMatch, wasSelected))
  {
    var next := Absorb(sets, k, idx);
    var r := ScanFrom(next, k + 1, idx, firstMatch + (sets[k] + idx), true);
    assert ScanFrom(sets, k, idx, firstMatch, wasSelected) == r;
    AbsorbFacts(sets, k, idx);
    forall s | s in sets ensures s <= r.firstMatch || exists t :: t in r.sets && s <= t {
      if s != sets[k] && s != sets[k] + idx {
        assert s in next;
      }
    }
  }

  /** Every group of the list before the scan ends up inside a group of the list or inside `first_match`. */
  lemma {:induction false} ScanCovers(sets: seq<Group>, k: nat, idx: Group, firstMatch: Group, wasSelected: bool)
    ensures CoveredBy(sets, firstMatch, ScanFrom(sets, k, idx, firstMatch, wasSelected))
    decreases |sets| + 1 - k
  {
    if k < |sets| {
      if Touches(sets[k], idx) {
        ScanCovers(Absorb(sets, k, idx), k + 1, idx, firstMatch + (sets[k] + idx), true);
        CoversThroughAbsorb(sets, k, idx, firstMatch, wasSelected);
      } else {
        ScanCovers(sets, k + 1, idx, firstMatch, wasSelected);
        assert ScanFrom(sets, k, idx, firstMatch, wasSelected) == ScanFrom(sets, k + 1, idx, firstMatch, wasSelected);
      }
    }
  }

  lemma {:induction false} ScanSizes(sets: seq<Group>, k: nat, idx: Group, firstMatch: Group, wasSelected: bool)
    requires |idx| >= 2 && NoSingletons(sets)
    ensures NoSingletons(ScanFrom(sets, k, idx, firstMatch, wasSelected).sets)
    decreases |sets| + 1 - k
  {
    if k < |sets| {
      if Touches(sets[k], idx) {
        AbsorbFacts(sets, k, idx);
        SubsetSize(idx, sets[k] + idx);
        ScanSizes(Absorb(sets, k, idx), k + 1, idx, firstMatch + (sets[k] + idx), true);
      } else {
        ScanSizes(sets, k + 1, idx, firstMatch, wasSelected);
      }
    }
  }

  // ----- one edge -----

  lemma StepUnion(sets: seq<Group>, idx: Group)
    requires idx != {}
    ensures Union(Step(sets, idx)) == Union(sets) + idx
  {
    ScanUnion(sets, 0, idx, {}, false);
    ScanKeepsState(sets, 0, idx, {}, false);
    var s := ScanFrom(sets, 0, idx, {}, false);
    UnionAppend(s.sets, s.firstMatch);
    UnionAppend(s.sets, idx);
  }

  lemma StepCovers(sets: seq<Group>, idx: Group)
    requires idx != {}
    ensures forall s | s in sets :: exists t :: t in Step(sets, idx) && s <= t
    ensures exists t :: t in Step(sets, idx) && idx <= t
  {
    ScanCovers(sets, 0, idx, {}, false);
    ScanKeepsState(sets, 0, idx, {}, false);
    var s := ScanFrom(sets, 0, idx, {}, false);
    var result := Step(sets, idx);
    var home := if s.wasSelected then s.firstMatch else idx;
    assert home in result && idx <= home;
    forall g | g in sets ensures exists t :: t in result && g <= t {
      if g <= s.firstMatch {
        assert g <= home;
      } else {
        var t :| t in s.sets && g <= t;
        assert t in result;
      }
    }
  }

  lemma StepSizes(sets: seq<Group>, idx: Group)
    requires |idx| >= 2 && NoSingletons(sets)
    ensures NoSingletons(Step(sets, idx))
  {
    ScanSizes(sets, 0, idx, {}, false);
    ScanKeepsState(sets, 0, idx, {}, false);
    var s := ScanFrom(sets, 0, idx, {}, false);
    if s.wasSelected {
      SubsetSize(idx, s.firstMatch);
    }
  }

  // ----- the whole loop -----

  lemma EndpointsSnoc(edges: seq<Pair>)
    requires edges != []
    ensures Endpoints(edges) == Endpoints(edges[..|edges| - 1]) + EdgeSet(edges[|edges| - 1])
  {
    var front := edges[..|edges| - 1];
    assert edges == front + [edges[|edges| - 1]];
    forall x | x in Endpoints(edges) ensures x in Endpoints(front) + EdgeSet(edges[|edges| - 1]) {
      var p :| p in edges && x in EdgeSet(p);
      if p != edges[|edges| - 1] {
        assert p in front;
      }
    }
  }

  /** No index is lost or invented: the groups cover exactly the endpoints of the edges. */
  lemma {:induction false} GroupedUnion(edges: seq<Pair>)
    ensures Union(Grouped(edges)) == Endpoints(edges)
  {
    if edges != [] {
      GroupedUnion(edges[..|edges| - 1]);
      StepUnion(Grouped(edges[..|edges| - 1]), EdgeSet(edges[|edges| - 1]));
      EndpointsSnoc(edges);
    }
  }

  /** Groups are never split: each group after k edges lies inside a final group. */
  lemma {:induction false} GroupedCoarsens(edges: seq<Pair>, k: nat)
    requires k <= |edges|
    ensures forall g | g in Grouped(edges[..k]) :: exists h :: h in Grouped(edges) && g <= h
    decreases |edges| - k
  {
    if k < |edges| {
      GroupedCoarsens(edges, k + 1);
      var before := Grouped(edges[..k]);
      assert edges[..k + 1][..k] == edges[..k];
      StepCovers(before, EdgeSet(edges[k]));
      forall g | g in before ensures exists h :: h in Grouped(edges) && g <= h {
        var t :| t in Grouped(edges[..k + 1]) && g <= t;
        var h :| h in Grouped(edges) && t <= h;
      }
    } else {
      assert edges[..k] == edges;
    }
  }

  /** Both endpoints of every edge end up in one common group. */
  lemma GroupedCovers(edges: seq<Pair>)
    ensures forall p | p in edges :: exists g :: g in Grouped(edges) && EdgeSet(p) <= g
  {
    forall p | p in edges ensures exists g :: g in Grouped(edges) && EdgeSet(p) <= g {
      var k :| 0 <= k < |edges| && edges[k] == p;
      assert edges[..k + 1][..k] == edges[..k];
      StepCovers(Grouped(edges[..k]), EdgeSet(p));
      var t :| t in Grouped(edges[..k + 1]) && EdgeSet(p) <= t;
      GroupedCoarsens(edges, k + 1);
      var h :| h in Grouped(edges) && t <= h;
    }
  }

  /** With no self-pairs, every group holds at least two indices. */
  lemma {:induction false} GroupedSizes(edges: seq<Pair>)
    requires forall p | p in edges :: p.i != p.j
    ensures NoSingletons(Grouped(edges))
  {
    if edges != [] {
      var front, last := edges[..|edges| - 1], edges[|edges| - 1];
      assert forall p | p in front :: p in edges;
      GroupedSizes(front);
      TwoMembers(EdgeSet(last), last.i, last.j);
      StepSizes(Grouped(front), EdgeSet(last));
    }
  }

  // ----- the promise of no overlap does not hold -----

  lemma OverlapFirstTwo()
    ensures Grouped([Pair(0, 1, 0.9), Pair(2, 3, 0.8)]) == [{0, 1}, {2, 3}]
  {
    var edges := [Pair(0, 1, 0.9), Pair(2, 3, 0.8)];
    assert edges[..1][..0] == [];
    assert Grouped(edges[..1]) == [{0, 1}] by {
      assert ScanFrom([], 0, {0, 1}, {}, false) == Scan([], {}, false);
    }
    assert edges[..|edges| - 1] == edges[..1];
    assert {0, 1} * {2, 3} == {};
    assert ScanFrom([{0, 1}], 0, {2, 3}, {}, false) == Scan([{0, 1}], {}, false);
  }

  lemma OverlapAbsorb()
    ensures Absorb([{0, 1}, {2, 3}], 0, {1, 2}) == [{2, 3}]
  {
    var before: seq<Group> := [{0, 1}, {2, 3}];
    assert before[0] + {1, 2} == {0, 1, 2};
    var updated := before[0 := {0, 1, 2}];
    assert updated == [{0, 1, 2}, {2, 3}];
    assert FirstIndexOf(updated, {0, 1, 2}) == 0;
    assert RemoveAt(updated, 0) == [{2, 3}];
  }

  /**
   * Edge {1, 2} meets {0, 1} at position 0: the widened group is removed, the
   * list shifts, and the iterator, now at position 1, finds the list exhausted
   * and never looks at {2, 3}.
   */
  lemma OverlapLastStep()
    ensures Step([{0, 1}, {2, 3}], {1, 2}) == [{2, 3}, {0, 1, 2}]
  {
    var before: seq<Group> := [{0, 1}, {2, 3}];
    assert 1 in before[0] * {1, 2};
    OverlapAbsorb();
    assert {} + (before[0] + {1, 2}) == {0, 1, 2};
    assert ScanFrom([{2, 3}], 1, {1, 2}, {0, 1, 2}, true) == Scan([{2, 3}], {0, 1, 2}, true);
    assert ScanFrom(before, 0, {1, 2}, {}, false) == Scan([{2, 3}], {0, 1, 2}, true);
  }

  /**
   * Three edges of a score-sorted, above-threshold table for which the
   * iterator skips {2, 3} after removing {0, 1}: index 2 ends up in two groups.
   */
  lemma OverlapExample()
    ensures var edges := [Pair(0, 1, 0.9), Pair(2, 3, 0.8), Pair(1, 2, 0.7)];
      Grouped(edges) == [{2, 3}, {0, 1, 2}] && !PairwiseDisjoint(Grouped(edges))
  {
    var edges := [Pair(0, 1, 0.9), Pair(2, 3, 0.8), Pair(1, 2, 0.7)];
    assert edges[..|edges| - 1] == [Pair(0, 1, 0.9), Pair(2, 3, 0.8)];
    OverlapFirstTwo();
    OverlapLastStep();
    assert EdgeSet(edges[2]) == {1, 2};
    assert Grouped(edges) == [{2, 3}, {0, 1, 2}];
    assert 2 in Grouped(edges)[0] * Grouped(edges)[1];
  }
}
