// `_groups_df`: one record per endpoint of a surviving pair, whose
// `similarity_uuid` is overwritten group by group with a fresh token.
// The token source (`uuid.uuid4()`) is a counter: the g-th group of the
// list receives token firstToken + g, so tokens of different groups differ.

module Labelling {
  import opened PairScoring
  import opened Grouping
  import opened Components

  /** A `similarity_uuid` cell: the placeholder 0 or a generated token. */
  datatype Cell = Placeholder | Token(t: nat)

  /** One output record `{id, similarity_uuid}`. */
  datatype Record = Record(id: string, similarityUuid: Cell)

  /** `df.loc[labels]` raises KeyError when a label is not a row of the table. */
  datatype Result<T> = Ok(value: T) | KeyError

  /** Position of the last group of the list that holds x: its token is the one x keeps. */
  function LastGroupOf(groups: seq<Group>, x: nat): (r: nat)
    requires x in Union(groups)
    ensures r < |groups| && x in groups[r]
    ensures forall m | r < m < |groups| :: x !in groups[m]
  {
    var n := |groups| - 1;
    if x in groups[n] then n
    else
      assert x in Union(groups[..n]) by {
        var g :| g in groups && x in g;
        var m :| 0 <= m < |groups| && groups[m] == g;
        assert groups[..n][m] == g;
      }
      LastGroupOf(groups[..n], x)
  }

  lemma LastGroupOfSnoc(groups: seq<Group>, g: nat, x: nat)
    requires g < |groups|
    ensures x in Union(groups[..g + 1]) <==> x in Union(groups[..g]) || x in groups[g]
    ensures x in groups[g] ==> LastGroupOf(groups[..g + 1], x) == g
    ensures x !in groups[g] && x in Union(groups[..g]) ==>
      LastGroupOf(groups[..g + 1], x) == LastGroupOf(groups[..g], x)
  {
    assert groups[..g + 1] == groups[..g] + [groups[g]];
    assert groups[..g + 1][..g] == groups[..g];
  }

  /** In a disjoint list, the last group holding x is the only one. */
  lemma LastGroupOfDisjoint(groups: seq<Group>, a: nat, x: nat)
    requires PairwiseDisjoint(groups) && a < |groups| && x in groups[a]
    ensures x in Union(groups) && LastGroupOf(groups, x) == a
  {
    assert groups[a] in groups;
    forall m | a < m < |groups| ensures x !in groups[m] {
      assert groups[a] * groups[m] == {};
      assert x in groups[a] * groups[m] <==> x in groups[m];
    }
  }

  /** Every cell of `column` holds the token of the last group of `groups` that contains it. */
  predicate LabelledBy(labelled: map<nat, Cell>, column: map<nat, Cell>, groups: seq<Group>, firstToken: nat)
  {
    labelled.Keys == column.Keys &&
    forall x | x in column ::
      labelled[x] == if x in Union(groups) then Token(firstToken + LastGroupOf(groups, x)) else column[x]
  }

  /** `df.loc[list(group), "similarity_uuid"] = token`. */
  function Overwrite(labelled: map<nat, Cell>, group: Group, token: Cell): map<nat, Cell>
  {
    map x | x in labelled :: if x in group then token else labelled[x]
  }

  lemma LabelStart(column: map<nat, Cell>, groups: seq<Group>, firstToken: nat)
    ensures LabelledBy(column, column, groups[..0], firstToken)
  {
    assert groups[..0] == [];
  }

  lemma LabelStep(labelled: map<nat, Cell>, column: map<nat, Cell>, groups: seq<Group>, g: nat, firstToken: nat)
    requires g < |groups| && LabelledBy(labelled, column, groups[..g], firstToken)
    ensures LabelledBy(Overwrite(labelled, groups[g], Token(firstToken + g)), column, groups[..g + 1], firstToken)
  {
    var next := Overwrite(labelled, groups[g], Token(firstToken + g));
    forall x | x in column ensures next[x] ==
      if x in Union(groups[..g + 1]) then Token(firstToken + LastGroupOf(groups[..g + 1], x)) else column[x]
    {
      LastGroupOfSnoc(groups, g, x);
    }
  }

  /**
   * The loop `for group in groups_list` of `_groups_df`: each group overwrites
   * the cells of its members with a fresh token, so a cell ends with the token
   * of the last group that holds it and keeps its old value when no group does.
   */
  method LabelGroups(column: map<nat, Cell>, groups: seq<Group>, firstToken: nat) returns (labelled: map<nat, Cell>)
    ensures LabelledBy(labelled, column, groups, firstToken)
  {
    labelled := column;
    LabelStart(column, groups, firstToken);
    for g := 0 to |groups|
      invariant LabelledBy(labelled, column, groups[..g], firstToken)
    {
      LabelStep(labelled, column, groups, g, firstToken);
      labelled := Overwrite(labelled, groups[g], Token(firstToken + g));
    }
    assert groups[..|groups|] == groups;
  }

  /** All endpoints name rows of the id column, so `df.loc` finds them. */
  predicate AllRows(filtered: seq<Pair>, ids: seq<string>)
  {
    forall p | p in filtered :: p.i < |ids| && p.j < |ids|
  }

  lemma AllRowsEndpoints(filtered: seq<Pair>, ids: seq<string>)
    ensures AllRows(filtered, ids) <==> forall e | e in Endpoints(filtered) :: e < |ids|
  {
    if !AllRows(filtered, ids) {
      var p :| p in filtered && !(p.i < |ids| && p.j < |ids|);
      assert p.i in EdgeSet(p) && p.j in EdgeSet(p);
      assert p.i in Endpoints(filtered) && p.j in Endpoints(filtered);
    } else {
      forall e | e in Endpoints(filtered) ensures e < |ids| {
        var p :| p in filtered && e in EdgeSet(p);
      }
    }
  }

  /** Each record carries its item's id and the token of the last group holding the item. */
  predicate LabelledByGroups(records: map<nat, Record>, ids: seq<string>, groups: seq<Group>, firstToken: nat)
  {
    forall e | e in records ::
      e < |ids| && e in Union(groups) &&
      records[e] == Record(ids[e], Token(firstToken + LastGroupOf(groups, e)))
  }

  /**
   * Lines 138-147 of `_groups_df`: a placeholder cell per item of the groups,
   * overwritten group by group, then joined with the `id` column.
   */
  method LabelRecords(keys: set<nat>, ids: seq<string>, groups: seq<Group>, firstToken: nat)
    returns (records: map<nat, Record>)
    requires keys == Union(groups) && forall e | e in keys :: e < |ids|
    ensures records.Keys == keys
    ensures LabelledByGroups(records, ids, groups, firstToken)
  {
    var column := map e | e in keys :: Placeholder;
    var labelled := LabelGroups(column, groups, firstToken);
    records := map e | e in keys :: Record(ids[e], labelled[e]);
  }

  /**
   * `_groups_df`: one record per distinct endpoint of the surviving pairs,
   * labelled with the token of the last group of `_groups_idx` holding it;
   * KeyError when an endpoint is not a row of the id column.
   */
  method GroupsDf(filtered: seq<Pair>, ids: seq<string>, firstToken: nat) returns (r: Result<map<nat, Record>>)
    ensures r.Ok? <==> forall e | e in Endpoints(filtered) :: e < |ids|
    ensures r.Ok? ==> r.value.Keys == Endpoints(filtered)
    ensures r.Ok? ==> LabelledByGroups(r.value, ids, Grouped(filtered), firstToken)
  {
    AllRowsEndpoints(filtered, ids);
    if !AllRows(filtered, ids) {
      return KeyError;
    }
    var groups := GroupsIdx(filtered);
    var records := LabelRecords(Endpoints(filtered), ids, groups, firstToken);
    r := Ok(records);
  }

  /**
   * `_groups_df` over the corrected grouping: two endpoints receive the same
   * token exactly when a path of surviving pairs joins them.
   */
  method GroupsDfFixed(filtered: seq<Pair>, ids: seq<string>, firstToken: nat) returns (r: Result<map<nat, Record>>)
    ensures r.Ok? <==> forall e | e in Endpoints(filtered) :: e < |ids|
    ensures r.Ok? ==> r.value.Keys == Endpoints(filtered)
    ensures r.Ok? ==> forall e | e in r.value :: r.value[e].id == ids[e] && r.value[e].similarityUuid.Token?
    ensures r.Ok? ==> forall a, b | a in r.value && b in r.value ::
      r.value[a].similarityUuid == r.value[b].similarityUuid <==> Connected(filtered, a, b)
  {
    AllRowsEndpoints(filtered, ids);
    if !AllRows(filtered, ids) {
      return KeyError;
    }
    var groups := GroupsIdxFixed(filtered);
    var records := LabelRecords(Union(groups), ids, groups, firstToken);
    SameTokenIffConnected(filtered, ids, groups, records, firstToken);
    r := Ok(records);
  }

  lemma SameTokenIffConnected(filtered: seq<Pair>, ids: seq<string>, groups: seq<Group>, records: map<nat, Record>, firstToken: nat)
    requires PairwiseDisjoint(groups) && records.Keys == Union(groups)
    requires forall g, x, y | g in groups && x in g :: y in g <==> Connected(filtered, x, y)
    requires LabelledByGroups(records, ids, groups, firstToken)
    ensures forall a, b | a in records && b in records ::
      records[a].similarityUuid == records[b].similarityUuid <==> Connected(filtered, a, b)
  {
    forall a, b | a in records && b in records
      ensures records[a].similarityUuid == records[b].similarityUuid <==> Connected(filtered, a, b)
    {
      var ga := LastGroupOf(groups, a);
      assert groups[ga] in groups;
      if b in groups[ga] {
        LastGroupOfDisjoint(groups, ga, b);
      }
    }
  }

  /**
   * With the grouping as written, items 2 and 3, joined directly by a pair of
   * score 0.8, end up with tokens of different groups: 3 keeps the token of
   * {2, 3} and 2 takes the token of the later {0, 1, 2}.
   */
  lemma SplitLabelsExample()
    ensures var edges := [Pair(0, 1, 0.9), Pair(2, 3, 0.8), Pair(1, 2, 0.7)];
      2 in Union(Grouped(edges)) && 3 in Union(Grouped(edges)) &&
      LastGroupOf(Grouped(edges), 2) == 1 && LastGroupOf(Grouped(edges), 3) == 0
  {
    OverlapExample();
    var groups: seq<Group> := [{2, 3}, {0, 1, 2}];
    assert groups[0] in groups && groups[1] in groups;
    assert 3 !in groups[1];
  }
}
