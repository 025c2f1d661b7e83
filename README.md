# Similarity grouping of attractions

This project models the grouping engine of `attractions_similarity_updater.py`.
Given the attractions' pairwise similarity scores, the engine does four things:

1. `_pairs_df_model` lists every unordered pair `i < j` with its score. It then sorts the list by score, highest first.
2. `compute_similarity_groups` keeps the pairs whose score is strictly above `SIMILARITY_THRESHOLD` (0.65).
3. `_groups_idx` folds the surviving pairs into a list of index sets, called groups.
4. `_groups_df` gives every group a fresh `similarity_uuid`. It returns one `{id, similarity_uuid}` record per attraction that appears in a surviving pair.

The Dafny modules follow these stages:

| file | module | stage |
|---|---|---|
| `pairs.dfy` | `PairScoring` | the pair loops of `_pairs_df_model` over a square score matrix |
| `ordering.dfy` | `ScoreOrder` | `sorted(pairs, key=score, reverse=True)`, a stable sort |
| `threshold.dfy` | `ThresholdFilter` | `score > SIMILARITY_THRESHOLD` |
| `groups.dfy` | `Grouping` | `_groups_idx` as written, including its in-loop `list.remove` |
| `components.dfy` | `Components` | the corrected grouping: connected components of the surviving pairs |
| `labels.dfy` | `Labelling` | `_groups_df`: the records and their tokens |
| `pipeline.dfy` | `SimilarityPipeline` | `compute_similarity_groups` end to end |

## How the grouping is modelled

The docstring of `_groups_idx` (lines 93-94) says two things:

- a group consists of "the pairs of a particular index and the pairs of its pairs", so it collects everything reachable through chains of pairs;
- "there is no overlap of indices between the groups".

The only grouping that keeps both promises is the set of connected components of the surviving pairs. Such groups are disjoint. Two items share a group exactly when a chain of pairs joins them. As a consequence, the grouping does not depend on the order in which the pairs are visited.

The code does not deliver the no-overlap promise. The inner loop (lines 108-114) removes the matched group from `sets_list` while a `for` loop iterates over that same list. A Python list iterator moves to the next position after each step. After a removal, the element that slid into the freed slot is therefore never visited. Also, `remove` deletes the first element equal to the widened group, which need not be the element at the iterator's position.

`Grouping.ScanFrom` models exactly this: the iterator position, the widening in place, and the removal by first equal value. `Grouping.GroupsIdx` is proved to compute the same list as the specification function `Grouping.Grouped`.

Where the code and its docstring disagree, the model follows the code. The module `Components` adds the grouping the docstring describes. It scans a snapshot of the list, so every group that meets the pair is merged. It is proved to produce the connected components and to ignore pair order. The pipeline comes in both versions:

- `ComputeSimilarityGroups` uses the grouping as written;
- `ComputeSimilarityGroupsFixed` uses the corrected grouping.

## How labelling is modelled

The loop at lines 143-144 overwrites the `similarity_uuid` cells of each group in turn. An index held by several groups therefore keeps the token of the last group that holds it (`Labelling.LastGroupOf`).

`uuid.uuid4()` is modelled as a counter: the g-th group of the list receives `Token(firstToken + g)`. This keeps the only property the code relies on, that different groups receive different tokens.

The output `to_dict('records')` is modelled as a map from row label to record.

## Model

| member | source | states |
|---|---|---|
| `PairScoring.Enumerated` | attractions_similarity_updater.py:51-54 | the list the nested loops build, defined row by row; its count, members and order are the contracts of `EnumeratedCount`, `EnumeratedMembers` and `EnumeratedOnce` |
| `PairScoring.EnumeratePairs` | attractions_similarity_updater.py:50-54 | the nested loops append exactly the pairs of `Enumerated(m)`: row by row, `i` ascending, then `j` ascending |
| `PairScoring.EnumeratedCount` | attractions_similarity_updater.py:52-54 | an `n`-item matrix yields `n(n-1)/2` pairs, i.e. `n choose 2`, as the docstring of `_pairs_df_model` says |
| `PairScoring.EnumeratedMembers` | attractions_similarity_updater.py:52-54 | a pair is listed iff `i < j < n` and its score is `m[i][j]` |
| `PairScoring.EnumeratedOnce` | attractions_similarity_updater.py:52-54 | the list is in index order, and no two positions share an index pair |
| `ScoreOrder.SortByScore` | attractions_similarity_updater.py:56 | the stable descending sort, as insertion of each pair in front of the first pair that does not score higher; what it promises is the contracts of `SortPermutes`, `SortSorted` and `SortStable` |
| `ScoreOrder.SortPermutes` | attractions_similarity_updater.py:56 | sorting is a permutation: same multiset of pairs |
| `ScoreOrder.SortSorted` | attractions_similarity_updater.py:56 | the result is ordered by score, highest first (`reverse=True`) |
| `ScoreOrder.SortStable` | attractions_similarity_updater.py:56 | for every score value, the pairs with that score keep their input order |
| `ScoreOrder.InsertStable` | attractions_similarity_updater.py:56 | inserting one pair behind all pairs of a higher score leaves the other pairs of its score in order |
| `ScoreOrder.TiesInIndexOrder` | attractions_similarity_updater.py:52-56 | pairs that tie on score stay in index order after the sort |
| `ThresholdFilter.Above` | attractions_similarity_updater.py:168 | the boolean-mask filter `score > t`, keeping row order; characterised by `AboveKeeps`, `AboveMembers` and `AboveConcat` |
| `ThresholdFilter.AboveKeeps` | attractions_similarity_updater.py:168 | a row survives the filter, with its multiplicity, iff its score is strictly above the threshold |
| `ThresholdFilter.AboveMembers` | attractions_similarity_updater.py:168 | `p` is kept iff `p` is a row and `p.score > t` |
| `ThresholdFilter.AboveConcat` | attractions_similarity_updater.py:168 | the filter preserves order: it commutes with concatenation |
| `ThresholdFilter.AboveSorted` | attractions_similarity_updater.py:168 | filtering a score-sorted table leaves it score-sorted |
| `ThresholdFilter.AtThresholdDropped` | attractions_similarity_updater.py:168 | a pair scoring exactly `SIMILARITY_THRESHOLD` (0.65) is dropped |
| `Grouping.ScanFrom` | attractions_similarity_updater.py:108-114 | the inner loop resumed at iterator position `k`: a touched group is widened, merged into `first_match` and removed by value, and the iterator moves on to `k + 1` of the shortened list; `ScanGroups` is proved to compute it |
| `Grouping.Step` | attractions_similarity_updater.py:104-120 | one iteration of the outer loop: the scan, then appending `first_match` if non-empty and `set(idx)` if no group was selected; `StepUnion`, `StepCovers` and `StepSizes` state what it keeps |
| `Grouping.Grouped` | attractions_similarity_updater.py:102-122 | `sets_list` after all rows, one `Step` per row in table order; `GroupsIdx` is proved to compute it, and `GroupedUnion`, `GroupedCovers`, `GroupedSizes` and `OverlapExample` state its properties |
| `Grouping.ScanGroups` | attractions_similarity_updater.py:105-114 | the inner loop, whose iterator advances after a removal, ends in the state given by `ScanFrom` |
| `Grouping.GroupsIdx` | attractions_similarity_updater.py:91-122 | `_groups_idx` returns `Grouped(edges)`; the groups cover exactly the endpoints; each pair lies inside some group |
| `Grouping.FirstIndexOf` | attractions_similarity_updater.py:113 | `list.remove` deletes the first element equal to its argument: the result is that element's position, and no earlier element is equal to it |
| `Grouping.GroupedUnion` | attractions_similarity_updater.py:102-122 | no index is lost or invented: the union of the groups is the set of endpoints |
| `Grouping.GroupedCoarsens` | attractions_similarity_updater.py:108-120 | groups only grow: each group after `k` pairs lies inside some final group |
| `Grouping.GroupedCovers` | attractions_similarity_updater.py:108-120 | both endpoints of every pair end up together in one group |
| `Grouping.GroupedSizes` | attractions_similarity_updater.py:108-120 | with no self-pairs, every group holds at least two indices |
| `Grouping.OverlapExample` | attractions_similarity_updater.py:93-117 | for pairs (0,1), (2,3), (1,2) the result is `[{2,3}, {0,1,2}]`, which is not disjoint: the docstring's promise fails |
| `Components.GroupsIdxFixed` | attractions_similarity_updater.py:91-122 | the corrected grouping: the groups are disjoint and cover exactly the endpoints; every pair lies inside one group; `y` shares `x`'s group iff a chain of pairs joins them |
| `Components.MergeEdgeInto` | attractions_similarity_updater.py:104-120 | one pair, with the scan over a snapshot: all touched groups merge with the pair, the rest are kept |
| `Components.ComponentsPartition` | attractions_similarity_updater.py:93-94 | the docstring's promise for the corrected grouping: the groups are pairwise disjoint, non-empty, and cover the endpoints |
| `Components.ComponentsCoarsen` | attractions_similarity_updater.py:108-120 | each corrected group after `k` pairs lies inside a final group |
| `Components.ComponentsCover` | attractions_similarity_updater.py:108-120 | both endpoints of each pair share a corrected group |
| `Components.ComponentsSizes` | attractions_similarity_updater.py:108-120 | with no self-pairs, every corrected group holds at least two indices |
| `Components.ComponentsExact` | attractions_similarity_updater.py:93-94 | a corrected group is exactly the set of indices connected to any one of its members |
| `Components.OrderIndependent` | attractions_similarity_updater.py:104 | two pair lists with the same members give the same set of corrected groups |
| `Labelling.LastGroupOf` | attractions_similarity_updater.py:143-144 | the position of a group holding `x` after which no group holds `x`: the group whose token `x` keeps |
| `Labelling.LastGroupOfDisjoint` | attractions_similarity_updater.py:143-144 | when the groups are disjoint, the last group holding `x` is the only one |
| `Labelling.Overwrite` | attractions_similarity_updater.py:144 | `df.loc[list(group), 'similarity_uuid'] = token`: the cells of the group's rows take the token, every other cell is unchanged; `LabelStep` proves what a sequence of these writes leaves |
| `Labelling.LabelGroups` | attractions_similarity_updater.py:143-144 | each cell ends with the token of the last group containing it; cells in no group keep their value |
| `Labelling.AllRowsEndpoints` | attractions_similarity_updater.py:137-138 | `df.loc` finds every label iff every endpoint is a row of the id column |
| `Labelling.LabelRecords` | attractions_similarity_updater.py:138-147 | one record per grouped index, with its id and the token of its last group |
| `Labelling.GroupsDf` | attractions_similarity_updater.py:125-147 | KeyError iff an endpoint is not a row; otherwise one record per endpoint, labelled by `_groups_idx`'s groups as written |
| `Labelling.GroupsDfFixed` | attractions_similarity_updater.py:125-147 | over the corrected grouping: each record holds its id and a token, and two records share a token iff a chain of pairs joins them |
| `Labelling.SameTokenIffConnected` | attractions_similarity_updater.py:141-144 | over disjoint, connection-exact groups, equal tokens mean connected items and connected items have equal tokens |
| `Labelling.SplitLabelsExample` | attractions_similarity_updater.py:141-144 | for the overlapping example, items 2 and 3 are paired directly yet receive tokens of different groups |
| `SimilarityPipeline.FilteredPairs` | attractions_similarity_updater.py:166-168 | `similarity_df_above_threshold`: enumerate, sort, filter; `FilteredMembers` and `FilteredEndpoints` characterise it |
| `SimilarityPipeline.FilteredMembers` | attractions_similarity_updater.py:166-168 | the filtered table holds each pair `i < j` whose score is above 0.65, highest score first |
| `SimilarityPipeline.FilteredEndpoints` | attractions_similarity_updater.py:137 | an item is an endpoint of the filtered table iff it has a partner scoring above the threshold |
| `SimilarityPipeline.ComputeSimilarityGroups` | attractions_similarity_updater.py:150-172 | KeyError iff there are fewer than two items; otherwise exactly the items with an above-threshold partner are output, labelled by the grouping as written |
| `SimilarityPipeline.ComputeSimilarityGroupsFixed` | attractions_similarity_updater.py:150-172 | the same, over the corrected grouping: every output cell holds its item's id and a token, and two output items share a token iff a chain of above-threshold pairs joins them |
| `SimilarityPipeline.AtThresholdNoGroups` | attractions_similarity_updater.py:168 | two items scoring exactly 0.65 leave the filtered table empty |
| `SimilarityPipeline.ChainScoresSplit` | attractions_similarity_updater.py:150-172 | a 4-item score matrix for which the pipeline as written gives items 2 and 3 different tokens, though they are connected |

## Left out

- Sentence embeddings (`_model_embedding`, `SentenceTransformer`) and `util.cos_sim` are not modelled. The pipeline takes the cosine score matrix they produce as a parameter.
- Scores are `real`, not 32-bit floats. Rounding in the cosine computation and in the comparison with 0.65 is not modelled.
- `pd.DataFrame.from_dict` and `dp.data_preprocess` are not modelled. The model assumes the pre-processed table has rows labelled `0..n-1` in score-matrix order, and its `uuid` column is the parameter `ids`.
- `df.loc[...][display_columns]` returns a copy, and the cell writes at line 144 go through chained indexing. The model assumes those writes reach the returned table, as the code evidently intends.
- `to_dict('records')` returns the records in the row order of `df.loc[above_threshold_idx]`. That order comes from `list(set(...))` at line 137, i.e. Python's set iteration order; the endpoints {1, 8}, for example, iterate as 8, 1. The model returns a map from row label to record, which keeps the contents and drops that order.
- `uuid.uuid4()` is modelled as a counter from `firstToken`, so tokens are naturals rather than random strings. The integer placeholder 0 written at line 140 is the `Placeholder` cell.
- `similarity_matrix` (lines 65-88) is not used by `compute_similarity_groups` and is not modelled.
- `main` (lines 175-195) is not modelled: database fetch, SQS publishing and the status-code response are I/O.
- `ComputeSimilarityGroups`: the KeyError for fewer than two items comes from `pd.DataFrame([])` having no `index` column at line 59. The exception and its message are reduced to the single `KeyError` result.

## Findings

| source | as written | input that shows it | evidently intended | confidence | as-written member | corrected member |
|---|---|---|---|---|---|---|
| attractions_similarity_updater.py:108-117 | `sets_list.remove(group)` inside `for group in sets_list` makes the iterator skip the group after a removed one, so a pair can miss groups it touches | filtered pairs (0,1) 0.9, (2,3) 0.8, (1,2) 0.7 (the matrix `ChainScores`) give groups `[{2,3}, {0,1,2}]`; index 2 is in both, and items 2 and 3 get different tokens | disjoint groups, one per connected component, as the docstring at lines 93-94 says | not executed | `Grouping.OverlapExample` | `Components.GroupsIdxFixed` |
