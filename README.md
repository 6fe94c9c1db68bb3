# ID3 decision tree, modelled in Dafny

This project models the ID3 classifier in `SourceCode/Decide/decision_tree.py`:

- choosing a majority label (`potential_leaf_node`);
- choosing the split feature by greatest information gain (`best_feature_for_split`);
- building the tree recursively (`create_tree`);
- walking the tree to classify an example (`classify`);
- rendering the tree as indented text rules (`as_rule_str`);
- scanning a two-feature tree along the diagonal for the corners of its false region (`find_edges`).

Datasets are sequences of rows. A row's last entry is its class label. A tree is the datatype `Leaf(category) | Node(feature, children)`. The children form an ordered sequence of `(key, subtree)` pairs, standing in for the Python dict. Python exceptions become the `Err` cases of a `Result`.

Modules, one per file:

| file | module | models |
|---|---|---|
| `outcomes.dfy` | `Outcomes` | `Option`, `Result` and the exceptions raised |
| `values.dfy` | `Values` | feature values and `str()` |
| `dataset.dfy` | `Dataset` | columns, class labels, `set(...)` as first-occurrence order, the partition comprehension |
| `selection.dfy` | `Selection` | `potential_leaf_node` and the argmax of `best_feature_for_split` |
| `trees.dfy` | `Trees` | the tree |
| `build.dfy` | `Build` | `create_tree`: the guarded builder `Id3Tree` and the imperative `CreateTree` that is proved equal to it |
| `source_recursion.dfy` | `SourceRecursion` | `create_tree` exactly as written: when it finishes, and that it never finishes on a stall |
| `classify.dfy` | `Classification` | `classify` and consistency on the training data |
| `rules.dfy` | `Rules` | `as_rule_str`: the text as a function, and the string-building loop as a method |
| `edges.dfy` | `Edges` | `find_edges`: in-place sorting, the diagonal, the scan, as written and corrected |

Nested text in `as_rule_str` is indented twice. A node child's clause continues with `:`, a newline and the parent's `2 * ident` spaces, and the child's own text starts with `2 * (ident + 1)` spaces, so a nested node starts `4 * ident + 2` spaces in (`Rules.DoubleIndent`).

## Model

| member | source | states |
|---|---|---|
| Selection.FirstMax | SourceCode/Decide/decision_tree.py:29-30 | The index picked by `max(enumerate(scores), key=itemgetter(1))`. No score is greater, and every earlier score is strictly smaller, so the first maximum wins. |
| Selection.PotentialLeafNode | SourceCode/Decide/decision_tree.py:8-10 | The label returned occurs among the class labels. The count returned is its exact number of occurrences. No label occurs more often. |
| Selection.FirstMaxCountIsGreatest | SourceCode/Decide/decision_tree.py:9-10 | The key with the greatest count in the `Counter` occurs at least as often as any value. |
| Selection.MostCommonFirstSeen | SourceCode/Decide/decision_tree.py:9-10 | On a tie, `most_common(1)` returns the label seen first. The chosen label appears at or before any row whose label is as frequent. |
| Selection.BestFeatureForSplit | SourceCode/Decide/decision_tree.py:27-31 | The feature is in `[0, len(data[0]) - 1)`. Its gain is the maximum, and every earlier feature's gain is strictly smaller. |
| Dataset.Distinct | SourceCode/Decide/decision_tree.py:41 | `set(...)` as a list: the same members, no duplicates, no longer than the input. |
| Dataset.DistinctPrefix | SourceCode/Decide/decision_tree.py:41 | The values are listed in first-occurrence order: the distinct values of a prefix are a prefix of the distinct values. |
| Dataset.ClassLabelsMembers | SourceCode/Decide/decision_tree.py:9 | `[i[-1] for i in data]` holds exactly the last entries of the rows. |
| Dataset.ColumnMembers | SourceCode/Decide/decision_tree.py:41 | `[d[feature] for d in data]` holds exactly the rows' values of the feature. |
| Dataset.Partition | SourceCode/Decide/decision_tree.py:43 | A row is in `[d for d in data if d[feature] == c]` exactly when it is in the data and its feature value is `c`. The partition is no longer than the data. |
| Dataset.PartitionKeepsAll | SourceCode/Decide/decision_tree.py:43 | The partition is the whole data exactly when every row has value `c`. |
| Dataset.FullPartition | SourceCode/Decide/decision_tree.py:43 | A partition as long as the data is the data. |
| Dataset.PartitionsCover | SourceCode/Decide/decision_tree.py:41-44 | Over distinct values covering every row, the partitions together hold each row exactly as often as the data. |
| Dataset.CountIsLength | SourceCode/Decide/decision_tree.py:34-35 | A label's count is at most the number of rows. It equals it exactly when every label is that one. |
| Dataset.ColumnValuesPartition | SourceCode/Decide/decision_tree.py:41-44 | For the distinct values of a column: every row's value is one of them, each partition is non-empty, no row lies in two partitions, and together they hold every row. |
| Build.LeafIffPure | SourceCode/Decide/decision_tree.py:34-36 | `count == len(data)` exactly when all class labels are equal. The label is then the first row's label. |
| Build.PartitionShaped | SourceCode/Decide/decision_tree.py:43 | A partition on a value that occurs is non-empty and keeps the row shape. |
| Build.SplitShrinks | SourceCode/Decide/decision_tree.py:41-44 | When the feature takes two or more values, every partition is non-empty and strictly smaller than the data. This is the termination measure. |
| Build.PartitionMissesRow | SourceCode/Decide/decision_tree.py:43 | With two or more distinct values, each partition leaves out some row. |
| Build.Id3Tree | SourceCode/Decide/decision_tree.py:33-45 | `EmptyData` arises exactly for empty data. A tree is returned exactly when the data is buildable: non-empty, with a feature column or pure labels. Non-empty data that is neither raises `NoFeatures` (`max()` of no gains). Pure data gives `Leaf(label)`. A leaf holds the majority label and arises only from pure data or the stall guard. A node is named `label[feature]` for the best feature, and its keys are that feature's distinct values. |
| Build.SplitNode | SourceCode/Decide/decision_tree.py:37-44 | An impure, non-stalling partition becomes a node with one child per distinct value, in order. Each child is the tree of exactly the rows having that value, and each partition is strictly smaller. |
| Build.CreateTree | SourceCode/Decide/decision_tree.py:33-45 | The imperative builder returns exactly `Id3Tree`. |
| Build.BuildChildren | SourceCode/Decide/decision_tree.py:40-44 | The `for c in classes` loop fills in exactly the children of `Id3Tree`'s node, in order. |
| Build.ChildOfNode | SourceCode/Decide/decision_tree.py:43-44 | The `i`-th child is `(classes[i], tree of the i-th partition)`, and that partition is smaller and buildable. |
| Build.DecisiveLeafIffPure | SourceCode/Decide/decision_tree.py:34-36 | When the guard never fires, the builder returns a leaf exactly for pure data. |
| Build.NodePartitionsData | SourceCode/Decide/decision_tree.py:41-44 | A node's keys are distinct and cover every row. The partitions are non-empty and pairwise disjoint, and their union is the data. |
| Build.LeavesAreTrainingLabels | SourceCode/Decide/decision_tree.py:33-45 | Every leaf of the tree holds a class label that occurs in the data. |
| SourceRecursion.CreateTreeAsWritten | SourceCode/Decide/decision_tree.py:33-45 | `create_tree` without the guard, unfolded up to a depth. Pure data finishes as its label, and a leaf arises only from pure data. |
| SourceRecursion.ChildrenAsWritten | SourceCode/Decide/decision_tree.py:42-44 | The unguarded `for c in classes` loop: when every subtree finishes, the keys are exactly `classes`, in order. |
| SourceRecursion.StallKeepsAllRows | SourceCode/Decide/decision_tree.py:41-43 | On a stall, the only partition is the whole data. |
| SourceRecursion.StallDiverges | SourceCode/Decide/decision_tree.py:38-44 | On impure data whose chosen feature takes one value, the source recurses on the same data and never finishes, at any depth. |
| SourceRecursion.AsWrittenAgrees | SourceCode/Decide/decision_tree.py:33-45 | Whenever the source finishes, the guard never fires and the result equals `Id3Tree`. |
| SourceRecursion.DecisiveFinishes | SourceCode/Decide/decision_tree.py:33-45 | With no stall anywhere, the source finishes within `len(data) + 1` levels with `Id3Tree`'s tree. |
| SourceRecursion.FinishesIffDecisive | SourceCode/Decide/decision_tree.py:33-45 | The source finishes for some depth exactly when no partition reached stalls. |
| SourceRecursion.TieKeepsFirst | SourceCode/Decide/decision_tree.py:8-10 | Labels `False` and `True` once each: the majority label is `False`, the first seen, with count 1. |
| SourceRecursion.ConstantColumnStalls | SourceCode/Decide/decision_tree.py:38-41 | Rows `[0, False]` and `[0, True]` are impure, and the chosen column takes one value. |
| SourceRecursion.ConstantColumnDiverges | SourceCode/Decide/decision_tree.py:33-44 | On those two rows the source never finishes, while the guarded builder returns `Leaf(False)`. |
| Trees.IndexOf | SourceCode/Decide/decision_tree.py:50 | `label.index(root)`: no index exactly when the name is absent (`ValueError`), otherwise its first position. |
| Classification.FindKey | SourceCode/Decide/decision_tree.py:51-52 | The first child whose key equals the value; none exactly when no key equals it. |
| Classification.Classify | SourceCode/Decide/decision_tree.py:47-56 | Only a bare leaf raises `AttributeError`. `UnknownFeature` arises only when some node's name is missing from the labels. A label returned is a leaf of the tree. A tree whose names are all known, given a long enough example, always gives a result, possibly `None`. |
| Classification.IndexOfDistinct | SourceCode/Decide/decision_tree.py:50 | With distinct feature names, `label.index(label[k])` is `k`. |
| Classification.ClassifyNoMatch | SourceCode/Decide/decision_tree.py:50-56 | A node none of whose keys equals the example's value classifies it as `None`, the unclassifiable outcome. |
| Classification.ClassifyNoneIff | SourceCode/Decide/decision_tree.py:47-56 | `None` is returned exactly when the walk ends at a node with an empty dict or without a key equal to the example's value. A leaf reached gives its label instead. |
| Classification.UnmatchedExample | SourceCode/Decide/decision_tree.py:50-56 | With labels `[x, y]`, the node `{y: {0: False, 1: True}}` classifies the example `[1, 2]` as `None`. |
| Classification.ChildForRow | SourceCode/Decide/decision_tree.py:41-44 | A training row finds its own feature value among the keys, and the child under it is the tree of a partition that holds the row. |
| Classification.TrainingConsistency | SourceCode/Decide/decision_tree.py:33-56 | When the builder never stalls and names are distinct, classifying a training row's features returns the row's label (or the leaf error for pure data). |
| Classification.AsWrittenConsistency | SourceCode/Decide/decision_tree.py:33-56 | Whenever the source's own builder finishes, classifying a training row's features returns the row's label, or the leaf error when the data is pure. |
| Values.Show | SourceCode/Decide/decision_tree.py:65-69 | `str(v)`: a string is itself, a boolean is `True` or `False`, and an integer's text starts with `-` exactly when it is negative. |
| Values.NatText | SourceCode/Decide/decision_tree.py:65-69 | A natural number's text is non-empty decimal digits, with a leading `0` only for 0. |
| Values.NatTextValue | SourceCode/Decide/decision_tree.py:65-69 | Reading back the digits of a natural number's text gives the number. |
| Values.ShowIntValue | SourceCode/Decide/decision_tree.py:65-69 | An integer's text is a `-` for negatives followed by digits that read back as its absolute value. |
| Rules.Spaces | SourceCode/Decide/decision_tree.py:59 | `'  ' * ident` is `2 * ident` spaces. |
| Rules.RuleText | SourceCode/Decide/decision_tree.py:58-73 | Rendering succeeds exactly for a node whose feature names are all known. Otherwise the error is the leaf error or the unknown-name error. |
| Rules.ClausesFrom | SourceCode/Decide/decision_tree.py:64-69 | The clauses from child `i` on exist exactly when those children name known features, and the text starts with child `i`'s `if <name> = <value>`. |
| Rules.ClauseText | SourceCode/Decide/decision_tree.py:65-69 | One child's clause starts with `if <name> = <value>`, and fails exactly when the child's subtree names an unknown feature. |
| Rules.ClauseAppended | SourceCode/Decide/decision_tree.py:64-69 | One loop round moves a clause from the pending clauses to the end of `s`. |
| Rules.AsRuleStr | SourceCode/Decide/decision_tree.py:58-73 | The loop with `s +=`, the trim and the newline give exactly `RuleText`. |
| Rules.Clause | SourceCode/Decide/decision_tree.py:65-69 | One round's appended text is `ClauseText`. |
| Rules.TrimSeparator | SourceCode/Decide/decision_tree.py:70-71 | Exactly a trailing `, ` is cut. Text without one is left as it is. |
| Rules.TrimKeepsIndent | SourceCode/Decide/decision_tree.py:70-71 | Cutting a trailing `, ` never cuts into the leading indentation. |
| Rules.RuleLayout | SourceCode/Decide/decision_tree.py:59-72 | The text at depth `ident` starts with `2 * ident` spaces and ends with a newline. |
| Rules.TopLevelClauses | SourceCode/Decide/decision_tree.py:64-69 | At the top, the clauses of leaf children are one full-stopped line each, in key order. |
| Rules.NestedClauses | SourceCode/Decide/decision_tree.py:64-69 | Below the top, the clauses of leaf children are chained with `, `, in key order. |
| Rules.TopLevelRules | SourceCode/Decide/decision_tree.py:58-73 | A top-level node of leaves renders as one line per child and a final empty line. |
| Rules.LinesEndWithNewline | SourceCode/Decide/decision_tree.py:69 | The top-level clause lines are empty or end with a newline. |
| Rules.NestedRules | SourceCode/Decide/decision_tree.py:58-73 | A nested node of leaves renders as its indentation and one comma-separated line. The trailing `, ` is cut before the newline. |
| Rules.SpacesAdd | SourceCode/Decide/decision_tree.py:59-67 | Indentations concatenate by adding their levels. |
| Rules.DoubleIndent | SourceCode/Decide/decision_tree.py:67 | A node child's clause continues with `:`, a newline and `4 * ident + 2` spaces: the parent's indentation and the child's own. |
| Edges.SortInPlace | SourceCode/Decide/decision_tree.py:127-128 | `X.sort()`: the array is afterwards sorted and a permutation of its old contents. |
| Edges.Insert | SourceCode/Decide/decision_tree.py:127-128 | One insertion step extends the sorted prefix, leaves the entries after `i` unchanged and keeps the contents. |
| Edges.Diagonals | SourceCode/Decide/decision_tree.py:129-130 | `sorted(set(X) & set(Y))`: strictly increasing, holding exactly the values found in both lists. |
| Edges.DistinctWithin | SourceCode/Decide/decision_tree.py:129 | A list of distinct values drawn from another list is no longer than it. |
| Edges.DiagonalsBound | SourceCode/Decide/decision_tree.py:129-138 | There are no more diagonal points than entries in `X` or in `Y`, so `X[low]` and `X[len(X)-1-high]` are in bounds. |
| Edges.ClassifyAll | SourceCode/Decide/decision_tree.py:131 | One result per diagonal point, each that point's classification. On an error, it is the error of the first point whose classification raises: every earlier point classifies. The error is never the not-found one. |
| Edges.FalseEquality | SourceCode/Decide/decision_tree.py:132 | `x == False` holds for `False` and for 0, and not for `True`, 1, the string `"False"` or a missing classification. |
| Edges.FirstFalse | SourceCode/Decide/decision_tree.py:132 | `L.index(False)`: none exactly when nothing is false, otherwise the first false position. |
| Edges.FalseFromEnd | SourceCode/Decide/decision_tree.py:136 | `L[::-1].index(False)`: counted from the end, the position of the last false value. |
| Edges.EdgesAsWritten | SourceCode/Decide/decision_tree.py:126-140 | The source's corners index the sorted `X` and `Y`, and always land on entries of those lists. |
| Edges.EdgesCorrected | SourceCode/Decide/decision_tree.py:126-140 | `find_edges` with the positions applied to the diagonal: each corner has equal coordinates, and that value occurs in both `X` and `Y`. |
| Edges.Corners | SourceCode/Decide/decision_tree.py:132-138 | There are no corners exactly when no classification is false, and the error is then the not-found one. |
| Edges.CorrectedNoFalse | SourceCode/Decide/decision_tree.py:132 | The not-found error arises exactly when every diagonal point classifies without error and none as false. |
| Edges.CornersExtremes | SourceCode/Decide/decision_tree.py:132-138 | The corners are false diagonal points, the first no greater than the second. No false point lies below the first or above the second. |
| Edges.CorrectedCorners | SourceCode/Decide/decision_tree.py:126-140 | The corners are shared values of `X` and `Y` classified false, low ≤ high, with no false diagonal point outside them. |
| Edges.AsWrittenFailsAlike | SourceCode/Decide/decision_tree.py:131-132 | The source and the corrected scan fail on the same inputs with the same error. |
| Edges.FindEdges | SourceCode/Decide/decision_tree.py:126-140 | Both arrays end sorted and permuted, and the same array may be passed twice. The result is the corrected scan of the sorted contents. |
| Edges.CornerMissesBoundary | SourceCode/Decide/decision_tree.py:133-138 | On a two-leaf stump with `X = Y = [0, 0, 1]` the source returns low corner `(0, 0)`, which classifies as true. The corrected scan returns `(1, 1)`. |

## Left out

- `entropy` and the body of `feature_entropy` (lines 12-26) are floating-point `math.log` arithmetic. The gain is a parameter `gain(data, f): real`, and only the argmax around it is modelled.
- `data_points` (lines 75-82) draws random numbers and is not part of this model.
- The demos `five_points`, `demo` and `tennis` (lines 84-124, 142-160) and the `__main__` block (lines 162-190) only parse arguments, read a pickle file and print.
- Python's `set` iteration order is unspecified. The children and the distinct values are taken in first-occurrence order.
- Python's cross-type equality (`True == 1`, `False == 0`) is not modelled for dict keys, `Counter` keys or the `d[f] == c` comparisons: values of different kinds are different. Only `L.index(False)` in `find_edges` matches the integer `0` as well as `False` (`Edges.IsFalse`).
- `Values.Show` renders strings, integers and booleans as `str()` does. Floats are not modelled.
- Build.Id3Tree: stops with the majority label when the chosen feature takes fewer than two values, where the source recurses forever (see Findings). The same holds for `Build.CreateTree`, whose loop has the same guard. `SourceRecursion.CreateTreeAsWritten` models the source's unguarded recursion up to a given depth, with "does not finish within the depth" as its `None`.
- Build.Id3Tree: requires every row to have the same length, at least one entry, and the label list to name every feature column. The source also builds trees from ragged rows, raises `IndexError` at `i[-1]` on an empty row, and raises `IndexError` at `label[feature]` when the label list is too short. None of these cases is modelled. The same holds for `Build.CreateTree` and `SourceRecursion.CreateTreeAsWritten`.
- SourceRecursion.CreateTreeAsWritten: defined on buildable data only, and so are `SourceRecursion.FinishesIffDecisive` and the other lemmas about it. Empty data, and impure rows holding only the label, are excluded. On those the source raises at the top-level call before any recursion: `IndexError` at `most_common(1)[0]` for empty data (line 10), and `ValueError` from `max()` of an empty gain list (line 29). The model covers both as `Build.Id3Tree`'s `EmptyData` and `NoFeatures`.
- Selection.MostCommonFirstSeen: relies on `Counter` keeping insertion order, which Python guarantees from version 3.7 on.
- Edges.SortInPlace: an insertion sort rather than Timsort. Only the outcome (sorted, a permutation) is modelled, on integer coordinates only.
- Edges.FindEdges: returns the corrected corners. The source's own corners are `Edges.EdgesAsWritten`.
- Rules: the model prints the node's feature name where the source prints `label[label.index(root)]`, which is the same string.

## Findings

| source | as written | input that shows it | evidently intended | confidence | as-written member | corrected member |
|---|---|---|---|---|---|---|
| SourceCode/Decide/decision_tree.py:38-44 | `create_tree` recurses on each partition even when the chosen feature takes a single value, so that partition is the data itself | rows `[0, False]`, `[0, True]` with the single feature `x` | a builder that terminates, stopping with the majority label when the split separates nothing | high, not executed | SourceRecursion.StallDiverges, SourceRecursion.ConstantColumnDiverges | Build.Id3Tree, Build.SplitShrinks |
| SourceCode/Decide/decision_tree.py:133-138 | the positions `low` and `len(X)-1-high` in the diagonal list index the sorted `X` and `Y`, whose entries are not the diagonal points | tree `{x: {0: True, 1: False}}`, labels `[x, y]`, `X = Y = [0, 0, 1]`: the low corner is `(0, 0)`, which classifies as `True` | the corners are the first and last diagonal points classified as `False`: `(1, 1)` and `(1, 1)` | medium, not executed | Edges.EdgesAsWritten, Edges.CornerMissesBoundary | Edges.EdgesCorrected, Edges.CorrectedCorners |
