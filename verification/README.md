# Data-mining algorithms, modelled in Dafny

This project models the algorithm core of a desktop data-mining workbench. The workbench has five engines, and each turns a table of records into an analysis:

- **Rough sets.** Indiscernibility classes of a decision table, the lower and upper approximations of a set of objects X, the positive region, the dependency degree, and the boundary and outside regions. There are two versions: the free functions of the algorithm package and the class-based `RoughSetModel`.
- **Discernibility matrix.** For every pair of objects with different decisions, the initials of the criteria that tell them apart. The matrix is then simplified into one conjunction of single criteria and of disjunctive clauses.
- **ID3.** Entropy and the Gini index, the information gain of a split, the choice of the best split, and the recursive growth of the decision tree.
- **Apriori.** Grouping purchase rows into transactions, one-hot encoding, frequent itemsets at a support threshold, maximal itemsets, and association rules at a confidence threshold. The screen's controller is modelled as well: it parses the two threshold fields and chains the steps.
- **Naive Bayes.** Categorical priors and conditional frequency tables, with or without Laplace smoothing, and prediction of the best-scoring class. There are two versions: the algorithm package's classifier and the application's model class, which adds a trained flag and a reset.
- **K-Means.** Lloyd's algorithm from drawn initial centroids. The application's model adds the stored run, the text report of the clusters, and the inputs of the scatter plot.

Every operation is a pure function over immutable values. Loops over rows, columns and keys are written as recursive functions with contracts. The discernibility matrix is built by methods with loop invariants. A Python exception becomes an `Err` of the `Results.Error` taxonomy. The error paths of the modelled operations are part of the model; "## Left out" names the ones that are not. The shared modules are:

- `Results`: errors, `Result` and `Option`.
- `Counting`: counts, distinct values in order of first appearance, sums.
- `Text`: string order, sorting, joining, splitting, stripping.
- `Tables`: a table is a list of distinct column names and rows mapping every column to a string value.
- `Frequencies`: relative frequencies.

Some behaviours of the code are surprising, and the model keeps them as written. A lemma makes each one explicit:

- A Naive Bayes refit on labels that leave out an earlier class keeps that class's prior, but its tables lose the class. Prediction then fails (`NaiveBayes.StaleClassBreaksPredict`).
- `NaiveBayesModel.reset` leaves the trained flag set. Prediction after a reset fails on a `max` over no classes (`NaiveBayesModel.ResetThenPredict`).
- A K-Means run with an iteration budget below one stores the initial centroids before it fails. The previous run's clusters and labels are kept (`KMeansModel.ZeroBudgetMixesRuns`).
- Loading fewer points after a run breaks the report (`KMeansModel.ReloadSmallerBreaksDisplay`). Points with fewer than two coordinates cluster but cannot be reported (`KMeansModel.NarrowDataCannotDisplay`).
- After a mining step that finds nothing, the Apriori controller still shows its old table. The maximal step fails anyway, because it filters the engine's table, which is now empty (`AprioriController.EmptyMiningStrandsMaximal`).
- The controller's `generate_rules` never assigns the controller's own `rules` field. Only the engine keeps the rules (`AprioriController.GenerateRules`).
- The threshold fields accept ".5" and "1." and reject "." (`AprioriController.HalfWithoutWholePart`, `AprioriController.OneWithTrailingPoint`, `AprioriController.RejectedNonNumbers`).

The model also keeps these behaviours of the code:

- ID3 on an empty table with at least one non-target column does not fail. It grows a node with no children. It fails only when the target column is the only column.
- Grouping by an empty attribute list is an error in every rough-set operation.
- The rough-set law "X lies inside the upper approximation" holds for the members of X that are identifiers of the table.
- Naive Bayes uses the fallback probability only for a value missing from an existing table. A feature without a table is a lookup error.
- The application's Naive Bayes reset does not clear the trained flag.

## Model

| member | source | states |
|---|---|---|
| RoughSets.GroupBy | app/algorithms/rough_sets.py:6 | grouping fails on an unknown attribute and on an empty attribute list; otherwise it is a partition of the rows into blocks of equal attribute values |
| RoughSets.PartitionUnique | app/algorithms/rough_sets.py:6 | any partition into blocks of equal keys is the set of indiscernibility classes, so the grouping is determined by the table |
| RoughSets.GroupsPartition | app/algorithms/rough_sets.py:6 | the indiscernibility classes are non-empty, cover every row, and hold exactly the rows sharing a key |
| RoughSets.BlockIsClass | app/algorithms/rough_sets.py:6 | a block of such a partition is the class of any of its rows |
| RoughSets.EquivalenceClasses | app/algorithms/rough_sets.py:3-10 | fails on an unknown attribute, an empty attribute list, or a missing ID column with rows present; otherwise a set is in the result exactly when it is the identifier set of the indiscernibility class of some row (none for an empty table) |
| RoughSets.ClassIdSetsAre | app/algorithms/rough_sets.py:6-9 | a set is reported exactly when it is the identifier set of the class of some row |
| RoughSets.ClassIdSetsCover | app/algorithms/rough_sets.py:8-9 | rows with equal keys have their identifiers in one reported class |
| RoughSets.ClassIdSetsNonEmpty | app/algorithms/rough_sets.py:8-9 | every reported class is a non-empty set of identifiers of the table |
| RoughSets.LowerApproximation | app/algorithms/rough_sets.py:12-20 | fails without an ID column or with bad attributes; otherwise holds exactly the rows whose whole class has identifiers in X |
| RoughSets.LowerRowsAre | app/algorithms/rough_sets.py:17-19 | a row is collected exactly when its class lies inside X |
| RoughSets.UpperApproximation | app/algorithms/rough_sets.py:22-30 | fails without an ID column or with bad attributes; otherwise holds exactly the rows whose class meets X |
| RoughSets.UpperRowsAre | app/algorithms/rough_sets.py:27-29 | a row is collected exactly when some row of its class has an identifier in X |
| RoughSets.UpperRowsSound | app/algorithms/rough_sets.py:27-29 | every collected row is possibly in X |
| RoughSets.UpperRowsComplete | app/algorithms/rough_sets.py:27-29 | every row possibly in X is collected |
| RoughSets.PositiveRegion | app/algorithms/rough_sets.py:32-40 | fails on a missing decision column or bad attributes; otherwise holds exactly the rows whose class determines the decision |
| RoughSets.PositiveRowsAre | app/algorithms/rough_sets.py:37-39 | a row is collected exactly when every row of its class has its decision value |
| RoughSets.BlockConsistent | app/algorithms/rough_sets.py:38 | a class has one distinct decision value exactly when the condition attributes determine the decision there |
| RoughSets.DependencyDegree | app/algorithms/rough_sets.py:42-48 | fails on an empty table; otherwise a share in [0, 1] that is one exactly when the condition attributes determine the decision on every row |
| RoughSets.Share | app/algorithms/rough_sets.py:47 | a count out of a positive total lies in [0, 1] and is one only when it is the total |
| RoughSets.SetOf | app/algorithms/rough_sets.py:51 | `set` of a DataFrame is the set of its column labels |
| RoughSets.BoundaryRegion | app/algorithms/rough_sets.py:50-51 | the members of the upper collection that are not in the lower one |
| RoughSets.OutsideRegion | app/algorithms/rough_sets.py:53-57 | fails without an ID column; otherwise the identifiers not in the upper collection |
| RoughSets.CalculateRoughSetProperties | app/algorithms/rough_sets.py:60-80 | refuses a non-list X, unknown attributes and a missing decision column in that order, then passes on the lower approximation's failure; on success the lower and upper results are the identifiers of the lower and upper approximations of X, gamma is the dependency degree, and the boundary is always empty, because the regions are handed DataFrames |
| RoughSetModel.New | app/models/rough_set_model.py:5-11 | a table without an ID column is refused; otherwise the model holds the table |
| RoughSetModel.EquivalenceClasses | app/models/rough_set_model.py:13-23 | fails on unknown attributes or an empty attribute list; otherwise a set is reported exactly when it is the identifier set of the class of some row |
| RoughSetModel.BLowerApproximation | app/models/rough_set_model.py:26-35 | holds exactly the rows whose whole class lies in X |
| RoughSetModel.BUpperApproximation | app/models/rough_set_model.py:37-46 | holds exactly the rows whose class meets X |
| RoughSetModel.PositiveRegion | app/models/rough_set_model.py:48-59 | fails on a missing decision column; otherwise holds exactly the rows whose class determines the decision |
| RoughSetModel.DependencyDegree | app/models/rough_set_model.py:61-70 | fails on an empty table; otherwise in [0, 1], and one exactly when the decision is determined everywhere |
| RoughSetModel.BoundaryRegion | app/models/rough_set_model.py:72-76 | disjoint from the lower set, inside the upper set, and together with their common part it makes up the upper set |
| RoughSetModel.OutsideRegion | app/models/rough_set_model.py:78-83 | disjoint from the upper set, and with the identifiers in the upper set it makes up all identifiers |
| RoughSetModel.IdsOfLower | app/models/rough_set_model.py:104-108 | the lower identifiers are exactly those of rows whose class lies in X, and they lie in X |
| RoughSetModel.IdsOfUpper | app/models/rough_set_model.py:104-109 | the upper identifiers are exactly those of rows whose class meets X |
| RoughSetModel.IdsOfUpperContains | app/models/rough_set_model.py:104-109 | every identifier of the table that is in X is an upper identifier |
| RoughSetModel.IdsOfUpperWithin | app/models/rough_set_model.py:104-109 | the upper identifiers are identifiers of the table |
| RoughSetModel.LawsFromApproximations | app/models/rough_set_model.py:104-105 | lower inside X inside upper makes lower, boundary and outside three disjoint regions covering every identifier |
| RoughSetModel.CalculateProperties | app/models/rough_set_model.py:85-113 | the checks in source order; on success the lower and upper sets are the certain and possible identifiers, gamma is the model's dependency degree, and the five results obey the rough-set laws with gamma in [0, 1] |
| RoughSetModel.FreeAgreesWithModel | app/models/rough_set_model.py:85-113 | on a table with an ID column, the class and the free functions fail with the same error or both succeed, and then report the same lower set, upper set and gamma |
| RoughSetModel.AsWrittenBoundaryOnStraddle | app/algorithms/rough_sets.py:71-72 | on a table whose two objects share a condition value but not a decision, the free function reports an empty boundary |
| RoughSetModel.CorrectedBoundaryOnStraddle | app/models/rough_set_model.py:104-105 | on the same table, the model puts the object of X in the boundary |
| Discernibility.Differences | app/models/discernibility_model.py:20-24 | fails on an unknown criterion or an empty name that differs; otherwise empty exactly when the rows agree on every criterion |
| Discernibility.DifferingIdxMembers | app/models/discernibility_model.py:23-24 | a criterion position is listed exactly when the two rows differ on that criterion |
| Discernibility.DifferencesInOrder | app/models/discernibility_model.py:20-24 | the result has one entry per differing criterion, in criteria order, and each entry is the lower-cased first letter of that criterion |
| Discernibility.DifferencesSymmetric | app/models/discernibility_model.py:20-24 | pair (i, j) and pair (j, i) differ on the same criteria |
| Discernibility.InitialNotMark | app/models/discernibility_model.py:21 | no initial is the "Ø" mark |
| Discernibility.JoinInitialsNotEmpty | app/models/discernibility_model.py:25-28 | a non-empty list of initials joins to a cell other than "Ø" |
| Discernibility.PairCell | app/models/discernibility_model.py:16-28 | fails on a missing target column; the cell is "Ø" exactly when the decisions agree or no criterion differs |
| Discernibility.CellSplits | app/models/discernibility_model.py:25-28 | splitting a non-"Ø" cell on commas gives back the differing initials |
| Discernibility.GenerateMatrix | app/models/discernibility_model.py:9-30 | fails exactly when some pair's cell fails; otherwise an n-by-n symmetric matrix with "Ø" on the diagonal and each pair's cell off it |
| Discernibility.CellsAre | app/models/discernibility_model.py:38-40 | the row-major walk visits every cell of the matrix and nothing else |
| Discernibility.SinglesOfAre | app/models/discernibility_model.py:38-45 | an element is collected in the first pass exactly when some stripped cell is that single element |
| Discernibility.OrTermsOfAre | app/models/discernibility_model.py:48-55 | a clause is collected in the second pass exactly when it comes from a non-"Ø" cell none of whose elements was collected |
| Discernibility.CollectSingles | app/models/discernibility_model.py:37-45 | the first pass's terms are exactly the distinct single-element cells |
| Discernibility.CollectClauses | app/models/discernibility_model.py:47-55 | the second pass adds exactly the clauses of the unabsorbed cells |
| Discernibility.Optimize | app/models/discernibility_model.py:32-58 | the expression is the sorted, repeat-free conjunction of the single terms and the unabsorbed clauses |
| Discernibility.EveryCellCovered | app/models/discernibility_model.py:32-58 | every non-"Ø" cell is implied by the expression: it is a single term, contains one, or its clause is a conjunct |
| Discernibility.ConjunctsFromCells | app/models/discernibility_model.py:32-58 | every conjunct comes from a non-"Ø" cell of the matrix |
| Id3.GiniRange | app/models/id3_model.py:23-32 | the Gini index of an empty column is one; of a non-empty column it lies in [0, 1) and is zero exactly when the column holds one value |
| Id3.EntropyNonNegative | app/models/id3_model.py:12-21 | with a logarithm non-positive on (0, 1], entropy is never negative |
| Id3.EntropyZero | app/models/id3_model.py:12-21 | the entropy of a non-empty column is zero exactly when the column holds one value |
| Id3.MetricNonNegative | app/models/id3_model.py:12-32 | either impurity of a non-empty column is non-negative |
| Id3.PureImpurity | app/models/id3_model.py:12-32 | a column with one value has no impurity under either method |
| Id3.InformationGain | app/models/id3_model.py:34-62 | fails on a missing feature or target column; otherwise the parent impurity minus the subset impurities weighted by the subset shares |
| Id3.ShareIs | app/models/id3_model.py:52-53 | a subset's weight is the relative frequency of its value, in (0, 1] |
| Id3.SharesSumToOne | app/models/id3_model.py:51-53 | the subset weights of a split add up to one |
| Id3.SharesAreProbabilities | app/models/id3_model.py:51-53 | the subset weights are the feature's value distribution |
| Id3.WeightedNonNegative | app/models/id3_model.py:50-53 | the weighted impurity is never negative |
| Id3.GainAtMostParent | app/models/id3_model.py:34-62 | a split never gains more than the parent impurity |
| Id3.ConstantFeatureGain | app/models/id3_model.py:34-62 | a feature with one value over all rows gains nothing |
| Id3.PureSplitGain | app/models/id3_model.py:34-62 | a feature that determines the target gains the whole parent impurity |
| Id3.PureSubset | app/models/id3_model.py:52-53 | the subset of a determining feature's value has no impurity |
| Id3.BestSplit | app/models/id3_model.py:64-76 | fails with no feature or a missing target; otherwise a non-target column with the greatest gain, and the first such in column order |
| Id3.FirstBest | app/models/id3_model.py:74-76 | the first maximum of the gains is a non-target column no other feature beats, and every earlier feature gains strictly less |
| Id3.Mode | app/models/id3_model.py:95 | a most frequent value, the least in string order among equally frequent ones |
| Id3.SortedMode | app/models/id3_model.py:95 | the first most frequent of the sorted distinct values is the mode |
| Id3.ModeUnique | app/models/id3_model.py:95 | there is only one such value |
| Id3.BuildTree | app/models/id3_model.py:78-106 | fails exactly on a missing target or an empty table of the target alone; each node tests the best split, has a child for each value of its feature and nothing else, and each child is the tree of the matching rows without that feature; tests use only features, never twice on a path |
| Id3.PureLeaf | app/models/id3_model.py:90-91 | rows sharing one target value give a leaf with that value |
| Id3.ModeLeaf | app/models/id3_model.py:94-95 | with only the target column left, the tree is a leaf holding the target's mode |
| Id3.GrownNode | app/models/id3_model.py:98-106 | past both leaf cases the tree is a node on a non-target column, with a child for each value of it |
| Id3.BuildChildren | app/models/id3_model.py:101-104 | one subtree per value, each the tree of the matching rows without the feature |
| Id3.ChildFeatures | app/models/id3_model.py:103 | a child's features are the parent's minus the split feature |
| Id3.ChildConsistent | app/models/id3_model.py:103 | if the features determine the target, they still do in every child |
| Id3.BuildTreeAndStore | app/models/id3_model.py:108-117 | succeeds exactly when growing the tree does, and keeps the tree it returns |
| Id3.BuildTreeDepth | app/models/id3_model.py:78-106 | no path tests more attributes than there are non-target columns |
| Id3.ClassifyIgnores | app/models/id3_model.py:98-106 | rows agreeing on every attribute the tree may test are classified alike |
| Id3.FitsConsistentData | app/models/id3_model.py:78-106 | when the features determine the target, the tree classifies every training row as its own target value |
| Id3.AgreeingRowClassified | app/models/id3_model.py:78-106 | a row agreeing with a training row on every feature gets that row's target value |
| Apriori.SetParams | app/models/apriori_model.py:14-21 | accepts exactly a support in (0, 1] and a confidence in (0, 1] or unset; stores both and changes nothing else |
| Apriori.SetParamsIdempotent | app/models/apriori_model.py:14-21 | setting the thresholds a model holds succeeds and changes nothing |
| Apriori.IdKeys | app/models/apriori_model.py:31 | the group keys are the distinct IDs in ascending order |
| Apriori.PrepareTransactions | app/models/apriori_model.py:24-31 | fails without the ID or items column; otherwise stores one item list per distinct ID |
| Apriori.GroupingKeepsEveryRow | app/models/apriori_model.py:31 | there is one transaction per distinct ID, and together they hold one item per row |
| Apriori.GroupMembers | app/models/apriori_model.py:31 | an item is in an ID's transaction exactly when some row with that ID lists it |
| Apriori.AllItems | app/models/apriori_model.py:41-42 | the encoder's items are exactly those bought in some transaction |
| Apriori.Encode | app/models/apriori_model.py:41 | cell (i, j) holds exactly when transaction i bought item j |
| Apriori.IdLabels | app/models/apriori_model.py:43 | the labels are "o1", "o2", ..., one per transaction |
| Apriori.IdLabelsDistinct | app/models/apriori_model.py:43 | the ID labels are distinct |
| Apriori.GenerateBinaryMatrix | app/models/apriori_model.py:33-44 | fails with no transactions or with an item named "ID"; otherwise one encoded row per transaction, the items sorted as columns, and the labels in front |
| Apriori.MatrixColumnsDistinct | app/models/apriori_model.py:42-43 | the matrix has distinct column names, "ID" first |
| Apriori.EncodeDecode | app/models/apriori_model.py:41-42 | every transaction's item set can be read back from its row |
| Apriori.Support | app/models/apriori_model.py:60 | the fraction of rows containing an itemset lies in [0, 1] |
| Apriori.Mine | app/models/apriori_model.py:60 | the table holds exactly the non-empty itemsets over the columns whose support reaches the threshold, each with its support |
| Apriori.DownwardClosed | app/models/apriori_model.py:60 | every non-empty subset of a frequent itemset is frequent, with at least its support |
| Apriori.MatrixSupport | app/models/apriori_model.py:41-60 | on the encoded matrix the support of an itemset is the share of transactions containing it |
| Apriori.FindFrequentItemsets | app/models/apriori_model.py:46-63 | fails exactly when no support threshold is set; otherwise mines the matrix and stores the table and its size |
| Apriori.MiningIgnoresIds | app/models/apriori_model.py:56-57 | the ID column plays no part in mining: dropping it leaves the result unchanged, and no mined itemset holds an item called "ID" |
| Apriori.Maximal | app/models/apriori_model.py:76-82 | keeps exactly the itemsets that no other itemset of the table strictly contains, with their supports |
| Apriori.FindMaximalFrequentItemsets | app/models/apriori_model.py:65-83 | fails exactly when there is no table or it is empty; otherwise its maximal itemsets |
| Apriori.MaximalCover | app/models/apriori_model.py:76-82 | every itemset of a table lies within a maximal one |
| Apriori.MaximalNonEmpty | app/models/apriori_model.py:72-82 | a non-empty table has a maximal itemset |
| Apriori.MaximalGenerates | app/models/apriori_model.py:65-83 | the frequent itemsets are exactly the non-empty subsets of the maximal ones |
| Apriori.AssociationRules | app/models/apriori_model.py:101-103 | fails exactly when a subset support is missing; otherwise every rule splits a table itemset into two non-empty disjoint parts and reaches the threshold, and every such split is a rule |
| Apriori.GenerateRules | app/models/apriori_model.py:85-125 | fails on an empty table; fails when `num_itemsets` was never assigned by a mining step; with no confidence threshold fails exactly when some itemset has two or more items, and otherwise yields no rules; with a threshold fails exactly when a subset support is missing, and otherwise stores and returns the library's rules at that threshold |
| Apriori.UnminedRulesFail | app/models/apriori_model.py:7-12 | an engine with both thresholds set but never mined cannot generate rules, whatever table it is given |
| Apriori.SinglesNeedNoThreshold | app/models/apriori_model.py:101-103 | after mining, a table of single items yields no rules even with no confidence threshold |
| Apriori.MinedTableComplete | app/models/apriori_model.py:101-103 | a mined table holds the support of every subset its rules need |
| Apriori.MinedConfidence | app/models/apriori_model.py:101-103 | over a mined table every rule's confidence is at most one |
| AprioriController.DecimalValue | app/controllers/apriori_controller.py:80 | the value of a numeral of digits and at most one point is non-negative |
| AprioriController.ParseThreshold | app/controllers/apriori_controller.py:75-80 | accepts exactly a numeral with at least one digit and at most one point whose value lies in (0, 1], and returns that value |
| AprioriController.ParseDecimal | app/controllers/apriori_controller.py:75-80 | a numeral built from whole and fractional digits parses to whole + fraction / 10^digits when that lies in (0, 1] |
| AprioriController.TwoPointsRejected | app/controllers/apriori_controller.py:75 | a second point makes the field invalid |
| AprioriController.ForeignCharacterRejected | app/controllers/apriori_controller.py:75 | any character other than a digit or a point makes the field invalid |
| AprioriController.HalfWithoutWholePart | app/controllers/apriori_controller.py:75 | ".5" is accepted as one half |
| AprioriController.OneWithTrailingPoint | app/controllers/apriori_controller.py:167 | "1." is accepted as one |
| AprioriController.RejectedNonNumbers | app/controllers/apriori_controller.py:75 | "." and the empty field are refused |
| AprioriController.RejectedOutOfRange | app/controllers/apriori_controller.py:75 | "0" and "1.5" are refused |
| AprioriController.LoadData | app/controllers/apriori_controller.py:30-62 | keeps the data; succeeds exactly when preparing and encoding succeed, and then holds the transactions and their matrix; results are untouched |
| AprioriController.FindFrequentItemsets | app/controllers/apriori_controller.py:64-114 | refuses without data, then on an invalid field; otherwise mines with the new support and the old confidence, and shows the table only when it is non-empty |
| AprioriController.FindMaximalItemsets | app/controllers/apriori_controller.py:117-153 | refuses without a frequent table; on success stores the maximal itemsets of the engine's table, each of which is in the controller's table; nothing else changes |
| AprioriController.GenerateRules | app/controllers/apriori_controller.py:157-207 | refuses without a frequent table, then on an invalid field; keeps the support threshold; on success the engine holds the rules of the controller's table at the new confidence; only the engine changes |
| AprioriController.Reset | app/controllers/apriori_controller.py:221-231 | forgets the data and every result, and leaves the engine as it was |
| AprioriController.ResetRefusesSteps | app/controllers/apriori_controller.py:221-231 | after a reset every step asks for the one before it |
| AprioriController.MiningSynchronises | app/controllers/apriori_controller.py:87-101 | a successful mining step leaves the controller and the engine holding the same non-empty table |
| AprioriController.MaximalThenCovers | app/controllers/apriori_controller.py:117-141 | when controller and engine agree on a non-empty table, the maximal step succeeds with its maximal itemsets |
| AprioriController.MiningThenMaximal | app/controllers/apriori_controller.py:117-141 | a successful mining step is followed by a successful maximal step whose itemsets cover the whole table |
| AprioriController.EmptyMiningStrandsMaximal | app/controllers/apriori_controller.py:87-126 | after a mining step that finds nothing, the old table is still shown but the maximal step fails |
| AprioriController.MiningThenRules | app/controllers/apriori_controller.py:157-187 | rules generated right after a mining step succeed, and each has a confidence between the threshold and one |
| NaiveBayes.NewClassifier | app/algorithms/naive_bayes.py:6-10 | a new classifier has no classes, priors, tables or vocabulary |
| NaiveBayes.Subset | app/algorithms/naive_bayes.py:28 | the feature values of the samples of one class: as many as the class has samples, and exactly those values |
| NaiveBayes.Relative | app/algorithms/naive_bayes.py:40 | every key maps to its count over the total |
| NaiveBayes.Smoothed | app/algorithms/naive_bayes.py:37 | every key maps to its count plus one, over the total plus the number of keys |
| NaiveBayes.CondTable | app/algorithms/naive_bayes.py:33-40 | one class's table covers exactly the vocabulary with probabilities, positive under smoothing |
| NaiveBayes.CondTableEntry | app/algorithms/naive_bayes.py:35-40 | each entry is the value's count among the class's samples, smoothed or not |
| NaiveBayes.ClassTables | app/algorithms/naive_bayes.py:26-40 | one table per class; the vocabulary only grows; each table covers the vocabulary seen so far and every value of its class |
| NaiveBayes.ClassTableIs | app/algorithms/naive_bayes.py:26-40 | each class's table is its conditional table over the vocabulary after that class |
| NaiveBayes.ClassTablesVocab | app/algorithms/naive_bayes.py:29-30 | the final vocabulary is the earlier one plus the values of the processed classes |
| NaiveBayes.PriorsOf | app/algorithms/naive_bayes.py:19-21 | every class of the labels gets a prior in (0, 1], and nothing else does |
| NaiveBayes.AppendNew | app/algorithms/naive_bayes.py:20-21 | new classes go to the end of the class order, without repeats, and old ones keep their places |
| NaiveBayes.Fit | app/algorithms/naive_bayes.py:12-40 | for aligned features and labels, keeps the smoothing option, gives every label class its share of the labels as prior, and gives every feature a table for exactly the label classes |
| NaiveBayes.FittedValid | app/algorithms/naive_bayes.py:12-40 | a fit keeps the classifier invariant: distinct classes matching the priors, priors in (0, 1], and table entries that are probabilities |
| NaiveBayes.FittedColumnPass | app/algorithms/naive_bayes.py:24-40 | a fitted column's tables and vocabulary are those of its class pass |
| NaiveBayes.FitPriors | app/algorithms/naive_bayes.py:19-21 | each class of the labels gets its relative frequency; earlier classes not in the labels keep their priors and places |
| NaiveBayes.PriorsSumToOne | app/algorithms/naive_bayes.py:19-21 | the priors of one fit add up to one |
| NaiveBayes.FitVocabulary | app/algorithms/naive_bayes.py:29-30 | a column's vocabulary is the earlier one plus every value of the column |
| NaiveBayes.FitTableKeys | app/algorithms/naive_bayes.py:33-40 | each fitted table covers every value seen before and every value of its class |
| NaiveBayes.FitTableIs | app/algorithms/naive_bayes.py:26-40 | each fitted table is the conditional table of the class's samples |
| NaiveBayes.TablesSumToOne | app/algorithms/naive_bayes.py:33-40 | every fitted conditional table adds up to one, with or without smoothing |
| NaiveBayes.Fallback | app/algorithms/naive_bayes.py:53 | the probability for an unseen value lies in (0, 1] |
| NaiveBayes.Likelihood | app/algorithms/naive_bayes.py:50-53 | the probability used for a value is a probability, positive under smoothing |
| NaiveBayes.Score | app/algorithms/naive_bayes.py:47-53 | a class's score is a probability, positive under smoothing |
| NaiveBayes.Scores | app/algorithms/naive_bayes.py:46-53 | one score per class, in class order |
| NaiveBayes.Predict | app/algorithms/naive_bayes.py:42-55 | fails on a missing table, then on no classes; otherwise a known class with the greatest score, the first such in class order |
| NaiveBayes.SmoothedScoresPositive | app/algorithms/naive_bayes.py:47-53 | under smoothing every class that can be scored has a positive score |
| NaiveBayes.SingleClassPredicts | app/algorithms/naive_bayes.py:46-55 | with a single class, prediction returns it for every sample |
| NaiveBayes.FreshSingleClass | app/algorithms/naive_bayes.py:12-55 | a fresh classifier fitted on one class predicts it for every sample over the fitted columns |
| NaiveBayes.StaleClassBreaksPredict | app/algorithms/naive_bayes.py:24-50 | a refit that leaves out an earlier class makes prediction fail on any sample naming a refitted column |
| NaiveBayesModel.NewModel | app/models/naive_bayes_model.py:7-15 | a new model has empty tables and is not trained |
| NaiveBayesModel.Fit | app/models/naive_bayes_model.py:17-58 | refuses empty data, then mismatched lengths; otherwise builds the classifier's tables and marks the model trained |
| NaiveBayesModel.Predict | app/models/naive_bayes_model.py:60-84 | refuses before training; afterwards it is the classifier's prediction |
| NaiveBayesModel.Reset | app/models/naive_bayes_model.py:88-94 | clears the tables but keeps the smoothing option and the trained flag |
| NaiveBayesModel.PredictNeedsFit | app/models/naive_bayes_model.py:70-71 | a new model refuses to predict |
| NaiveBayesModel.ResetThenPredict | app/models/naive_bayes_model.py:70-94 | after a reset of a trained model prediction fails on an empty maximum |
| NaiveBayesModel.ResetIdempotent | app/models/naive_bayes_model.py:88-94 | resetting twice is resetting once |
| NaiveBayesModel.ResetThenFit | app/models/naive_bayes_model.py:88-94 | fitting after a reset behaves as fitting a new model |
| NaiveBayesModel.FreshFitPredicts | app/models/naive_bayes_model.py:17-84 | a new model fitted on non-empty aligned data predicts every sample over its columns |
| KMeans.SqDist | app/algorithms/kmeans.py:56 | a squared distance is never negative |
| KMeans.SqDistSelf | app/algorithms/kmeans.py:56 | a point is at distance zero from itself |
| KMeans.FirstMin | app/algorithms/kmeans.py:57 | the position of a least value, and the first such |
| KMeans.Nearest | app/algorithms/kmeans.py:55-58 | a centroid no other is nearer to, and the first such |
| KMeans.AssignUpToMember | app/algorithms/kmeans.py:54-58 | a point is in a cluster exactly when it was visited and that centroid is its nearest |
| KMeans.AssignUpToIncreasing | app/algorithms/kmeans.py:55-58 | each cluster lists its points in increasing order |
| KMeans.Assign | app/algorithms/kmeans.py:54-58 | one cluster per centroid, holding positions of the data |
| KMeans.AssignPartitions | app/algorithms/kmeans.py:54-58 | the clusters partition the points; a point is in the cluster of its nearest centroid and in no other; clusters are in increasing order |
| KMeans.Mean | app/algorithms/kmeans.py:66 | the mean has the data's width |
| KMeans.MeanBalances | app/algorithms/kmeans.py:66 | the deviations of a cluster from its mean sum to zero in every coordinate |
| KMeans.MeanOfCopies | app/algorithms/kmeans.py:66 | the mean of copies of one point is that point |
| KMeans.Update | app/algorithms/kmeans.py:64-68 | an empty cluster keeps its centroid; any other cluster moves to its mean, which balances its deviations |
| KMeans.Shift | app/algorithms/kmeans.py:71 | the squared movement of the centroids is never negative |
| KMeans.ShiftSelf | app/algorithms/kmeans.py:71 | centroids that do not move have shift zero |
| KMeans.Lloyd | app/algorithms/kmeans.py:52-73 | the loop stops at the first round whose shift is within the tolerance, or at the budget; its centroids are the iterate of the update after that many rounds, and its clusters the assignment to the centroids one round earlier |
| KMeans.StopsAtUnique | app/algorithms/kmeans.py:52-73 | at most one round is where the loop stops |
| KMeans.FixedPointStops | app/algorithms/kmeans.py:52-73 | centroids that the update leaves in place stop the loop after one round |
| KMeans.NegativeToleranceRunsOut | app/algorithms/kmeans.py:71-73 | a negative tolerance never converges, so the whole budget is used |
| KMeans.Place | app/algorithms/kmeans.py:78-79 | the listed positions get the cluster number; the others keep their label |
| KMeans.Labels | app/algorithms/kmeans.py:76-79 | one label per point |
| KMeans.LabelsLast | app/algorithms/kmeans.py:76-79 | a listed point gets the last cluster that lists it; an unlisted one keeps zero |
| KMeans.LabelsAgree | app/algorithms/kmeans.py:76-79 | on a partition a point's label is c exactly when cluster c holds it |
| KMeans.Initial | app/algorithms/kmeans.py:50 | the initial centroids are the data points at the drawn positions |
| KMeans.KMeans | app/algorithms/kmeans.py:36-83 | fails exactly on k outside [1, n] or a budget below one; otherwise k centroids of the data's width, k clusters partitioning the points, labels naming each point's cluster, and the centroids and clusters of the round where the loop from the drawn points stops |
| KMeans.Finish | app/algorithms/kmeans.py:75-83 | the returned triple is well clustered |
| KMeans.KMeansIsLloyd | app/algorithms/kmeans.py:36-83 | any well-formed clustering whose centroids and clusters are those of the stopping round of the loop from the drawn points is the one `kmeans` returns |
| KMeans.RunsAgree | app/algorithms/kmeans.py:52-79 | two such clusterings from the same starting centroids are equal |
| KMeans.LabelsDetermined | app/algorithms/kmeans.py:76-79 | labels that name each point's cluster in a partition are determined by the clusters |
| KMeans.LabelsInRange | app/algorithms/kmeans.py:76-79 | every label names one of the k clusters |
| KMeansModel.NewState | app/models/kmeans_model.py:5-9 | nothing is loaded or computed |
| KMeansModel.LoadData | app/models/kmeans_model.py:15-29 | replaces the data and nothing else |
| KMeansModel.RunKMeans | app/models/kmeans_model.py:31-65 | refuses before data is loaded; otherwise the algorithm's result, stored in full on success; a bad k changes nothing; a budget below one stores only the initial centroids |
| KMeansModel.Coords | app/models/kmeans_model.py:11-13 | a point shows its first two coordinates, and fails with fewer |
| KMeansModel.Points | app/models/kmeans_model.py:88 | succeeds exactly when every listed position exists and has two coordinates, and gives them in order |
| KMeansModel.Blocks | app/models/kmeans_model.py:85-90 | one block per cluster, or an index failure |
| KMeansModel.BlocksReport | app/models/kmeans_model.py:85-90 | the report succeeds exactly when every cluster can be shown, and block i is cluster i's number, centroid and points |
| KMeansModel.Display | app/models/kmeans_model.py:81-90 | refuses before a run; otherwise one block per stored cluster |
| KMeansModel.PlotInputs | app/models/kmeans_model.py:67-73 | refuses exactly when data, centroids or labels are missing; otherwise draws the points by label and the centroids |
| KMeansModel.NothingBeforeRun | app/models/kmeans_model.py:67-84 | nothing can be shown or plotted before a run, even with data loaded |
| KMeansModel.RunNeedsData | app/models/kmeans_model.py:33-34 | a run on a new model fails and changes nothing |
| KMeansModel.RunThenDisplay | app/models/kmeans_model.py:31-90 | after a successful run on data at least two wide, the report has one block per cluster, each for its own cluster |
| KMeansModel.NarrowDataCannotDisplay | app/models/kmeans_model.py:87 | a run on data narrower than two succeeds, but the report fails |
| KMeansModel.RunThenPlot | app/models/kmeans_model.py:59-73 | after a successful run the plot uses the data and the run's labels and centroids |
| KMeansModel.ReloadSmallerBreaksDisplay | app/models/kmeans_model.py:81-90 | loading fewer points after a run makes the report fail |
| KMeansModel.ZeroBudgetMixesRuns | app/models/kmeans_model.py:42-60 | a run with no iterations after a successful one replaces the centroids but keeps the old clusters and labels |

## Left out

- File and spreadsheet reading is not modelled. This covers both K-Means `load_data`s, Naive Bayes `load_data`, and the reading in the Apriori controller's `load_file`. Operations take parsed values.
- The tkinter views, message boxes, logs, tree views and frame layout are not modelled. Nor are the controller constructor's view wiring and the widget clearing in `reset`.
- Rendering is not modelled: the Graphviz pictures of rough sets and ID3 trees, `plot_clusters`, and the drawing in `generate_kmeans_plot`. For the plot, the model keeps its guard and the inputs it draws from.
- The text formats are not modelled. This covers the `"[x.xx ; y.yy]"` point format and the two-decimal rounding in `format_point`. A report block holds the unformatted coordinates.
- Rounding is not modelled. This covers the two-decimal rounding of K-Means centroids and the three-decimal rounding of supports and confidences on the Apriori screen; the line on `AprioriController.GenerateRules` below says how the rounded supports change the rules. Reals are exact throughout, with no floating-point error.
- KMeans.KMeans: the returned centroids are the unrounded means, not `np.round(centroids, 2)`, because rounding is not modelled.
- Logarithms and square roots are not computed. Entropy takes `log2` as a parameter. The entropy lemmas state the assumptions on it that they need.
- Naive Bayes compares products of probabilities instead of sums of logarithms. Both pick the same class, since the logarithm is strictly increasing and log 0 is minus infinity.
- K-Means compares squared distances. The norm test `norm <= tolerance` is written as `tolerance >= 0` and squared shift `<= tolerance²`.
- KMeans.SqDist: only non-negativity and a zero self-distance are stated. That zero distance means equal points is not proved, because nothing in the model needs it.
- The seeded random draw `np.random.choice(n, k, replace=False)` is the parameter `init`: k distinct positions below n.
- mlxtend's `TransactionEncoder`, `apriori` and `association_rules` are modelled by their results. These are the sorted item columns, every itemset meeting the support threshold, and every rule meeting the confidence threshold. Their row order is not modelled.
- The rule metrics besides the six kept columns (lift, leverage, conviction) are not modelled, since the source drops them.
- Apriori.GenerateRules: the value of `num_itemsets` is not used, since confidence does not depend on it; the model keeps only whether a mining step has assigned it. When a table lacks a subset's support, which of the library's checks fails first is not modelled; both end in the same `ValueError`.
- Data values are strings compared by equality. pandas dtypes, numeric coercion and NaN handling are not modelled, and neither is the order of `groupby` keys beyond sorting the ID keys.
- Id3.InformationGain: a method name other than "gain" or "gini" is not modelled. The method is a two-case datatype, so the `None` gain such a name gives cannot arise.
- AprioriController.ParseThreshold: only ASCII digits count as digits. `str.isdigit` and `float` also accept other Unicode decimal digits, so "٠.٥" (Arabic-Indic digits) is 0.5 to the code but is refused by the model. Digits that `str.isdigit` accepts and `float` rejects, such as "²", raise a `ValueError` in the code; the model refuses them as invalid thresholds.
- NaiveBayes.Fit: the features and labels are required to have the same number of rows. The code does not check this; pandas aligns the boolean label mask with the features by index, and that alignment is not modelled. The application's model class does check the lengths, and `NaiveBayesModel.Fit` keeps that check.
- Text.ToLower: lower-cases ASCII, Latin-1, Latin Extended-A, "Ơ" and "Ư", and the Latin Extended Additional block that holds the Vietnamese letters. Letters of other scripts (Greek, Cyrillic and others) and the rest of Latin Extended-B are left unchanged, where `str.lower` maps them. "İ", which `str.lower` turns into two code points, is also left unchanged.
- Discernibility.Differences: a criterion whose first letter is outside the range `Text.ToLower` covers keeps its upper-case initial.
- AprioriController.GenerateRules: the rules are generated from exact supports. The code rounds the supports of the mined table to three decimals before it builds the rules, so a rule whose confidence is at the threshold can differ. For transactions {a, b}, {a}, {b} at confidence 0.5, the model keeps a → b with confidence (1/3)/(2/3) = 0.5, while the code computes 0.333/0.667 and drops it.
- RoughSets.EquivalenceClasses: the result is a set of identifier sets, not the code's list with one entry per group in key order. Two classes with the same identifier set, which can happen because identifiers need not be distinct, appear once in the model and twice in the code.
- NaiveBayes.Predict: a sample is a list of feature-value pairs. The code's dict cannot repeat a feature; the model does not exclude a repeated feature, which would count its likelihood twice.
- K-Means data is rectangular. A file with rows of different widths, which numpy cannot stack, is not modelled.
- The correlation module is not part of this model.

## Findings

| source | as written | input that shows it | evidently intended | confidence | as-written member | corrected member |
|---|---|---|---|---|---|---|
| app/algorithms/rough_sets.py:71-72 | the approximation DataFrames are passed to `boundary_region` and `outside_region`, whose `set(...)` of a DataFrame is its column labels, so the boundary is always empty and the outside region subtracts column labels from identifiers | table with columns ID, a, d and rows (1, x, y), (2, x, n); X = ["1"], B = ["a"], decision "d": the upper approximation holds objects 1 and 2, the lower holds none, yet the reported boundary is empty | take the identifier sets `set(b_lower['ID'])` and `set(b_upper['ID'])`, as app/models/rough_set_model.py:104-105 does, so the boundary is {1, 2} | not executed | RoughSetModel.AsWrittenBoundaryOnStraddle | RoughSetModel.CorrectedBoundaryOnStraddle |
