# ID3 decision-tree learner — a Dafny model

This project models the core of a small ID3 decision-tree learner for
categorical data (`index.js`). Training takes a sequence of samples (maps
from attribute names to values), a list of candidate attributes and the name
of the target attribute, and builds a tree recursively. At each node it
checks its parameters, applies two stopping rules (one attribute left, then
a pure sample set), and otherwise splits on the candidate with the highest
information gain, with one edge per distinct value of that attribute. Each
child is built from the samples holding that edge's value, with the split
attribute removed. Prediction walks the tree from the root, following the
edge whose value equals the sample's value, until it reaches a leaf.

Modules, one per component:

- `Wrappers` (`wrappers.dfy`): `Option` and `Result`. The source's exceptions become `Failure` values.
- `Seqs` (`seqs.dfy`): the sequence operations the learner takes from its utility library: `uniq` as `Uniq` and `without` as `Without`.
- `Samples` (`samples.dfy`): samples, attribute values and `undefined`, `extractDistinctValues`, the `sample[a] === v` filter, `isPure`, and the partition lemma.
- `Selection` (`selection.dfy`): `bestAttribute`. The gain is an uninterpreted scoring function `Gain<V>`.
- `DecisionTree` (`tree.dfy`): the node datatype and `Build`/`BuildEdges`, the recursive definition of the tree the learner returns. It also holds the imperative builder `CreateDecisionTree`/`CreateEdges`, proved to compute exactly that tree.
- `TreeProperties` (`properties.dfy`): the parameter checks, the stopping rules, the recursive case, path and leaf properties of built trees.
- `Prediction` (`predict.dfy`): `predict`, its path and termination bound, and training fit.

Modelling choices:

- Reading `sample[attribute]` yields `Value<V>`: `Defined(v)` or `Undefined` for a missing key. The source compares values with `===`, and so does the model, with `Undefined` equal to itself.
- The target attribute is an `Option<Attribute>`. `None` stands for `undefined`/`null`. Both `None` and `Some("")` fail the `!targetAttribute` check.
- Nodes form a datatype with two variants, `Leaf(targetAttribute, value)` and `Internal(attribute, edges)`. The source tells them apart by whether `targetAttribute` is set (index.js:97).
- `createDecisionTree` builds its root object by assigning fields and pushing edges in an `_.each` loop. The object is local until it is returned, so the method builds the edge list in a local `seq` inside a `while` loop (`CreateEdges`) and returns a `Node` value. Its postcondition equates the result with `Build`.
- Two quirks are kept as written. Under the one-attribute rule the result is an internal node with no edges (index.js:127-130), so every prediction routed there fails. A walk that finds no matching edge dereferences `undefined` (index.js:105-111); the model returns `Failure(NoMatchingEdge)`.
- A child whose construction throws aborts the loop, and the error propagates (first failing child wins). This can only happen when an attribute is listed twice (`DuplicateAttributeFails`). With distinct attributes the builder fails only on its three parameter checks (`BuildSucceeds`).
- A built ID3 tree is often said to fit every training sample. The code achieves that only when no internal node is edge-less, and the model follows the code: `TrainingFit` proves that a prediction on a training sample is either that sample's own target value or a failure, and that it cannot fail on a `Complete` tree.

## Model

| member | source | states |
|---|---|---|
| `Seqs.Uniq` | index.js:67-69 | each element once, only input elements, every input element present |
| `Seqs.UniqOrder` | index.js:67-69 | the kept elements are listed in the order of their first occurrences |
| `Seqs.Without` | index.js:160 | no copy of the element is left and every other element is kept; strictly shorter when the element occurs, unchanged when it does not |
| `Seqs.WithoutConcat` | index.js:160 | removal distributes over concatenation, so the kept elements stay in input order with every copy |
| `Seqs.WithoutDistinct` | index.js:160 | from a duplicate-free list the result stays duplicate-free and is exactly one shorter when the element occurs |
| `Samples.DistinctValues` | index.js:66-72 | the attribute's values across the samples: no duplicates, each held by some sample, every sample's value present, in first-occurrence order |
| `Samples.Lookup` | index.js:68 | `sample[attribute]` is the stored value when the key is present and `undefined` otherwise |
| `Samples.Subset` | index.js:155-157 | a sample is kept exactly when it holds the value for the attribute; never longer than the input; the same filter as index.js:26-28 and index.js:54-56 |
| `Samples.SubsetConcat` | index.js:155-157 | filtering distributes over concatenation, so the kept samples stay in input order |
| `Samples.SubsetCounts` | index.js:155-157 | the filter keeps every copy of a matching sample (multiset counts) and no other sample |
| `Samples.PureMeansShared` | index.js:89-91 | on a non-empty set, exactly one distinct target value means every sample shares the first sample's target value |
| `Samples.IsPure` | index.js:89-91 | on a non-empty set, pure exactly when every sample shares the first sample's target value |
| `Samples.Partition` | index.js:148-157 | the subsets for the distinct values are non-empty, pairwise disjoint and exhaustive, and their sizes add up to the number of samples |
| `Selection.MaxIndex` | index.js:84-86 | `_.max` keeps the first maximum: a maximal score with every earlier score strictly smaller |
| `Selection.BestAttribute` | index.js:74-87 | a candidate whose gain no candidate exceeds; no candidate listed before it reaches the same gain (ties go to the first listed) |
| `DecisionTree.ValidTarget` | index.js:119 | the target passes `!targetAttribute` exactly when it is given and is a non-empty string |
| `DecisionTree.Build` | index.js:114-169 | a built tree came from non-empty samples and attributes and a valid target; an internal root splits on a candidate; a leaf root names the target and carries a value some sample holds |
| `DecisionTree.BuildEdges` | index.js:148-166 | on success one edge per value, in order, each child built from the matching subset with the remaining attributes; on failure the error of the first child that fails, all earlier children built |
| `DecisionTree.EdgesFailureKept` | index.js:149-163 | a child that fails aborts the loop: later values do not change the error |
| `DecisionTree.EdgesSucceed` | index.js:149-166 | the loop completes when every child can be built |
| `DecisionTree.CreateDecisionTree` | index.js:114-169 | the imperative builder returns exactly the tree (or error) `Build` defines |
| `DecisionTree.CreateEdges` | index.js:145-166 | the edge loop returns exactly the edges (or first error) `BuildEdges` defines |
| `TreeProperties.ParameterChecks` | index.js:116-119 | empty samples, then empty attributes, then a missing or empty target attribute, each with its own error |
| `TreeProperties.StoppingRules` | index.js:126-137 | one remaining attribute gives an edge-less internal node even for pure samples; otherwise pure samples give a leaf with the target name and the first sample's target value |
| `TreeProperties.RecursiveCase` | index.js:139-166 | the root splits on the best attribute, a candidate; edges follow its distinct values in first-occurrence order; each child is built from the matching subset with that attribute removed |
| `TreeProperties.RecursiveChild` | index.js:148-163 | each edge's value is a distinct value of the split attribute, and its child is built from the samples holding it |
| `TreeProperties.BuildSucceeds` | index.js:114-169 | with no attribute listed twice and the parameter checks passed, no recursive call fails |
| `TreeProperties.DuplicateAttributeFails` | index.js:160-163 | a concrete input with an attribute listed twice whose recursive call fails with the empty-attributes error |
| `TreeProperties.BuildSplitsWithin` | index.js:143-163 | every split attribute of a built tree is a candidate, and no attribute is split on again below itself |
| `TreeProperties.PathsDistinct` | index.js:160 | along any path of such a tree no attribute repeats and every one is allowed, so paths are no longer than the candidate set |
| `TreeProperties.BuildPaths` | index.js:139-166 | every root-to-leaf path of a built tree has distinct attributes, all candidates, and at most as many as there are candidates |
| `TreeProperties.BuildLeaves` | index.js:132-137 | every leaf names the target attribute and carries a target value some training sample holds |
| `Prediction.FindEdge` | index.js:105-107 | the first edge whose value equals the sample's value, or none when no edge matches |
| `Prediction.Predict` | index.js:93-112 | a leaf is returned as it is; at an internal node the walk continues from the child of the first edge whose value equals the sample's value, and fails when no edge matches; a successful prediction is always a leaf |
| `Prediction.PredictWalksPath` | index.js:93-112 | a successful prediction follows a root-to-leaf path of the tree |
| `Prediction.PredictBounded` | index.js:93-112 | on a built tree a prediction passes no attribute twice and follows at most as many edges as there are candidates |
| `Prediction.PredictDrawn` | index.js:93-112 | a prediction is one of the tree's leaves, so it inherits their target name and drawn value |
| `Prediction.PredictsTrainingValue` | index.js:93-112 | any prediction of a built tree names the target attribute and predicts a value seen in training |
| `Prediction.OneAttributeNeverPredicts` | index.js:127-130 | with one attribute the builder succeeds, yet every prediction on the result fails |
| `Prediction.RouteTrainingSample` | index.js:105-111 | a training sample is routed along the edge for its own value, into the child built from a subset containing it |
| `Prediction.TrainingFit` | index.js:93-168 | on a training sample a built tree predicts that sample's own target value or fails, and cannot fail when every internal node has edges |

## Left out

- `log2`, `entropy` and the numeric body of `gain` (index.js:6-64): floating-point logarithms and division. Gain is a parameter `Gain<V>` returning a `real`, so selection and tie-breaking hold for any scoring function. The gain's non-negativity and the entropy values are not modelled.
- The `root.predict` closure (index.js:121-124) and the object identity of the returned nodes: prediction is the separate function `Predict(root, sample)`, and the model has no closures at all.
- Predict: when the whole training set is pure and at least two attributes are given, the source returns the bare leaf object of index.js:133-136, which has no `predict` member, so calling `tree.predict(sample)` on it throws; the model's `Predict(root, s)` on that tree returns `Success(root)`, the value the leaf holds.
- The utility library's code (`_.uniq`, `_.filter`, `_.without`, `_.max`, `_.find`, `_.each`): each is modelled by its documented sequence semantics (`Uniq`, `Subset`, `Without`, `MaxIndex`, `FindEdge`, the loop in `CreateEdges`).
- JavaScript's `NaN !== NaN`: a `NaN` attribute value would give an empty subset. Values here have reflexive equality, and gains are exact reals without `NaN` or infinities.
- Falsy target names other than `undefined`, `null` and `""` (such as `0` or `false`): attribute names are strings.
- The kind of error thrown: the source throws `Error` with a message for the parameter checks and a `TypeError` when no edge matches. The model names each failure with a datatype constructor.
- Reading training data from CSV files and the test suite's weather-dataset predictions: they depend on `testdata.csv`, which is not part of this model, and on floating-point gains.
- Determinism of a rebuild from identical inputs needs no lemma: `Build` is a function.
