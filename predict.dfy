/** Prediction: walking a built tree from its root to a leaf. */
module Prediction {
  import opened Wrappers
  import opened Seqs
  import opened Samples
  import opened Selection
  import opened DecisionTree
  import opened TreeProperties

  /** The walk reached an internal node none of whose edges carries the
      sample's value (the source then dereferences `undefined`). */
  datatype PredictError = NoMatchingEdge

  /** `find` over the edges: the position of the first edge whose value
      equals `v`, if any. */
  function FindEdge<V(==)>(edges: seq<Edge<V>>, v: Value<V>): (r: Option<nat>)
    ensures r.Some? ==> r.value < |edges| && edges[r.value].0 == v
    ensures r.Some? ==> forall j :: 0 <= j < r.value ==> edges[j].0 != v
    ensures r.None? ==> forall j :: 0 <= j < |edges| ==> edges[j].0 != v
  {
    if edges == [] then None
    else if edges[0].0 == v then Some(0)
    else
      match FindEdge(edges[1..], v)
      case None => None
      case Some(k) => Some(k + 1)
  }

  /** `predict(node, sample)`: a leaf is returned as it is; at an internal
      node the walk follows the first edge whose value equals the sample's
      value for the node's attribute, and fails when there is none. */
  function Predict<V(==)>(node: Node<V>, sample: Sample<V>): (r: Result<Node<V>, PredictError>)
    ensures node.Leaf? ==> r == Success(node)
    ensures r.Success? ==> r.value.Leaf?
    ensures node.Internal? && (forall j :: 0 <= j < |node.edges| ==> node.edges[j].0 != Lookup(sample, node.attribute)) ==>
              r == Failure(NoMatchingEdge)
    ensures forall k ::
              (&& node.Internal? && 0 <= k < |node.edges| && node.edges[k].0 == Lookup(sample, node.attribute)
               && forall j :: 0 <= j < k ==> node.edges[j].0 != Lookup(sample, node.attribute))
              ==> r == Predict(node.edges[k].1, sample)
    decreases node
  {
    match node
    case Leaf(_, _) => Success(node)
    case Internal(a, edges) =>
      match FindEdge(edges, Lookup(sample, a))
      case None => Failure(NoMatchingEdge)
      case Some(k) => Predict(edges[k].1, sample)
  }

  /** The split attributes of the internal nodes a prediction passes. */
  ghost function Visited<V>(node: Node<V>, sample: Sample<V>): seq<Attribute>
    decreases node
  {
    match node
    case Leaf(_, _) => []
    case Internal(a, edges) =>
      match FindEdge(edges, Lookup(sample, a))
      case None => [a]
      case Some(k) => [a] + Visited(edges[k].1, sample)
  }

  /** Every internal node has at least one edge: the tree has no node of
      the one-attribute stopping rule. */
  ghost predicate Complete<V>(n: Node<V>) {
    match n
    case Leaf(_, _) => true
    case Internal(_, edges) => edges != [] && forall i :: 0 <= i < |edges| ==> Complete(edges[i].1)
  }

  /** A successful prediction walks a root-to-leaf path of the tree. */
  lemma {:induction false} PredictWalksPath<V>(node: Node<V>, sample: Sample<V>)
    requires Predict(node, sample).Success?
    ensures IsPath(node, Visited(node, sample))
    decreases node
  {
    match node
    case Leaf(_, _) =>
    case Internal(a, edges) =>
      var k := FindEdge(edges, Lookup(sample, a)).value;
      PredictWalksPath(edges[k].1, sample);
      assert Visited(node, sample)[1..] == Visited(edges[k].1, sample);
  }

  /** On a built tree, prediction of any sample passes each attribute at
      most once and follows at most as many edges as there are candidate
      attributes. */
  lemma PredictBounded<V>(samples: seq<Sample<V>>, attributes: seq<Attribute>, target: Option<Attribute>,
                          gain: Gain<V>, sample: Sample<V>)
    requires Build(samples, attributes, target, gain).Success?
    requires Predict(Build(samples, attributes, target, gain).value, sample).Success?
    ensures var p := Visited(Build(samples, attributes, target, gain).value, sample);
      NoDuplicates(p) && |p| <= |attributes|
  {
    var tree := Build(samples, attributes, target, gain).value;
    PredictWalksPath(tree, sample);
    BuildPaths(samples, attributes, target, gain, Visited(tree, sample));
  }

  /** A prediction is one of the tree's leaves, so with leaves drawn from the
      samples it names the target and predicts a value some sample holds. */
  lemma {:induction false} PredictDrawn<V>(node: Node<V>, samples: seq<Sample<V>>, target: Attribute,
                                           sample: Sample<V>)
    requires LeavesDrawn(node, samples, target)
    requires Predict(node, sample).Success?
    ensures Predict(node, sample).value.targetAttribute == target
    ensures exists s :: s in samples && Lookup(s, target) == Predict(node, sample).value.value
    decreases node
  {
    match node
    case Leaf(_, _) =>
    case Internal(a, edges) =>
      var k := FindEdge(edges, Lookup(sample, a)).value;
      PredictDrawn(edges[k].1, samples, target, sample);
  }

  /** Whatever sample a tree built from `samples` is asked about, a
      prediction it makes is a leaf for the target attribute carrying a
      target value seen in training. */
  lemma PredictsTrainingValue<V>(samples: seq<Sample<V>>, attributes: seq<Attribute>, target: Option<Attribute>,
                                 gain: Gain<V>, sample: Sample<V>)
    requires Build(samples, attributes, target, gain).Success?
    requires Predict(Build(samples, attributes, target, gain).value, sample).Success?
    ensures var leaf := Predict(Build(samples, attributes, target, gain).value, sample).value;
      leaf.targetAttribute == target.value && exists s :: s in samples && Lookup(s, target.value) == leaf.value
  {
    BuildLeaves(samples, attributes, target, gain);
    PredictDrawn(Build(samples, attributes, target, gain).value, samples, target.value, sample);
  }

  /** Under the one-attribute stopping rule every prediction fails, even on
      the training samples and even when they all agree. */
  lemma OneAttributeNeverPredicts<V>(samples: seq<Sample<V>>, attribute: Attribute, target: Option<Attribute>,
                                     gain: Gain<V>, sample: Sample<V>)
    requires samples != [] && ValidTarget(target)
    ensures Build(samples, [attribute], target, gain).Success?
    ensures Predict(Build(samples, [attribute], target, gain).value, sample) == Failure(NoMatchingEdge)
  {
  }

  /** In the recursive case a training sample is routed along the edge for
      its own value of the split attribute, into the child built from a
      subset that contains it. */
  lemma RouteTrainingSample<V>(samples: seq<Sample<V>>, attributes: seq<Attribute>, target: Option<Attribute>,
                               gain: Gain<V>, s: Sample<V>) returns (k: nat)
    requires s in samples && |attributes| > 1 && ValidTarget(target) && !IsPure(samples, target.value)
    requires Build(samples, attributes, target, gain).Success?
    ensures var tree := Build(samples, attributes, target, gain).value;
      var best := BestAttribute(samples, attributes, target.value, gain);
      var sub := Subset(samples, best, Lookup(s, best));
      && tree.Internal? && tree.attribute == best && k < |tree.edges|
      && FindEdge(tree.edges, Lookup(s, best)) == Some(k)
      && s in sub
      && Build(sub, Without(attributes, best), target, gain) == Success(tree.edges[k].1)
  {
    RecursiveCase(samples, attributes, target, gain);
    var tree := Build(samples, attributes, target, gain).value;
    var best := BestAttribute(samples, attributes, target.value, gain);
    var values := DistinctValues(samples, best);
    var v := Lookup(s, best);
    var i :| 0 <= i < |values| && values[i] == v;
    assert tree.edges[i].0 == v;
    k := FindEdge(tree.edges, v).value;
    RecursiveChild(samples, attributes, target, gain, k);
  }

  /** Training fit: asked about one of its own training samples, a built
      tree either predicts exactly that sample's target value, or fails;
      and it cannot fail when every internal node has edges. */
  lemma {:induction false} TrainingFit<V>(samples: seq<Sample<V>>, attributes: seq<Attribute>,
                                          target: Option<Attribute>, gain: Gain<V>, s: Sample<V>)
    requires s in samples
    requires Build(samples, attributes, target, gain).Success?
    ensures var tree := Build(samples, attributes, target, gain).value;
      && (Predict(tree, s).Success? ==> Predict(tree, s).value == Leaf(target.value, Lookup(s, target.value)))
      && (Complete(tree) ==> Predict(tree, s).Success?)
    decreases |attributes|
  {
    ParameterChecks(samples, attributes, target, gain);
    StoppingRules(samples, attributes, target, gain);
    if |attributes| > 1 && !IsPure(samples, target.value) {
      var tree := Build(samples, attributes, target, gain).value;
      var k := RouteTrainingSample(samples, attributes, target, gain, s);
      var best := BestAttribute(samples, attributes, target.value, gain);
      var child := tree.edges[k].1;
      TrainingFit(Subset(samples, best, Lookup(s, best)), Without(attributes, best), target, gain, s);
      assert Predict(tree, s) == Predict(child, s);
      assert Complete(tree) ==> Complete(child);
    }
  }
}
