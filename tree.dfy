/** Tree induction: the decision-tree datatype, the recursive definition of
    the tree the learner builds, and the imperative builder proved to
    compute it. */
module DecisionTree {
  import opened Wrappers
  import opened Seqs
  import opened Samples
  import opened Selection

  /** A node of the induced tree. A leaf carries the target attribute's name
      and the predicted value; an internal node carries the attribute it
      splits on and one edge per value, in order. */
  datatype Node<V> =
    | Leaf(targetAttribute: Attribute, value: Value<V>)
    | Internal(attribute: Attribute, edges: seq<Edge<V>>)

  /** An edge: the splitting attribute's value and the child for it. */
  type Edge<V> = (Value<V>, Node<V>)

  /** The parameter errors the builder throws. */
  datatype BuildError = EmptySamples | EmptyAttributes | NoTargetAttribute

  /** The target attribute passes the builder's check: it is given (not
      `undefined`) and is not the empty string. */
  predicate ValidTarget(target: Option<Attribute>): (ok: bool)
    ensures ok <==> target != None && |target.value| > 0
  {
    target.Some? && target.value != ""
  }

  /** The tree `createDecisionTree(samples, attributes, targetAttribute)`
      returns, or the error it throws. The checks and the two stopping
      rules come in the source's order. */
  function Build<V(==)>(samples: seq<Sample<V>>, attributes: seq<Attribute>, target: Option<Attribute>,
                        gain: Gain<V>): (r: Result<Node<V>, BuildError>)
    decreases |attributes|, 1, 0
    ensures r.Success? ==> samples != [] && attributes != [] && ValidTarget(target)
    ensures r.Success? && r.value.Internal? ==> r.value.attribute in attributes
    ensures r.Success? && r.value.Leaf? ==>
              r.value.targetAttribute == target.value
              && exists s :: s in samples && r.value.value == Lookup(s, target.value)
  {
    if |samples| == 0 then Failure(EmptySamples)
    else if |attributes| == 0 then Failure(EmptyAttributes)
    else if !ValidTarget(target) then Failure(NoTargetAttribute)
    else if |attributes| == 1 then Success(Internal(attributes[0], []))
    else if IsPure(samples, target.value) then Success(Leaf(target.value, Lookup(samples[0], target.value)))
    else
      var best := BestAttribute(samples, attributes, target.value, gain);
      var values := DistinctValues(samples, best);
      match BuildEdges(samples, best, values, |values|, Without(attributes, best), target, gain)
      case Success(edges) => Success(Internal(best, edges))
      case Failure(e) => Failure(e)
  }

  /** The edges for the first `n` of `values` (distinct values of the
      splitting attribute `a`), built in order: each child from the samples
      holding that value, with the remaining attributes `rest`. The first
      child whose construction fails aborts the rest. */
  function BuildEdges<V(==)>(samples: seq<Sample<V>>, a: Attribute, values: seq<Value<V>>, n: nat,
                             rest: seq<Attribute>, target: Option<Attribute>, gain: Gain<V>)
    : (r: Result<seq<Edge<V>>, BuildError>)
    requires n <= |values|
    decreases |rest| + 1, 0, n
    ensures r.Success? ==>
              && |r.value| == n
              && forall i :: 0 <= i < n ==>
                   && r.value[i].0 == values[i]
                   && Build(Subset(samples, a, values[i]), rest, target, gain) == Success(r.value[i].1)
    ensures r.Failure? ==>
              exists k :: 0 <= k < n
                && Build(Subset(samples, a, values[k]), rest, target, gain) == Failure(r.error)
                && forall j :: 0 <= j < k ==> Build(Subset(samples, a, values[j]), rest, target, gain).Success?
  {
    if n == 0 then Success([])
    else
      match BuildEdges(samples, a, values, n - 1, rest, target, gain)
      case Failure(e) => Failure(e)
      case Success(edges) =>
        match Build(Subset(samples, a, values[n - 1]), rest, target, gain)
        case Failure(e) => Failure(e)
        case Success(child) => Success(edges + [(values[n - 1], child)])
  }

  /** Once a child has failed, building further edges keeps that error. */
  lemma {:induction false} EdgesFailureKept<V>(samples: seq<Sample<V>>, a: Attribute, values: seq<Value<V>>,
                                               n: nat, m: nat, rest: seq<Attribute>, target: Option<Attribute>,
                                               gain: Gain<V>)
    requires n <= m <= |values|
    requires BuildEdges(samples, a, values, n, rest, target, gain).Failure?
    ensures BuildEdges(samples, a, values, m, rest, target, gain) == BuildEdges(samples, a, values, n, rest, target, gain)
    decreases m
  {
    if n < m {
      EdgesFailureKept(samples, a, values, n, m - 1, rest, target, gain);
    }
  }

  /** In the recursive case the tree is the root for the best attribute over
      the edges for its distinct values, or the first failing child's error. */
  lemma BuildSplit<V>(samples: seq<Sample<V>>, attributes: seq<Attribute>, target: Option<Attribute>,
                      gain: Gain<V>)
    requires samples != [] && |attributes| > 1 && ValidTarget(target) && !IsPure(samples, target.value)
    ensures var best := BestAttribute(samples, attributes, target.value, gain);
      var values := DistinctValues(samples, best);
      var es := BuildEdges(samples, best, values, |values|, Without(attributes, best), target, gain);
      Build(samples, attributes, target, gain) == if es.Success? then Success(Internal(best, es.value)) else Failure(es.error)
  {
  }

  /** One more step of the edge loop: the next child is appended, or its
      error becomes the result. */
  lemma EdgesStep<V>(samples: seq<Sample<V>>, a: Attribute, values: seq<Value<V>>, n: nat,
                     rest: seq<Attribute>, target: Option<Attribute>, gain: Gain<V>, edges: seq<Edge<V>>)
    requires n < |values|
    requires BuildEdges(samples, a, values, n, rest, target, gain) == Success(edges)
    ensures var child := Build(Subset(samples, a, values[n]), rest, target, gain);
      BuildEdges(samples, a, values, n + 1, rest, target, gain)
        == if child.Success? then Success(edges + [(values[n], child.value)]) else Failure(child.error)
  {
  }

  /** When every child can be built, so can the edges. */
  lemma EdgesSucceed<V>(samples: seq<Sample<V>>, a: Attribute, values: seq<Value<V>>, n: nat,
                        rest: seq<Attribute>, target: Option<Attribute>, gain: Gain<V>)
    requires n <= |values|
    requires forall i :: 0 <= i < n ==> Build(Subset(samples, a, values[i]), rest, target, gain).Success?
    ensures BuildEdges(samples, a, values, n, rest, target, gain).Success?
  {
  }

  /** `createDecisionTree`: checks its parameters, applies the stopping
      rules in order, and otherwise creates the root for the best attribute
      with the edges for that attribute's distinct values. */
  method CreateDecisionTree<V(==)>(samples: seq<Sample<V>>, attributes: seq<Attribute>,
                                   target: Option<Attribute>, gain: Gain<V>)
    returns (r: Result<Node<V>, BuildError>)
    decreases |attributes|, 1
    ensures r == Build(samples, attributes, target, gain)
  {
    if |samples| == 0 {
      return Failure(EmptySamples);
    }
    if |attributes| == 0 {
      return Failure(EmptyAttributes);
    }
    if !ValidTarget(target) {
      return Failure(NoTargetAttribute);
    }
    if |attributes| == 1 {
      return Success(Internal(attributes[0], []));
    }
    var t := target.value;
    if IsPure(samples, t) {
      return Success(Leaf(t, Lookup(samples[0], t)));
    }
    var best := BestAttribute(samples, attributes, t, gain);
    var edges := CreateEdges(samples, best, DistinctValues(samples, best), Without(attributes, best), target, gain);
    if edges.Failure? {
      return Failure(edges.error);
    }
    return Success(Internal(best, edges.value));
  }

  /** The loop over the distinct values `values` of the splitting attribute
      `a`: for each, filter the samples holding it, build the child from them
      with the remaining attributes `rest`, and push the edge. A child that
      fails aborts the loop with its error. */
  method CreateEdges<V(==)>(samples: seq<Sample<V>>, a: Attribute, values: seq<Value<V>>,
                            rest: seq<Attribute>, target: Option<Attribute>, gain: Gain<V>)
    returns (r: Result<seq<Edge<V>>, BuildError>)
    decreases |rest| + 1, 0
    ensures r == BuildEdges(samples, a, values, |values|, rest, target, gain)
  {
    var edges: seq<Edge<V>> := [];
    var i := 0;
    while i < |values|
      invariant 0 <= i <= |values|
      invariant BuildEdges(samples, a, values, i, rest, target, gain) == Success(edges)
    {
      var newSamples := Subset(samples, a, values[i]);
      var child := CreateDecisionTree(newSamples, rest, target, gain);
      EdgesStep(samples, a, values, i, rest, target, gain, edges);
      if child.Failure? {
        EdgesFailureKept(samples, a, values, i + 1, |values|, rest, target, gain);
        return Failure(child.error);
      }
      edges := edges + [(values[i], child.value)];
      i := i + 1;
    }
    return Success(edges);
  }
}
