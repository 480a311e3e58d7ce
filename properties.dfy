/** Properties of the trees the learner builds: the outcome of the parameter
    checks and stopping rules, the shape of the recursive case, the
    attributes along every path, and where leaf values come from. */
module TreeProperties {
  import opened Wrappers
  import opened Seqs
  import opened Samples
  import opened Selection
  import opened DecisionTree

  /** `p` lists the split attributes met on a walk from `n` down to a leaf,
      or down to an internal node without edges. */
  ghost predicate IsPath<V>(n: Node<V>, p: seq<Attribute>) {
    match n
    case Leaf(_, _) => p == []
    case Internal(a, edges) =>
      && p != [] && p[0] == a
      && (if edges == [] then p == [a]
          else exists i :: 0 <= i < |edges| && IsPath(edges[i].1, p[1..]))
  }

  /** Every split attribute is drawn from `allowed`, and below a split on
      `a` the attribute `a` is no longer allowed. */
  ghost predicate SplitsWithin<V>(n: Node<V>, allowed: set<Attribute>) {
    match n
    case Leaf(_, _) => true
    case Internal(a, edges) =>
      a in allowed && forall i :: 0 <= i < |edges| ==> SplitsWithin(edges[i].1, allowed - {a})
  }

  /** Every leaf names `target` and predicts a value some sample holds for it. */
  ghost predicate LeavesDrawn<V>(n: Node<V>, samples: seq<Sample<V>>, target: Attribute) {
    match n
    case Leaf(t, v) => t == target && exists s :: s in samples && Lookup(s, t) == v
    case Internal(_, edges) => forall i :: 0 <= i < |edges| ==> LeavesDrawn(edges[i].1, samples, target)
  }

  /** The parameter checks, in the source's order. */
  lemma ParameterChecks<V>(samples: seq<Sample<V>>, attributes: seq<Attribute>, target: Option<Attribute>,
                           gain: Gain<V>)
    ensures samples == [] ==> Build(samples, attributes, target, gain) == Failure(EmptySamples)
    ensures samples != [] && attributes == [] ==>
              Build(samples, attributes, target, gain) == Failure(EmptyAttributes)
    ensures samples != [] && attributes != [] && !ValidTarget(target) ==>
              Build(samples, attributes, target, gain) == Failure(NoTargetAttribute)
  {
  }

  /** The stopping rules: a single remaining attribute gives an internal
      node without edges, even when the samples are pure; otherwise pure
      samples give a leaf with the first sample's target value. */
  lemma StoppingRules<V>(samples: seq<Sample<V>>, attributes: seq<Attribute>, target: Option<Attribute>,
                         gain: Gain<V>)
    requires samples != [] && attributes != [] && ValidTarget(target)
    ensures |attributes| == 1 ==> Build(samples, attributes, target, gain) == Success(Internal(attributes[0], []))
    ensures |attributes| > 1 && IsPure(samples, target.value) ==>
              Build(samples, attributes, target, gain) == Success(Leaf(target.value, Lookup(samples[0], target.value)))
  {
  }

  /** The recursive case: the root splits on the best attribute, one of the
      candidates; its edges follow that attribute's distinct values in
      first-occurrence order; each child is built from exactly the samples
      holding the edge's value, with the split attribute removed. */
  lemma RecursiveCase<V>(samples: seq<Sample<V>>, attributes: seq<Attribute>, target: Option<Attribute>,
                         gain: Gain<V>)
    requires samples != [] && |attributes| > 1 && ValidTarget(target) && !IsPure(samples, target.value)
    requires Build(samples, attributes, target, gain).Success?
    ensures var tree := Build(samples, attributes, target, gain).value;
      var best := BestAttribute(samples, attributes, target.value, gain);
      var values := DistinctValues(samples, best);
      && tree.Internal? && tree.attribute == best && best in attributes
      && |tree.edges| == |values|
      && forall i :: 0 <= i < |values| ==>
           && tree.edges[i].0 == values[i]
           && Build(Subset(samples, best, values[i]), Without(attributes, best), target, gain)
                == Success(tree.edges[i].1)
  {
    var best := BestAttribute(samples, attributes, target.value, gain);
    var values := DistinctValues(samples, best);
    BuildSplit(samples, attributes, target, gain);
    var es := BuildEdges(samples, best, values, |values|, Without(attributes, best), target, gain);
    assert es.Success?;
    assert Build(samples, attributes, target, gain).value == Internal(best, es.value);
  }

  /** The child on the edge at position `i` of the recursive case, alone. */
  lemma RecursiveChild<V>(samples: seq<Sample<V>>, attributes: seq<Attribute>, target: Option<Attribute>,
                          gain: Gain<V>, i: nat)
    requires samples != [] && |attributes| > 1 && ValidTarget(target) && !IsPure(samples, target.value)
    requires Build(samples, attributes, target, gain).Success?
    requires i < |Build(samples, attributes, target, gain).value.edges|
    ensures var tree := Build(samples, attributes, target, gain).value;
      var best := BestAttribute(samples, attributes, target.value, gain);
      var v := tree.edges[i].0;
      && v in DistinctValues(samples, best)
      && Build(Subset(samples, best, v), Without(attributes, best), target, gain) == Success(tree.edges[i].1)
  {
    RecursiveCase(samples, attributes, target, gain);
  }

  /** With no attribute listed twice, the builder fails only on its
      parameter checks: no recursive call meets an empty sample set or an
      empty attribute list. */
  lemma {:induction false} BuildSucceeds<V>(samples: seq<Sample<V>>, attributes: seq<Attribute>,
                                            target: Option<Attribute>, gain: Gain<V>)
    requires NoDuplicates(attributes)
    requires samples != [] && attributes != [] && ValidTarget(target)
    ensures Build(samples, attributes, target, gain).Success?
    decreases |attributes|
  {
    if |attributes| > 1 && !IsPure(samples, target.value) {
      var best := BestAttribute(samples, attributes, target.value, gain);
      var values := DistinctValues(samples, best);
      var rest := Without(attributes, best);
      WithoutDistinct(attributes, best);
      Partition(samples, best);
      forall i | 0 <= i < |values|
        ensures Build(Subset(samples, best, values[i]), rest, target, gain).Success?
      {
        BuildSucceeds(Subset(samples, best, values[i]), rest, target, gain);
      }
      EdgesSucceed(samples, best, values, |values|, rest, target, gain);
      BuildSplit(samples, attributes, target, gain);
    }
  }

  /** Without distinct attributes a recursive call can fail: splitting on an
      attribute listed twice leaves no attributes for the children. */
  lemma DuplicateAttributeFails()
    ensures var samples: seq<Sample<int>> := [map["a" := 1, "t" := 1], map["a" := 2, "t" := 2]];
      Build(samples, ["a", "a"], Some("t"), (ss: seq<Sample<int>>, a: Attribute, t: Attribute) => 0.0)
        == Failure(EmptyAttributes)
  {
    var samples: seq<Sample<int>> := [map["a" := 1, "t" := 1], map["a" := 2, "t" := 2]];
    var gain := (ss: seq<Sample<int>>, a: Attribute, t: Attribute) => 0.0;
    assert Lookup(samples[1], "t") != Lookup(samples[0], "t");
    assert !IsPure(samples, "t");
    var best := BestAttribute(samples, ["a", "a"], "t", gain);
    assert best == "a";
    var values := DistinctValues(samples, "a");
    assert |values| > 0;
    assert Without(["a", "a"], "a") == [];
    assert Build(Subset(samples, "a", values[0]), [], Some("t"), gain) == Failure(EmptyAttributes);
    EdgesFailureKept(samples, "a", values, 1, |values|, [], Some("t"), gain);
    BuildSplit(samples, ["a", "a"], Some("t"), gain);
  }

  /** Every split attribute of a built tree is one of the candidates, and
      none is split on again below itself. */
  lemma {:induction false} BuildSplitsWithin<V>(samples: seq<Sample<V>>, attributes: seq<Attribute>,
                                                target: Option<Attribute>, gain: Gain<V>)
    requires Build(samples, attributes, target, gain).Success?
    ensures SplitsWithin(Build(samples, attributes, target, gain).value, Elems(attributes))
    decreases |attributes|
  {
    if |attributes| > 1 && !IsPure(samples, target.value) {
      RecursiveCase(samples, attributes, target, gain);
      var tree := Build(samples, attributes, target, gain).value;
      var best := BestAttribute(samples, attributes, target.value, gain);
      var values := DistinctValues(samples, best);
      var rest := Without(attributes, best);
      ElemsWithout(attributes, best);
      forall i | 0 <= i < |tree.edges|
        ensures SplitsWithin(tree.edges[i].1, Elems(attributes) - {best})
      {
        BuildSplitsWithin(Subset(samples, best, values[i]), rest, target, gain);
      }
      assert best in Elems(attributes);
    }
  }

  /** Along any path of a tree whose splits lie within `allowed`, no
      attribute repeats and every attribute is allowed; so a path is no
      longer than `allowed` is large. */
  lemma {:induction false} PathsDistinct<V>(n: Node<V>, allowed: set<Attribute>, p: seq<Attribute>)
    requires SplitsWithin(n, allowed) && IsPath(n, p)
    ensures NoDuplicates(p) && Elems(p) <= allowed && |p| <= |allowed|
    decreases n
  {
    match n
    case Leaf(_, _) =>
    case Internal(a, edges) =>
      if edges == [] {
        assert Elems(p) == {a};
      } else {
        var i :| 0 <= i < |edges| && IsPath(edges[i].1, p[1..]);
        PathsDistinct(edges[i].1, allowed - {a}, p[1..]);
        assert p == [a] + p[1..];
        assert Elems(p) == {a} + Elems(p[1..]);
        assert |allowed - {a}| == |allowed| - 1;
      }
  }

  /** No attribute repeats along a root-to-leaf path of a built tree, every
      one is a candidate, and so the depth is at most the number of
      candidates. */
  lemma BuildPaths<V>(samples: seq<Sample<V>>, attributes: seq<Attribute>, target: Option<Attribute>,
                      gain: Gain<V>, p: seq<Attribute>)
    requires Build(samples, attributes, target, gain).Success?
    requires IsPath(Build(samples, attributes, target, gain).value, p)
    ensures NoDuplicates(p) && (forall a :: a in p ==> a in attributes) && |p| <= |attributes|
  {
    BuildSplitsWithin(samples, attributes, target, gain);
    PathsDistinct(Build(samples, attributes, target, gain).value, Elems(attributes), p);
    ElemsSize(attributes);
    forall a | a in p ensures a in attributes {
      assert a in Elems(p);
    }
  }

  /** Leaves drawn from a set of samples are drawn from any set containing it. */
  lemma {:induction false} LeavesDrawnWider<V>(n: Node<V>, samples: seq<Sample<V>>, wider: seq<Sample<V>>,
                                               target: Attribute)
    requires LeavesDrawn(n, samples, target)
    requires forall s :: s in samples ==> s in wider
    ensures LeavesDrawn(n, wider, target)
    decreases n
  {
    match n
    case Leaf(_, _) =>
    case Internal(_, edges) =>
      forall i | 0 <= i < |edges| ensures LeavesDrawn(edges[i].1, wider, target) {
        LeavesDrawnWider(edges[i].1, samples, wider, target);
      }
  }

  /** Every leaf of a built tree names the target attribute and predicts a
      target value held by some training sample; no value is synthesized. */
  lemma {:induction false} BuildLeaves<V>(samples: seq<Sample<V>>, attributes: seq<Attribute>,
                                          target: Option<Attribute>, gain: Gain<V>)
    requires Build(samples, attributes, target, gain).Success?
    ensures LeavesDrawn(Build(samples, attributes, target, gain).value, samples, target.value)
    decreases |attributes|
  {
    if |attributes| > 1 && IsPure(samples, target.value) {
      assert samples[0] in samples;
    } else if |attributes| > 1 {
      RecursiveCase(samples, attributes, target, gain);
      var tree := Build(samples, attributes, target, gain).value;
      var best := BestAttribute(samples, attributes, target.value, gain);
      var values := DistinctValues(samples, best);
      var rest := Without(attributes, best);
      forall i | 0 <= i < |tree.edges|
        ensures LeavesDrawn(tree.edges[i].1, samples, target.value)
      {
        var sub := Subset(samples, best, values[i]);
        BuildLeaves(sub, rest, target, gain);
        LeavesDrawnWider(tree.edges[i].1, sub, samples, target.value);
      }
    }
  }
}
