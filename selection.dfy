/** Choosing the attribute to split on. The information gain itself is
    floating-point arithmetic over logarithms; it enters the model as an
    uninterpreted scoring function, so only the selection and its tie-break
    are modelled. */
module Selection {
  import opened Seqs
  import opened Samples

  /** `gain(samples, attribute, targetAttribute)`. */
  type Gain<!V> = (seq<Sample<V>>, Attribute, Attribute) -> real

  /** `max` over `scores[..n]`: a left-to-right scan that replaces the
      current best only by a strictly greater score, so the first maximum
      is kept. */
  function MaxIndex(scores: seq<real>, n: nat): (k: nat)
    requires 0 < n <= |scores|
    ensures k < n
    ensures forall j :: 0 <= j < n ==> scores[j] <= scores[k]
    ensures forall j :: 0 <= j < k ==> scores[j] < scores[k]
  {
    if n == 1 then 0
    else
      var k := MaxIndex(scores, n - 1);
      if scores[n - 1] > scores[k] then n - 1 else k
  }

  /** `bestAttribute`: a candidate whose gain no other candidate exceeds;
      among candidates tying for the maximum, the first-listed one. */
  function BestAttribute<V>(samples: seq<Sample<V>>, attributes: seq<Attribute>, target: Attribute,
                            gain: Gain<V>): (best: Attribute)
    requires attributes != []
    ensures best in attributes
    ensures forall j :: 0 <= j < |attributes| ==> gain(samples, attributes[j], target) <= gain(samples, best, target)
    ensures forall j :: 0 <= j < |attributes| && gain(samples, attributes[j], target) == gain(samples, best, target) ==>
              FirstIndex(attributes, best) <= j
  {
    var gains := seq(|attributes|, i requires 0 <= i < |attributes| => gain(samples, attributes[i], target));
    var k := MaxIndex(gains, |gains|);
    assert forall j :: 0 <= j < |attributes| ==> gains[j] == gain(samples, attributes[j], target);
    attributes[k]
  }
}
