/** Samples (observations), the values they hold, and the two operations the
    learner performs on a sample set: listing an attribute's distinct values
    and filtering the samples that hold one of them. */
module Samples {
  import opened Seqs

  /** An attribute name: a key of a sample. */
  type Attribute = string

  /** What reading an attribute of a sample yields: the stored value, or
      `undefined` when the sample has no such key. */
  datatype Value<V> = Undefined | Defined(v: V)

  /** A sample: a mapping from attribute names to values. */
  type Sample<V> = map<Attribute, V>

  /** `sample[attribute]`. */
  function Lookup<V>(s: Sample<V>, a: Attribute): (r: Value<V>)
    ensures r.Defined? <==> a in s
    ensures r.Defined? ==> r.v == s[a]
  {
    if a in s then Defined(s[a]) else Undefined
  }

  /** The attribute's value in every sample, in sample order. */
  function Column<V>(samples: seq<Sample<V>>, a: Attribute): (col: seq<Value<V>>)
    ensures |col| == |samples|
    ensures forall i :: 0 <= i < |samples| ==> col[i] == Lookup(samples[i], a)
  {
    if samples == [] then [] else [Lookup(samples[0], a)] + Column(samples[1..], a)
  }

  /** A value occurs in a column exactly when some sample holds it. */
  lemma InColumn<V>(samples: seq<Sample<V>>, a: Attribute, v: Value<V>)
    ensures v in Column(samples, a) <==> exists s :: s in samples && Lookup(s, a) == v
  {
    var col := Column(samples, a);
    if v in col {
      var i :| 0 <= i < |col| && col[i] == v;
      assert samples[i] in samples;
    }
  }

  /** `extractDistinctValues`: the distinct values of attribute `a` across
      the samples, each once, in the order of their first occurrence. */
  function DistinctValues<V(==)>(samples: seq<Sample<V>>, a: Attribute): (r: seq<Value<V>>)
    ensures NoDuplicates(r)
    ensures forall i :: 0 <= i < |r| ==> exists s :: s in samples && Lookup(s, a) == r[i]
    ensures forall s :: s in samples ==> Lookup(s, a) in r
    ensures forall i, j :: 0 <= i < j < |r| ==>
              FirstIndex(Column(samples, a), r[i]) < FirstIndex(Column(samples, a), r[j])
  {
    var col := Column(samples, a);
    var r := Uniq(col);
    UniqOrder(col);
    forall i | 0 <= i < |r| ensures exists s :: s in samples && Lookup(s, a) == r[i] {
      InColumn(samples, a, r[i]);
    }
    forall s | s in samples ensures Lookup(s, a) in r {
      var k :| 0 <= k < |samples| && samples[k] == s;
      assert col[k] == Lookup(s, a);
    }
    r
  }

  /** The filter `sample[a] === v`: the samples holding `v` for `a`, every
      copy kept, in sample order. */
  function Subset<V(==)>(samples: seq<Sample<V>>, a: Attribute, v: Value<V>): (r: seq<Sample<V>>)
    ensures forall s :: s in r ==> s in samples && Lookup(s, a) == v
    ensures forall s :: s in samples && Lookup(s, a) == v ==> s in r
    ensures |r| <= |samples|
  {
    if samples == [] then []
    else
      assert samples == [samples[0]] + samples[1..];
      if Lookup(samples[0], a) == v then [samples[0]] + Subset(samples[1..], a, v)
      else Subset(samples[1..], a, v)
  }

  /** Filtering a concatenation filters each part and keeps them in order:
      with the one-sample case this fixes the result, order included. */
  lemma {:induction false} SubsetConcat<V>(xs: seq<Sample<V>>, ys: seq<Sample<V>>, a: Attribute, v: Value<V>)
    ensures Subset(xs + ys, a, v) == Subset(xs, a, v) + Subset(ys, a, v)
  {
    if xs != [] {
      assert (xs + ys)[0] == xs[0];
      assert (xs + ys)[1..] == xs[1..] + ys;
      SubsetConcat(xs[1..], ys, a, v);
    } else {
      assert xs + ys == ys;
    }
  }

  /** The filter keeps every copy of a matching sample and nothing else. */
  lemma {:induction false} SubsetCounts<V>(samples: seq<Sample<V>>, a: Attribute, v: Value<V>, s: Sample<V>)
    ensures multiset(Subset(samples, a, v))[s] == if Lookup(s, a) == v then multiset(samples)[s] else 0
  {
    if samples != [] {
      assert samples == [samples[0]] + samples[1..];
      SubsetCounts(samples[1..], a, v, s);
    }
  }

  /** `isPure`: the samples have exactly one distinct target value. On a
      non-empty set that is the same as every sample sharing the first
      sample's target value. */
  predicate IsPure<V(==)>(samples: seq<Sample<V>>, target: Attribute): (pure: bool)
    ensures samples != [] ==>
              (pure <==> forall s :: s in samples ==> Lookup(s, target) == Lookup(samples[0], target))
  {
    PureMeansShared(samples, target);
    |DistinctValues(samples, target)| == 1
  }

  lemma PureMeansShared<V>(samples: seq<Sample<V>>, target: Attribute)
    ensures samples != [] ==>
              (|DistinctValues(samples, target)| == 1 <==>
                 forall s :: s in samples ==> Lookup(s, target) == Lookup(samples[0], target))
  {
    if samples == [] { return; }
    var d := DistinctValues(samples, target);
    var x := Lookup(samples[0], target);
    assert samples[0] in samples;
    assert x in d;
    if |d| == 1 {
      forall s | s in samples ensures Lookup(s, target) == x {
        assert Lookup(s, target) in d;
      }
    } else {
      var s0 :| s0 in samples && Lookup(s0, target) == d[0];
      var s1 :| s1 in samples && Lookup(s1, target) == d[1];
      assert d[0] != d[1];
    }
  }

  /** The summed sizes of the subsets for the values `vs`. */
  function SubsetSizes<V(==)>(samples: seq<Sample<V>>, a: Attribute, vs: seq<Value<V>>): nat {
    if vs == [] then 0 else |Subset(samples, a, vs[0])| + SubsetSizes(samples, a, vs[1..])
  }

  /** An element of a duplicate-free sequence occurs in it exactly once. */
  lemma {:induction false} OccursOnce<T>(vs: seq<T>, x: T)
    requires NoDuplicates(vs) && x in vs
    ensures multiset(vs)[x] == 1
  {
    assert vs == [vs[0]] + vs[1..];
    if vs[0] == x {
      assert x !in vs[1..];
    } else {
      OccursOnce(vs[1..], x);
    }
  }

  /** Adding one sample in front adds it to exactly the subsets of the values
      equal to its own. */
  lemma {:induction false} SubsetSizesCons<V>(s0: Sample<V>, rest: seq<Sample<V>>, a: Attribute, vs: seq<Value<V>>)
    ensures SubsetSizes([s0] + rest, a, vs) == SubsetSizes(rest, a, vs) + multiset(vs)[Lookup(s0, a)]
  {
    if vs != [] {
      assert ([s0] + rest)[1..] == rest;
      assert vs == [vs[0]] + vs[1..];
      SubsetSizesCons(s0, rest, a, vs[1..]);
    }
  }

  /** Subsets for a duplicate-free list of values covering every sample add
      up to the whole sample set. */
  lemma {:induction false} SubsetSizesCover<V>(samples: seq<Sample<V>>, a: Attribute, vs: seq<Value<V>>)
    requires NoDuplicates(vs)
    requires forall s :: s in samples ==> Lookup(s, a) in vs
    ensures SubsetSizes(samples, a, vs) == |samples|
  {
    if samples == [] {
      NoSubsetSizes(a, vs);
    } else {
      assert samples == [samples[0]] + samples[1..];
      SubsetSizesCons(samples[0], samples[1..], a, vs);
      OccursOnce(vs, Lookup(samples[0], a));
      SubsetSizesCover(samples[1..], a, vs);
    }
  }

  lemma {:induction false} NoSubsetSizes<V>(a: Attribute, vs: seq<Value<V>>)
    ensures SubsetSizes([], a, vs) == 0
  {
    if vs != [] {
      NoSubsetSizes(a, vs[1..]);
    }
  }

  /** The subsets built for the distinct values of `a`, one per value, form a
      partition of the samples: each is non-empty, no sample lies in two of
      them, every sample lies in one, and their sizes add up to the number of
      samples. */
  lemma Partition<V>(samples: seq<Sample<V>>, a: Attribute)
    ensures var vs := DistinctValues(samples, a);
      && (forall i :: 0 <= i < |vs| ==> |Subset(samples, a, vs[i])| > 0)
      && (forall i, j, s :: 0 <= i < j < |vs| && s in Subset(samples, a, vs[i]) ==>
            s !in Subset(samples, a, vs[j]))
      && (forall s :: s in samples ==> exists i :: 0 <= i < |vs| && s in Subset(samples, a, vs[i]))
      && SubsetSizes(samples, a, vs) == |samples|
  {
    var vs := DistinctValues(samples, a);
    forall i | 0 <= i < |vs| ensures |Subset(samples, a, vs[i])| > 0 {
      var s :| s in samples && Lookup(s, a) == vs[i];
      assert s in Subset(samples, a, vs[i]);
    }
    forall s | s in samples ensures exists i :: 0 <= i < |vs| && s in Subset(samples, a, vs[i]) {
      var i :| 0 <= i < |vs| && vs[i] == Lookup(s, a);
      assert s in Subset(samples, a, vs[i]);
    }
    SubsetSizesCover(samples, a, vs);
  }
}
