/** Sequence operations the learner takes from its utility library:
    de-duplication in first-occurrence order (`uniq`) and removal of every
    copy of an element (`without`). */
module Seqs {

  /** No element occurs twice. */
  ghost predicate NoDuplicates<T>(xs: seq<T>) {
    forall i, j :: 0 <= i < j < |xs| ==> xs[i] != xs[j]
  }

  /** The set of elements of a sequence. */
  ghost function Elems<T>(xs: seq<T>): set<T> {
    set x | x in xs
  }

  /** The position of the first occurrence of `x` in `xs`. */
  ghost function FirstIndex<T>(xs: seq<T>, x: T): (k: nat)
    requires x in xs
    ensures k < |xs| && xs[k] == x && x !in xs[..k]
  {
    if xs[0] == x then 0
    else
      var k := FirstIndex(xs[1..], x);
      assert xs[..k + 1] == [xs[0]] + xs[1..][..k];
      k + 1
  }

  /** The first occurrence is the only position before which `x` does not occur. */
  lemma FirstIndexUnique<T>(xs: seq<T>, x: T, k: nat)
    requires k < |xs| && xs[k] == x && x !in xs[..k]
    ensures FirstIndex(xs, x) == k
  {
  }

  /** Extending a sequence does not move the first occurrence of an element
      that already occurs in the prefix. */
  lemma FirstIndexOfPrefix<T>(xs: seq<T>, n: nat)
    requires n <= |xs|
    ensures forall y :: y in xs[..n] ==> FirstIndex(xs, y) == FirstIndex(xs[..n], y)
  {
    forall y | y in xs[..n]
      ensures FirstIndex(xs, y) == FirstIndex(xs[..n], y)
    {
      var k := FirstIndex(xs[..n], y);
      assert xs[..n][..k] == xs[..k];
      FirstIndexUnique(xs, y, k);
    }
  }

  /** `uniq`: every element once, kept at its first occurrence. */
  function Uniq<T(==)>(xs: seq<T>): (r: seq<T>)
    ensures NoDuplicates(r)
    ensures forall i :: 0 <= i < |r| ==> r[i] in xs
    ensures forall i :: 0 <= i < |xs| ==> xs[i] in r
  {
    if xs == [] then []
    else
      var init, last := xs[..|xs| - 1], xs[|xs| - 1];
      assert xs == init + [last];
      var r := Uniq(init);
      if last in r then r else r + [last]
  }

  /** `uniq` lists the elements in the order of their first occurrences. */
  lemma {:induction false} UniqOrder<T>(xs: seq<T>)
    ensures forall i, j :: 0 <= i < j < |Uniq(xs)| ==> FirstIndex(xs, Uniq(xs)[i]) < FirstIndex(xs, Uniq(xs)[j])
  {
    if xs != [] {
      var init, last := xs[..|xs| - 1], xs[|xs| - 1];
      assert xs == init + [last];
      var r := Uniq(init);
      UniqOrder(init);
      FirstIndexOfPrefix(xs, |xs| - 1);
      if last in r {
        assert Uniq(xs) == r;
        forall i, j | 0 <= i < j < |r|
          ensures FirstIndex(xs, r[i]) < FirstIndex(xs, r[j])
        {
          assert FirstIndex(init, r[i]) < FirstIndex(init, r[j]);
          assert FirstIndex(xs, r[i]) == FirstIndex(init, r[i]);
          assert FirstIndex(xs, r[j]) == FirstIndex(init, r[j]);
        }
      } else {
        FirstIndexUnique(xs, last, |xs| - 1);
        var r' := r + [last];
        assert Uniq(xs) == r';
        forall i, j | 0 <= i < j < |r'|
          ensures FirstIndex(xs, r'[i]) < FirstIndex(xs, r'[j])
        {
          assert r'[i] == r[i] && r[i] in init;
          assert FirstIndex(xs, r[i]) == FirstIndex(init, r[i]) < |init|;
          if j < |r| {
            assert r'[j] == r[j] && r[j] in init;
            assert FirstIndex(init, r[i]) < FirstIndex(init, r[j]);
            assert FirstIndex(xs, r[j]) == FirstIndex(init, r[j]);
          } else {
            assert r'[j] == last && FirstIndex(xs, last) == |init|;
          }
        }
      }
    }
  }

  /** `without`: the sequence with every copy of `x` removed, order kept. */
  function Without<T(==)>(xs: seq<T>, x: T): (r: seq<T>)
    ensures forall i :: 0 <= i < |r| ==> r[i] in xs && r[i] != x
    ensures forall i :: 0 <= i < |xs| && xs[i] != x ==> xs[i] in r
    ensures |r| <= |xs|
    ensures x in xs ==> |r| < |xs|
    ensures x !in xs ==> r == xs
  {
    if xs == [] then []
    else if xs[0] == x then Without(xs[1..], x)
    else [xs[0]] + Without(xs[1..], x)
  }

  /** Removing from a concatenation removes from each part and keeps them in
      order: with the one-element case this fixes the result, every copy of
      the other elements kept in place. */
  lemma {:induction false} WithoutConcat<T>(xs: seq<T>, ys: seq<T>, x: T)
    ensures Without(xs + ys, x) == Without(xs, x) + Without(ys, x)
  {
    if xs != [] {
      assert (xs + ys)[0] == xs[0];
      assert (xs + ys)[1..] == xs[1..] + ys;
      WithoutConcat(xs[1..], ys, x);
    } else {
      assert xs + ys == ys;
    }
  }

  /** Removing an element from a duplicate-free list keeps it duplicate-free
      and, when the element occurs, shortens it by exactly one. */
  lemma {:induction false} WithoutDistinct<T>(xs: seq<T>, x: T)
    requires NoDuplicates(xs)
    ensures NoDuplicates(Without(xs, x))
    ensures x in xs ==> |Without(xs, x)| == |xs| - 1
  {
    if xs != [] {
      assert xs[0] !in xs[1..];
      WithoutDistinct(xs[1..], x);
    }
  }

  /** Removing `x` removes exactly `x` from the elements. */
  lemma ElemsWithout<T>(xs: seq<T>, x: T)
    ensures Elems(Without(xs, x)) == Elems(xs) - {x}
  {
    var r := Without(xs, x);
    forall y | y in Elems(xs) - {x} ensures y in Elems(r) {
      var i :| 0 <= i < |xs| && xs[i] == y;
    }
  }

  /** A sequence has at least as many positions as distinct elements. */
  lemma {:induction false} ElemsSize<T>(xs: seq<T>)
    ensures |Elems(xs)| <= |xs|
  {
    if xs != [] {
      ElemsSize(xs[1..]);
      assert Elems(xs) == {xs[0]} + Elems(xs[1..]);
    }
  }
}
