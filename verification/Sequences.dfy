/** Facts about sequences that several of the models share. */
module Sequences {

  ghost predicate NoDup<T(!new)>(xs: seq<T>) {
    forall i, j :: 0 <= i < j < |xs| ==> xs[i] != xs[j]
  }

  /** `xs` without the element at position `k`. */
  function EraseAt<T>(xs: seq<T>, k: nat): seq<T>
    requires k < |xs|
  {
    xs[..k] + xs[k + 1..]
  }

  lemma EraseAtKeepsTheRest<T(!new)>(xs: seq<T>, k: nat)
    requires k < |xs| && NoDup(xs)
    ensures NoDup(EraseAt(xs, k))
    ensures forall x :: x in EraseAt(xs, k) <==> x in xs && x != xs[k]
  {
    var ys := EraseAt(xs, k);
    forall x
      ensures x in ys <==> x in xs && x != xs[k]
    {
      if x in xs && x != xs[k] {
        var i :| 0 <= i < |xs| && xs[i] == x;
        assert ys[if i < k then i else i - 1] == x;
      }
    }
  }

  /** The last position of `x` in `xs`, or `-1`. */
  function LastIndexOf<T(==)>(xs: seq<T>, x: T): (k: int)
    ensures -1 <= k < |xs|
    ensures k >= 0 ==> xs[k] == x
    ensures forall i :: k < i < |xs| ==> xs[i] != x
  {
    if xs == [] then -1
    else if xs[|xs| - 1] == x then |xs| - 1
    else LastIndexOf(xs[..|xs| - 1], x)
  }

  /** The first position of an element of `xs`. */
  function FirstIndexOf<T(==)>(xs: seq<T>, x: T): (k: nat)
    requires x in xs
    ensures k < |xs| && xs[k] == x
    ensures forall i :: 0 <= i < k ==> xs[i] != x
  {
    if xs[0] == x then 0 else 1 + FirstIndexOf(xs[1..], x)
  }

  lemma {:induction false} NoDupCountsOnce<T(!new)>(xs: seq<T>, x: T)
    requires NoDup(xs)
    ensures multiset(xs)[x] == if x in xs then 1 else 0
  {
    if xs != [] {
      var init := xs[..|xs| - 1];
      assert xs == init + [xs[|xs| - 1]];
      NoDupCountsOnce(init, x);
    }
  }

  /** Pigeonhole: distinct values below `n` fill at most `n` positions. */
  lemma {:induction false} DistinctBelow(xs: seq<int>, n: nat)
    requires NoDup(xs)
    requires forall x :: x in xs ==> 0 <= x < n
    ensures |xs| <= n
  {
    forall i | 0 <= i < |xs|
      ensures 0 <= xs[i] < n
    {
      var x := xs[i];
      assert x in xs;
    }
    if n == 0 {
      if |xs| > 0 {
        assert false;
      }
    } else {
      var k := LastIndexOf(xs, n - 1);
      if k < 0 {
        DistinctBelow(xs, n - 1);
      } else {
        EraseAtKeepsTheRest(xs, k);
        DistinctBelow(EraseAt(xs, k), n - 1);
      }
    }
  }
}
