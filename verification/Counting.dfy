/** Counting the threads of a system that are in a given place. */
module Counting {
  /** The sum of the weights of all elements. */
  function Total<T>(xs: seq<T>, weight: T -> nat): nat
  {
    if xs == [] then 0 else Total(xs[..|xs| - 1], weight) + weight(xs[|xs| - 1])
  }

  lemma {:induction false} TotalUpdate<T>(xs: seq<T>, i: nat, x: T, weight: T -> nat)
    requires i < |xs|
    ensures Total(xs[i := x], weight) + weight(xs[i]) == Total(xs, weight) + weight(x)
  {
    var n := |xs| - 1;
    if i == n {
      assert xs[i := x][..n] == xs[..n];
    } else {
      assert xs[i := x][..n] == xs[..n][i := x];
      TotalUpdate(xs[..n], i, x, weight);
    }
  }

  lemma {:induction false} TotalAtLeast<T>(xs: seq<T>, i: nat, weight: T -> nat)
    requires i < |xs|
    ensures Total(xs, weight) >= weight(xs[i])
  {
    if i < |xs| - 1 {
      TotalAtLeast(xs[..|xs| - 1], i, weight);
    }
  }

  lemma {:induction false} TotalAtLeastTwo<T>(xs: seq<T>, i: nat, j: nat, weight: T -> nat)
    requires i < j < |xs|
    ensures Total(xs, weight) >= weight(xs[i]) + weight(xs[j])
  {
    if j < |xs| - 1 {
      TotalAtLeastTwo(xs[..|xs| - 1], i, j, weight);
    } else {
      TotalAtLeast(xs[..j], i, weight);
    }
  }

  lemma {:induction false} TotalAtMost<T>(xs: seq<T>, weight: T -> nat)
    requires forall i :: 0 <= i < |xs| ==> weight(xs[i]) <= 1
    ensures Total(xs, weight) <= |xs|
  {
    if xs != [] {
      TotalAtMost(xs[..|xs| - 1], weight);
    }
  }

  /** A total that is not zero has a source. */
  lemma {:induction false} TotalSource<T>(xs: seq<T>, weight: T -> nat) returns (i: nat)
    requires Total(xs, weight) > 0
    ensures i < |xs| && weight(xs[i]) > 0
  {
    if weight(xs[|xs| - 1]) > 0 {
      i := |xs| - 1;
    } else {
      i := TotalSource(xs[..|xs| - 1], weight);
    }
  }

  lemma {:induction false} TotalZero<T>(xs: seq<T>, weight: T -> nat)
    requires forall i :: 0 <= i < |xs| ==> weight(xs[i]) == 0
    ensures Total(xs, weight) == 0
  {
    if xs != [] {
      TotalZero(xs[..|xs| - 1], weight);
    }
  }
}
