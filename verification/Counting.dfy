/** Sums over a sequence. */
module Counting {
  function Total<T>(xs: seq<T>, weigh: T -> int): int {
    if xs == [] then 0 else weigh(xs[0]) + Total(xs[1..], weigh)
  }

  lemma {:induction false} TotalUpdate<T>(xs: seq<T>, i: nat, x: T, weigh: T -> int)
    requires i < |xs|
    ensures Total(xs[i := x], weigh) == Total(xs, weigh) - weigh(xs[i]) + weigh(x)
  {
    if i > 0 {
      TotalUpdate(xs[1..], i - 1, x, weigh);
      assert xs[i := x][1..] == xs[1..][i - 1 := x];
    } else {
      assert xs[i := x][1..] == xs[1..];
    }
  }

  lemma {:induction false} TotalAppend<T>(xs: seq<T>, x: T, weigh: T -> int)
    ensures Total(xs + [x], weigh) == Total(xs, weigh) + weigh(x)
  {
    if xs != [] {
      TotalAppend(xs[1..], x, weigh);
      assert (xs + [x])[1..] == xs[1..] + [x];
    } else {
      assert (xs + [x])[1..] == [];
    }
  }

  /** At most one of each: a total of zeros and ones. */
  lemma {:induction false} TotalBound<T>(xs: seq<T>, weigh: T -> int)
    requires forall x :: 0 <= weigh(x) <= 1
    ensures 0 <= Total(xs, weigh) <= |xs|
    ensures Total(xs, weigh) == 0 <==> forall i :: 0 <= i < |xs| ==> weigh(xs[i]) == 0
  {
    if xs != [] {
      TotalBound(xs[1..], weigh);
      if forall i :: 0 <= i < |xs| ==> weigh(xs[i]) == 0 {
        forall i | 0 <= i < |xs| - 1 ensures weigh(xs[1..][i]) == 0 {
          assert xs[1..][i] == xs[i + 1];
        }
      } else {
        var i :| 0 <= i < |xs| && weigh(xs[i]) != 0;
        assert i > 0 ==> xs[1..][i - 1] == xs[i];
      }
    }
  }
}
