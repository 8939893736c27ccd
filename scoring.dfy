/** The score aggregation of `get_prob`: one classifier probability per
    flow raster, summed and counted in a loop, and the video score is
    `optical_prob_sum / count`. Probabilities are exact reals. */
module Scoring {

  /** The exception the final division raises when no raster was scored. */
  datatype Error = ZeroDivisionError

  datatype Result<T> = Success(value: T) | Failure(error: Error)

  /** The running total of the loop: the probabilities added left to right,
      starting from 0; never negative when no probability is. */
  function Sum(ps: seq<real>): real
  {
    if ps == [] then 0.0 else Sum(ps[..|ps| - 1]) + ps[|ps| - 1]
  }

  /** `optical_prob_sum / count`: the arithmetic mean, or the division
      error when there is nothing to average. */
  function Mean(ps: seq<real>): (r: Result<real>)
    ensures r.Failure? <==> ps == []
    ensures r.Success? ==> r.value * |ps| as real == Sum(ps)
  {
    if |ps| == 0 then Failure(ZeroDivisionError) else Success(Sum(ps) / |ps| as real)
  }

  /** The probability the classifier gives each raster of the list, in list
      order. */
  function Probabilities(rasters: seq<string>, classify: string -> real): seq<real>
  {
    seq(|rasters|, i requires 0 <= i < |rasters| => classify(rasters[i]))
  }

  lemma {:induction false} SumConcat(a: seq<real>, b: seq<real>)
    ensures Sum(a + b) == Sum(a) + Sum(b)
  {
    if b == [] {
      assert a + b == a;
    } else {
      assert (a + b)[..|a + b| - 1] == a + b[..|b| - 1];
      SumConcat(a, b[..|b| - 1]);
    }
  }

  /** Taking out the element at position j takes its value off the sum. */
  lemma SumRemove(b: seq<real>, j: nat)
    requires j < |b|
    ensures Sum(b) == Sum(b[..j] + b[j + 1..]) + b[j]
  {
    var front, upTo, back := b[..j], b[..j + 1], b[j + 1..];
    assert b == upTo + back;
    SumConcat(upTo, back);
    assert upTo[..|upTo| - 1] == front && upTo[|upTo| - 1] == b[j];
    assert Sum(upTo) == Sum(front) + b[j];
    SumConcat(front, back);
  }

  /** The sum does not depend on the order of the probabilities. */
  lemma {:induction false} SumPermutation(a: seq<real>, b: seq<real>)
    requires multiset(a) == multiset(b)
    ensures Sum(a) == Sum(b)
  {
    if a == [] {
      assert |multiset(b)| == 0;
    } else {
      var x := a[|a| - 1];
      assert x in multiset(b);
      var j :| 0 <= j < |b| && b[j] == x;
      var rest := b[..j] + b[j + 1..];
      assert b == b[..j] + [x] + b[j + 1..];
      assert multiset(rest) == multiset(b) - multiset{x};
      assert a == a[..|a| - 1] + [x];
      assert multiset(a[..|a| - 1]) == multiset(a) - multiset{x};
      SumPermutation(a[..|a| - 1], rest);
      SumRemove(b, j);
    }
  }

  /** A sum of values in [lo, hi] lies between |ps| * lo and |ps| * hi. */
  lemma {:induction false} SumBounds(ps: seq<real>, lo: real, hi: real)
    requires forall i :: 0 <= i < |ps| ==> lo <= ps[i] <= hi
    ensures |ps| as real * lo <= Sum(ps) <= |ps| as real * hi
  {
    if ps != [] {
      SumBounds(ps[..|ps| - 1], lo, hi);
    }
  }

  /** When every probability lies in [0, 1], as a sigmoid output does, so
      does the video score. */
  lemma MeanInUnitInterval(ps: seq<real>)
    requires ps != []
    requires forall i :: 0 <= i < |ps| ==> 0.0 <= ps[i] <= 1.0
    ensures Mean(ps).Success? && 0.0 <= Mean(ps).value <= 1.0
  {
    SumBounds(ps, 0.0, 1.0);
    var n := |ps| as real;
    var m := Mean(ps).value;
    assert m * n == Sum(ps);
  }

  /** The video score does not depend on the order of the probabilities. */
  lemma MeanPermutation(a: seq<real>, b: seq<real>)
    requires multiset(a) == multiset(b)
    ensures Mean(a) == Mean(b)
  {
    SumPermutation(a, b);
    assert |a| == |multiset(a)| == |multiset(b)| == |b|;
  }

  lemma ProbabilitiesConcat(a: seq<string>, b: seq<string>, classify: string -> real)
    ensures Probabilities(a + b, classify) == Probabilities(a, classify) + Probabilities(b, classify)
  {
  }

  /** Permuting the raster list permutes the probabilities it yields. */
  lemma {:induction false} ProbabilitiesPermutation(a: seq<string>, b: seq<string>, classify: string -> real)
    requires multiset(a) == multiset(b)
    ensures multiset(Probabilities(a, classify)) == multiset(Probabilities(b, classify))
  {
    if a == [] {
      assert |multiset(b)| == 0;
    } else {
      var x := a[|a| - 1];
      assert x in multiset(b);
      var j :| 0 <= j < |b| && b[j] == x;
      var rest := b[..j] + b[j + 1..];
      assert b == b[..j] + [x] + b[j + 1..];
      assert multiset(rest) == multiset(b) - multiset{x};
      assert a == a[..|a| - 1] + [x];
      assert multiset(a[..|a| - 1]) == multiset(a) - multiset{x};
      ProbabilitiesPermutation(a[..|a| - 1], rest, classify);
      ProbabilitiesConcat(a[..|a| - 1], [x], classify);
      ProbabilitiesConcat(b[..j] + [x], b[j + 1..], classify);
      ProbabilitiesConcat(b[..j], [x], classify);
      ProbabilitiesConcat(b[..j], b[j + 1..], classify);
    }
  }

  /** The score of a raster list does not depend on the order the list is
      in, so sorting the listing first does not change it. */
  lemma ScoreIgnoresListingOrder(a: seq<string>, b: seq<string>, classify: string -> real)
    requires multiset(a) == multiset(b)
    ensures Mean(Probabilities(a, classify)) == Mean(Probabilities(b, classify))
  {
    ProbabilitiesPermutation(a, b, classify);
    MeanPermutation(Probabilities(a, classify), Probabilities(b, classify));
  }

  /** The aggregation loop of `get_prob`: for each raster of the list the
      classifier's probability is added to `optical_prob_sum` and `count`
      goes up by one; then the sum is divided by the count, which fails when
      the list is empty. */
  method AverageProbability(opticalFileList: seq<string>, classify: string -> real)
    returns (opticalProbSum: real, count: nat, opticalPredict: Result<real>)
    ensures count == |opticalFileList|
    ensures opticalProbSum == Sum(Probabilities(opticalFileList, classify))
    ensures opticalPredict == Mean(Probabilities(opticalFileList, classify))
  {
    opticalProbSum := 0.0;
    count := 0;
    for i := 0 to |opticalFileList|
      invariant count == i
      invariant opticalProbSum == Sum(Probabilities(opticalFileList[..i], classify))
    {
      var prob := classify(opticalFileList[i]);
      assert Probabilities(opticalFileList[..i + 1], classify)[..i] == Probabilities(opticalFileList[..i], classify);
      opticalProbSum := opticalProbSum + prob;
      count := count + 1;
    }
    assert opticalFileList[..|opticalFileList|] == opticalFileList;
    if count == 0 {
      opticalPredict := Failure(ZeroDivisionError);
    } else {
      opticalPredict := Success(opticalProbSum / count as real);
    }
  }
}
