/**
 * The dispersion-weighted mean at the end of `SelectBestTime` (internal/timesync/selection.go).
 * Dispersions and weights are reals; float rounding is not modelled.
 */
module TimeMean {
  import opened Common

  const DISPERSION_FLOOR: real := 0.0001

  type int64 = x: int | -0x8000_0000_0000_0000 <= x < 0x8000_0000_0000_0000

  datatype Source = Source(id: string, timestamp: int64, receivedAt: int, stratum: int, dispersion: real)

  /** Result of `SelectBestTime`.  `Unspecified` is a success whose time Go does not define: a divisor
      of the weighted mean is zero, or the quotient does not fit int64. */
  datatype Outcome =
    | TooFewSources
    | TooFewUsable
    | Disagree
    | Unspecified(sourceCount: nat)
    | Selected(sourceCount: nat, bestTime: int)

  // ----- the mean -----

  function Denominator(s: Source): real {
    s.dispersion + DISPERSION_FLOOR
  }

  function Weight(s: Source): real
    requires Denominator(s) != 0.0
  {
    1.0 / Denominator(s)
  }

  predicate Weighable(ss: seq<Source>) {
    forall s :: s in ss ==> Denominator(s) != 0.0
  }

  /** Positive weights: what the mean needs in order to stay inside the hull of its inputs.  The
      filter only rejects dispersions above 1.0, so it does not follow from `Usable`. */
  predicate PositiveWeights(ss: seq<Source>) {
    forall s :: s in ss ==> Denominator(s) > 0.0
  }

  function TotalWeight(ss: seq<Source>): real
    requires Weighable(ss)
  {
    if ss == [] then 0.0 else TotalWeight(ss[..|ss| - 1]) + Weight(ss[|ss| - 1])
  }

  function WeightedTime(ss: seq<Source>): real
    requires Weighable(ss)
  {
    if ss == [] then 0.0
    else WeightedTime(ss[..|ss| - 1]) + ss[|ss| - 1].timestamp as real * Weight(ss[|ss| - 1])
  }

  /** Go's float-to-integer conversion truncates toward zero. */
  function Trunc(x: real): int {
    if x >= 0.0 then x.Floor else -((-x).Floor)
  }

  function MeanOutcome(c: seq<Source>): Outcome {
    if !Weighable(c) || TotalWeight(c) == 0.0 then Unspecified(|c|)
    else ToInt64(|c|, WeightedTime(c) / TotalWeight(c))
  }

  function ToInt64(n: nat, q: real): Outcome {
    if -TWO_63 <= Trunc(q) < TWO_63 then Selected(n, Trunc(q)) else Unspecified(n)
  }

  /** The accumulating loop at the end of `SelectBestTime`. */
  method WeightedMean(valid: seq<Source>) returns (r: Outcome)
    ensures r == MeanOutcome(valid)
  {
    var weightedTime, totalWeight := 0.0, 0.0;
    for i := 0 to |valid|
      invariant Weighable(valid[..i])
      invariant weightedTime == WeightedTime(valid[..i])
      invariant totalWeight == TotalWeight(valid[..i])
    {
      assert valid[..i + 1][..i] == valid[..i];
      if Denominator(valid[i]) == 0.0 {
        return Unspecified(|valid|);
      }
      var weight := 1.0 / (valid[i].dispersion + DISPERSION_FLOOR);
      weightedTime := weightedTime + valid[i].timestamp as real * weight;
      totalWeight := totalWeight + weight;
    }
    assert valid[..|valid|] == valid;
    if totalWeight == 0.0 {
      return Unspecified(|valid|);
    }
    return ToInt64(|valid|, weightedTime / totalWeight);
  }

  // ----- the order of the sources does not matter -----

  lemma SameMultisetSameLength(a: seq<Source>, b: seq<Source>)
    requires multiset(a) == multiset(b)
    ensures |a| == |b|
    ensures forall s :: s in a <==> s in b
  {
    assert |multiset(a)| == |a| && |multiset(b)| == |b|;
    assert forall s :: s in a <==> s in multiset(a);
    assert forall s :: s in b <==> s in multiset(b);
  }

  lemma {:induction false} SumsConcat(a: seq<Source>, b: seq<Source>)
    requires Weighable(a + b)
    ensures Weighable(a) && Weighable(b)
    ensures TotalWeight(a + b) == TotalWeight(a) + TotalWeight(b)
    ensures WeightedTime(a + b) == WeightedTime(a) + WeightedTime(b)
  {
    assert forall s :: s in a || s in b ==> s in a + b;
    if b == [] {
      assert a + b == a;
    } else {
      var n := |b| - 1;
      assert (a + b)[..|a + b| - 1] == a + b[..n];
      SumsConcat(a, b[..n]);
    }
  }

  lemma SumsRemove(front: seq<Source>, x: Source, back: seq<Source>)
    requires Weighable(front + [x] + back)
    ensures Weighable(front + back) && Weighable([x])
    ensures TotalWeight(front + [x] + back) == TotalWeight(front + back) + Weight(x)
    ensures WeightedTime(front + [x] + back) == WeightedTime(front + back) + x.timestamp as real * Weight(x)
  {
    SumsConcat(front + [x], back);
    assert Weighable(front + [x]);
    SumsConcat(front, [x]);
    assert Weighable(front) && Weighable(back);
    assert Weighable(front + back);
    SumsConcat(front, back);
    SumsSingle(x);
  }

  lemma SumsSingle(x: Source)
    requires Weighable([x])
    ensures Denominator(x) != 0.0
    ensures TotalWeight([x]) == Weight(x)
    ensures WeightedTime([x]) == x.timestamp as real * Weight(x)
  {
    assert x in [x];
    assert [x][..0] == [];
  }

  lemma MultisetRemove(a: seq<Source>, front: seq<Source>, x: Source, back: seq<Source>)
    requires multiset(a) + multiset{x} == multiset(front + [x] + back)
    ensures multiset(a) == multiset(front + back)
  {
    assert multiset(front + [x] + back) == multiset(front + back) + multiset{x};
    assert multiset(a) == multiset(a) + multiset{x} - multiset{x};
    assert multiset(front + back) == multiset(front + back) + multiset{x} - multiset{x};
  }

  lemma RemoveMatching(a: seq<Source>, b: seq<Source>) returns (front: seq<Source>, back: seq<Source>)
    requires multiset(a) == multiset(b) && a != []
    ensures b == front + [a[|a| - 1]] + back
    ensures multiset(a[..|a| - 1]) == multiset(front + back)
  {
    SameMultisetSameLength(a, b);
    var x := a[|a| - 1];
    assert x in b;
    var k :| 0 <= k < |b| && b[k] == x;
    front, back := b[..k], b[k + 1..];
    assert a == a[..|a| - 1] + [x];
    assert b == front + [x] + back;
    MultisetRemove(a[..|a| - 1], front, x, back);
  }

  lemma {:induction false} SameMultisetSameSums(a: seq<Source>, b: seq<Source>)
    requires multiset(a) == multiset(b) && Weighable(a) && Weighable(b)
    ensures TotalWeight(a) == TotalWeight(b) && WeightedTime(a) == WeightedTime(b)
    decreases |a|
  {
    if a == [] {
      SameMultisetSameLength(a, b);
    } else {
      var front, back := RemoveMatching(a, b);
      SumsRemove(front, a[|a| - 1], back);
      SameMultisetSameSums(a[..|a| - 1], front + back);
    }
  }

  lemma SameMultisetSameMean(a: seq<Source>, b: seq<Source>)
    requires multiset(a) == multiset(b)
    ensures MeanOutcome(a) == MeanOutcome(b)
  {
    SameMultisetSameLength(a, b);
    if Weighable(a) {
      assert Weighable(b);
      SameMultisetSameSums(a, b);
    }
  }

  // ----- the mean stays inside the hull -----

  lemma SumsSnoc(front: seq<Source>, x: Source)
    requires Weighable(front) && Denominator(x) != 0.0
    ensures Weighable(front + [x])
    ensures TotalWeight(front + [x]) == TotalWeight(front) + Weight(x)
    ensures WeightedTime(front + [x]) == WeightedTime(front) + x.timestamp as real * Weight(x)
  {
    assert (front + [x])[..|front|] == front;
  }

  lemma PositiveWeight(x: Source)
    requires Denominator(x) > 0.0
    ensures Weight(x) > 0.0
  {
    var d := Denominator(x);
    assert 1.0 / d * d == 1.0;
  }

  lemma {:induction false} TotalWeightPositive(c: seq<Source>)
    requires PositiveWeights(c)
    ensures Weighable(c)
    ensures if c == [] then TotalWeight(c) == 0.0 else TotalWeight(c) > 0.0
  {
    if c != [] {
      TotalWeightPositive(c[..|c| - 1]);
      PositiveWeight(c[|c| - 1]);
    }
  }

  /** The weighted sum if every source were stamped `k`. */
  function Uniform(c: seq<Source>, k: real): real
    requires Weighable(c)
  {
    if c == [] then 0.0 else Uniform(c[..|c| - 1], k) + k * Weight(c[|c| - 1])
  }

  lemma {:induction false} UniformIsProduct(c: seq<Source>, k: real)
    requires Weighable(c)
    ensures Uniform(c, k) == k * TotalWeight(c)
  {
    if c != [] {
      var front, w := c[..|c| - 1], Weight(c[|c| - 1]);
      UniformIsProduct(front, k);
      Distribute(k, TotalWeight(front), w);
    }
  }

  lemma Distribute(k: real, a: real, b: real)
    ensures k * (a + b) == k * a + k * b
  {
  }

  lemma ScaleOrder(a: real, b: real, w: real)
    requires a <= b && w > 0.0
    ensures a * w <= b * w
  {
  }

  lemma TermOrder(x: Source, a: real, b: real)
    requires Denominator(x) > 0.0 && a <= b
    ensures a * Weight(x) <= b * Weight(x)
  {
    PositiveWeight(x);
    ScaleOrder(a, b, Weight(x));
  }

  function Sum(xs: seq<real>): real {
    if xs == [] then 0.0 else Sum(xs[..|xs| - 1]) + xs[|xs| - 1]
  }

  lemma {:induction false} SumOrder(xs: seq<real>, ys: seq<real>)
    requires |xs| == |ys| && forall i :: 0 <= i < |xs| ==> xs[i] <= ys[i]
    ensures Sum(xs) <= Sum(ys)
  {
    if xs != [] {
      SumOrder(xs[..|xs| - 1], ys[..|ys| - 1]);
    }
  }

  /** The source's share of the weighted sum, were it stamped `k`. */
  function Share(x: Source, k: real): real
    requires Denominator(x) != 0.0
  {
    k * Weight(x)
  }

  function Shares(c: seq<Source>, ks: seq<real>): (r: seq<real>)
    requires Weighable(c) && |ks| == |c|
    ensures |r| == |c| && forall i :: 0 <= i < |c| ==> r[i] == Share(c[i], ks[i])
  {
    seq(|c|, i requires 0 <= i < |c| => Share(c[i], ks[i]))
  }

  function Stamps(c: seq<Source>): seq<real> {
    seq(|c|, i requires 0 <= i < |c| => c[i].timestamp as real)
  }

  function Same(n: nat, k: real): seq<real> {
    seq(n, i => k)
  }

  lemma {:induction false} WeightedTimeIsSum(c: seq<Source>)
    requires Weighable(c)
    ensures WeightedTime(c) == Sum(Shares(c, Stamps(c)))
  {
    if c != [] {
      var front := c[..|c| - 1];
      WeightedTimeIsSum(front);
      assert Shares(c, Stamps(c))[..|c| - 1] == Shares(front, Stamps(front));
    }
  }

  lemma {:induction false} UniformIsSum(c: seq<Source>, k: real)
    requires Weighable(c)
    ensures Uniform(c, k) == Sum(Shares(c, Same(|c|, k)))
  {
    if c != [] {
      var front := c[..|c| - 1];
      UniformIsSum(front, k);
      assert Shares(c, Same(|c|, k))[..|c| - 1] == Shares(front, Same(|front|, k));
    }
  }

  lemma SharesOrder(c: seq<Source>, ks: seq<real>, ls: seq<real>)
    requires PositiveWeights(c) && |ks| == |ls| == |c|
    requires forall i :: 0 <= i < |c| ==> ks[i] <= ls[i]
    ensures Weighable(c) && Sum(Shares(c, ks)) <= Sum(Shares(c, ls))
  {
    var xs, ys := Shares(c, ks), Shares(c, ls);
    forall i | 0 <= i < |c|
      ensures xs[i] <= ys[i]
    {
      TermOrder(c[i], ks[i], ls[i]);
    }
    SumOrder(xs, ys);
  }

  lemma SumInsideHull(c: seq<Source>, lo: int, hi: int)
    requires PositiveWeights(c) && forall s :: s in c ==> lo <= s.timestamp <= hi
    ensures Weighable(c) && Uniform(c, lo as real) <= WeightedTime(c) <= Uniform(c, hi as real)
  {
    WeightedTimeIsSum(c);
    UniformIsSum(c, lo as real);
    UniformIsSum(c, hi as real);
    SharesOrder(c, Same(|c|, lo as real), Stamps(c));
    SharesOrder(c, Stamps(c), Same(|c|, hi as real));
  }

  lemma WeightedTimeBounds(c: seq<Source>, lo: int, hi: int)
    requires PositiveWeights(c) && forall s :: s in c ==> lo <= s.timestamp <= hi
    ensures Weighable(c) && lo as real * TotalWeight(c) <= WeightedTime(c) <= hi as real * TotalWeight(c)
  {
    SumInsideHull(c, lo, hi);
    UniformIsProduct(c, lo as real);
    UniformIsProduct(c, hi as real);
  }

  lemma QuotientBounds(num: real, den: real, lo: int, hi: int)
    requires den > 0.0
    requires lo as real * den <= num <= hi as real * den
    ensures lo as real <= num / den <= hi as real
    ensures lo <= Trunc(num / den) <= hi
  {
    var q := num / den;
    assert q * den == num;
  }

  lemma MeanInsideHull(c: seq<Source>, lo: int, hi: int)
    requires c != [] && PositiveWeights(c)
    requires forall s :: s in c ==> lo <= s.timestamp <= hi
    ensures MeanOutcome(c).Selected? && MeanOutcome(c).sourceCount == |c|
    ensures lo <= MeanOutcome(c).bestTime <= hi
  {
    TotalWeightPositive(c);
    var lo', hi' := if lo < -TWO_63 then -TWO_63 else lo, if hi >= TWO_63 then TWO_63 - 1 else hi;
    WeightedTimeBounds(c, lo', hi');
    QuotientBounds(WeightedTime(c), TotalWeight(c), lo', hi');
  }
}
