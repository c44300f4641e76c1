/**
 * Exactly when the weighted mean stays between the timestamps it averages.  The filter in
 * internal/timesync/selection.go rejects dispersions above 1.0 only, so weights can be negative.
 */
module TimeHull {
  import opened Common
  import opened TimeMean
  import opened TimeSelection
  import opened TimeTolerance

  /** The sources with other timestamps and the same dispersions. */
  function Restamped(c: seq<Source>, stamps: seq<int64>): (r: seq<Source>)
    requires |stamps| == |c|
    ensures |r| == |c| && forall i :: 0 <= i < |c| ==> r[i] == c[i].(timestamp := stamps[i])
  {
    seq(|c|, i requires 0 <= i < |c| => c[i].(timestamp := stamps[i]))
  }

  lemma RestampedFront(c: seq<Source>, stamps: seq<int64>)
    requires |stamps| == |c| > 0
    ensures Restamped(c, stamps)[..|c| - 1] == Restamped(c[..|c| - 1], stamps[..|c| - 1])
  {
  }

  lemma RestampedWeighable(c: seq<Source>, stamps: seq<int64>)
    requires |stamps| == |c| && Weighable(c)
    ensures Weighable(Restamped(c, stamps))
  {
    var r := Restamped(c, stamps);
    forall s | s in r
      ensures Denominator(s) != 0.0
    {
      var i :| 0 <= i < |r| && r[i] == s;
      assert c[i] in c;
    }
  }

  lemma {:induction false} RestampedWeights(c: seq<Source>, stamps: seq<int64>)
    requires |stamps| == |c| && Weighable(c)
    ensures Weighable(Restamped(c, stamps)) && TotalWeight(Restamped(c, stamps)) == TotalWeight(c)
  {
    RestampedWeighable(c, stamps);
    if c != [] {
      var front := c[..|c| - 1];
      RestampedWeights(front, stamps[..|c| - 1]);
      RestampedFront(c, stamps);
    }
  }

  /** The mean before rounding lies between the earliest and the latest timestamp. */
  predicate MeanInHull(c: seq<Source>)
    requires Weighable(c) && TotalWeight(c) != 0.0
  {
    Between(WeightedTime(c), TotalWeight(c), Earliest(c), Latest(c))
  }

  predicate Between(num: real, den: real, lo: int, hi: int)
    requires den != 0.0
  {
    lo as real <= num / den <= hi as real
  }

  predicate StaysInHull(c: seq<Source>) {
    Weighable(c) && TotalWeight(c) != 0.0 && MeanInHull(c)
  }

  predicate NegativeWeights(c: seq<Source>) {
    forall s :: s in c ==> Denominator(s) < 0.0
  }

  predicate OneSign(c: seq<Source>) {
    PositiveWeights(c) || NegativeWeights(c)
  }

  // ----- one sign suffices -----

  lemma PositiveMean(c: seq<Source>, lo: int, hi: int)
    requires c != [] && PositiveWeights(c) && forall s :: s in c ==> lo <= s.timestamp <= hi
    ensures Weighable(c) && TotalWeight(c) > 0.0
    ensures Between(WeightedTime(c), TotalWeight(c), lo, hi)
  {
    TotalWeightPositive(c);
    SumsBounded(c, lo, hi);
    BetweenBounds(WeightedTime(c), TotalWeight(c), lo, hi);
  }

  predicate Bounded(num: real, den: real, lo: int, hi: int) {
    lo as real * den <= num <= hi as real * den
  }

  lemma SumsBounded(c: seq<Source>, lo: int, hi: int)
    requires PositiveWeights(c) && forall s :: s in c ==> lo <= s.timestamp <= hi
    ensures Weighable(c) && Bounded(WeightedTime(c), TotalWeight(c), lo, hi)
  {
    WeightedTimeBounds(c, lo, hi);
  }

  lemma BetweenBounds(num: real, den: real, lo: int, hi: int)
    requires den > 0.0 && Bounded(num, den, lo, hi)
    ensures Between(num, den, lo, hi)
  {
    QuotientBounds(num, den, lo, hi);
  }

  lemma PositiveInHull(c: seq<Source>)
    requires c != [] && PositiveWeights(c)
    ensures StaysInHull(c)
  {
    PositiveMean(c, Earliest(c), Latest(c));
  }

  /** The source with its weight negated. */
  function Flipped(s: Source): (r: Source)
    ensures Denominator(r) == -Denominator(s)
  {
    s.(dispersion := -s.dispersion - 2.0 * DISPERSION_FLOOR)
  }

  function AllFlipped(c: seq<Source>): (r: seq<Source>)
    ensures |r| == |c| && forall i :: 0 <= i < |c| ==> r[i] == Flipped(c[i])
  {
    seq(|c|, i requires 0 <= i < |c| => Flipped(c[i]))
  }

  lemma FlippedWeight(s: Source)
    requires Denominator(s) != 0.0
    ensures Weight(Flipped(s)) == -Weight(s)
  {
    Reciprocal(Denominator(s));
  }

  lemma Reciprocal(d: real)
    requires d != 0.0
    ensures 1.0 / (-d) == -(1.0 / d)
  {
    var r, q := 1.0 / d, 1.0 / (-d);
    assert r * d == 1.0 && q * (-d) == 1.0;
    assert (r + q) * d == 0.0;
  }

  lemma NegateFactor(t: real, w: real)
    ensures t * (-w) == -(t * w)
  {
  }

  lemma {:induction false} FlippedSums(c: seq<Source>)
    requires Weighable(c)
    ensures Weighable(AllFlipped(c))
    ensures TotalWeight(AllFlipped(c)) == -TotalWeight(c)
    ensures WeightedTime(AllFlipped(c)) == -WeightedTime(c)
  {
    if c != [] {
      var front, last := c[..|c| - 1], c[|c| - 1];
      FlippedSums(front);
      assert AllFlipped(c)[..|c| - 1] == AllFlipped(front);
      FlippedWeight(last);
      NegateFactor(last.timestamp as real, Weight(last));
    }
  }

  lemma NegatedQuotient(a: real, b: real)
    requires b != 0.0
    ensures (-a) / (-b) == a / b
  {
    var q, p := a / b, (-a) / (-b);
    assert q * b == a && p * (-b) == -a;
    assert (p - q) * b == 0.0;
  }

  lemma BetweenNegated(num: real, den: real, lo: int, hi: int)
    requires den != 0.0 && Between(-num, -den, lo, hi)
    ensures Between(num, den, lo, hi)
  {
    NegatedQuotient(num, den);
  }

  lemma {:induction false} SameStampsSameEnds(a: seq<Source>, b: seq<Source>)
    requires |a| == |b| > 0 && forall i :: 0 <= i < |a| ==> a[i].timestamp == b[i].timestamp
    ensures Earliest(a) == Earliest(b) && Latest(a) == Latest(b)
  {
    if |a| > 1 {
      SameStampsSameEnds(a[..|a| - 1], b[..|b| - 1]);
    }
  }

  lemma NegativeInHull(c: seq<Source>)
    requires c != [] && NegativeWeights(c)
    ensures StaysInHull(c)
  {
    var f := AllFlipped(c);
    FlippedSums(c);
    PositiveInHull(f);
    SameStampsSameEnds(c, f);
    BetweenNegated(WeightedTime(c), TotalWeight(c), Earliest(c), Latest(c));
  }

  // ----- one sign is needed -----

  /** Everybody says 1 except source `i`, who says 2. */
  function OneVoice(n: nat, i: nat): (r: seq<int64>)
    ensures |r| == n && forall k :: 0 <= k < n ==> r[k] == if k == i then 2 else 1
  {
    seq(n, k => if k == i then 2 else 1)
  }

  lemma {:induction false} ChorusSum(c: seq<Source>)
    requires Weighable(c) && forall s :: s in c ==> s.timestamp == 1
    ensures WeightedTime(c) == TotalWeight(c)
  {
    if c != [] {
      ChorusSum(c[..|c| - 1]);
    }
  }

  lemma {:induction false} OneVoiceSum(c: seq<Source>, i: nat)
    requires Weighable(c) && i < |c|
    requires forall k :: 0 <= k < |c| ==> c[k].timestamp == if k == i then 2 else 1
    ensures WeightedTime(c) == TotalWeight(c) + Weight(c[i])
  {
    var front := c[..|c| - 1];
    if i == |c| - 1 {
      ChorusSum(front);
    } else {
      OneVoiceSum(front, i);
    }
  }

  lemma SignOfQuotient(w: real, total: real)
    requires (w > 0.0 && total < 0.0) || (w < 0.0 && total > 0.0)
    ensures w / total < 0.0
  {
    var q := w / total;
    assert q * total == w;
  }

  lemma SignOfWeight(s: Source)
    requires Denominator(s) != 0.0
    ensures Weight(s) > 0.0 <==> Denominator(s) > 0.0
    ensures Weight(s) < 0.0 <==> Denominator(s) < 0.0
  {
    assert Weight(s) * Denominator(s) == 1.0;
  }

  /** The selected time, rounded, is defined and lies between the earliest and the latest timestamp. */
  predicate RoundedInHull(c: seq<Source>)
    requires c != []
  {
    MeanOutcome(c).Selected? && Earliest(c) <= MeanOutcome(c).bestTime <= Latest(c)
  }

  lemma RoundedBetween(num: real, den: real, lo: int, hi: int)
    requires den != 0.0 && Between(num, den, lo, hi)
    ensures lo <= Trunc(num / den) <= hi
  {
  }

  lemma InHullRounded(c: seq<Source>)
    requires c != [] && StaysInHull(c)
    ensures RoundedInHull(c)
  {
    RoundedBetween(WeightedTime(c), TotalWeight(c), Earliest(c), Latest(c));
  }

  predicate BelowOne(w: real, total: real)
    requires total != 0.0
  {
    Trunc((total + w) / total) < 1
  }

  lemma JustBelowOne(w: real, total: real)
    requires (w > 0.0 && total < 0.0) || (w < 0.0 && total > 0.0)
    ensures BelowOne(w, total)
  {
    SignOfQuotient(w, total);
    Distribute(total, 1.0, w / total);
    QuotientIs(total + w, total, 1.0 + w / total);
  }

  lemma QuotientIs(num: real, den: real, q: real)
    requires den != 0.0 && den * q == num
    ensures num / den == q
  {
    var p := num / den;
    assert p * den == num;
    assert (p - q) * den == 0.0;
  }

  lemma BelowAllStamps(d: seq<Source>, w: real)
    requires d != [] && Weighable(d) && TotalWeight(d) != 0.0
    requires forall s :: s in d ==> s.timestamp >= 1
    requires WeightedTime(d) == TotalWeight(d) + w && BelowOne(w, TotalWeight(d))
    ensures !RoundedInHull(d)
  {
  }

  /** A source whose weight goes against the total drags the time out of the hull. */
  lemma ContraryVoice(c: seq<Source>, i: nat)
    requires Weighable(c) && i < |c| && TotalWeight(c) != 0.0
    requires Denominator(c[i]) > 0.0 <==> TotalWeight(c) < 0.0
    ensures !RoundedInHull(Restamped(c, OneVoice(|c|, i)))
  {
    var d := Restamped(c, OneVoice(|c|, i));
    RestampedWeights(c, OneVoice(|c|, i));
    OneVoiceSum(d, i);
    ContraryMean(Weight(d[i]), TotalWeight(d), d[i]);
    BelowAllStamps(d, Weight(d[i]));
  }

  lemma ContraryMean(w: real, total: real, s: Source)
    requires Denominator(s) != 0.0 && w == Weight(s) && total != 0.0
    requires Denominator(s) > 0.0 <==> total < 0.0
    ensures BelowOne(w, total)
  {
    SignOfWeight(s);
    JustBelowOne(w, total);
  }

  lemma ContraryExists(c: seq<Source>) returns (i: nat)
    requires Weighable(c) && TotalWeight(c) != 0.0 && !OneSign(c)
    ensures i < |c| && (Denominator(c[i]) > 0.0 <==> TotalWeight(c) < 0.0)
  {
    var s: Source;
    if TotalWeight(c) < 0.0 {
      s :| s in c && !(Denominator(s) < 0.0);
    } else {
      s :| s in c && !(Denominator(s) > 0.0);
    }
    i :| 0 <= i < |c| && c[i] == s;
  }

  lemma OneSignInHull(c: seq<Source>)
    requires c != [] && OneSign(c)
    ensures StaysInHull(c)
  {
    if PositiveWeights(c) {
      PositiveInHull(c);
    } else {
      NegativeInHull(c);
    }
  }

  lemma RestampedSign(c: seq<Source>, stamps: seq<int64>)
    requires |stamps| == |c| && OneSign(c)
    ensures OneSign(Restamped(c, stamps))
  {
    var r := Restamped(c, stamps);
    forall s | s in r
      ensures exists t :: t in c && Denominator(t) == Denominator(s)
    {
      var i :| 0 <= i < |r| && r[i] == s;
      assert c[i] in c;
    }
  }

  /** Without a usable divisor no timestamps give a defined time. */
  lemma NoDivisor(c: seq<Source>, stamps: seq<int64>)
    requires c != [] && |stamps| == |c| && (!Weighable(c) || TotalWeight(c) == 0.0)
    ensures !RoundedInHull(Restamped(c, stamps))
  {
    var d := Restamped(c, stamps);
    if Weighable(c) {
      RestampedWeights(c, stamps);
    } else {
      var s :| s in c && Denominator(s) == 0.0;
      var i :| 0 <= i < |c| && c[i] == s;
      assert d[i] in d;
    }
  }

  /** The time stays between the timestamps, whatever these are, if and only if all weights have the same
      sign. */
  lemma HullExactly(c: seq<Source>)
    requires c != []
    ensures OneSign(c) <==>
            forall stamps: seq<int64> :: |stamps| == |c| ==> RoundedInHull(Restamped(c, stamps))
  {
    if OneSign(c) {
      forall stamps: seq<int64> | |stamps| == |c|
        ensures RoundedInHull(Restamped(c, stamps))
      {
        RestampedSign(c, stamps);
        OneSignInHull(Restamped(c, stamps));
        InHullRounded(Restamped(c, stamps));
      }
    } else if !Weighable(c) || TotalWeight(c) == 0.0 {
      NoDivisor(c, OneVoice(|c|, 0));
    } else {
      var i := ContraryExists(c);
      ContraryVoice(c, i);
    }
  }

  // ----- a selection outside the hull -----

  /** Two usable sources, the second with a negative dispersion. */
  function NegativeSample(): seq<Source> {
    [Source("a", 0, 0, 1, 0.9999), Source("b", 10, 0, 1, -2.0001)]
  }

  lemma NegativeSampleSums()
    ensures var c := NegativeSample();
            Weighable(c) && TotalWeight(c) == 0.5 && WeightedTime(c) == -5.0
  {
    var c := NegativeSample();
    UnitWeightAppend([], c[0]);
    assert [] + [c[0]] == [c[0]];
    SumsSnoc([c[0]], c[1]);
    assert Weight(c[1]) == -0.5;
    assert c == [c[0]] + [c[1]];
  }

  lemma NegativeSampleTakesPart()
    ensures var c := NegativeSample();
            Usables(c) == c && Chosen(c, SECOND) == c
  {
    UsablesAll(NegativeSample());
  }

  /** Sources stamped 0 and 10 that are all usable and agree give the time -10. */
  lemma NegativeDispersionLeavesHull()
    ensures var c := NegativeSample();
            && (forall s :: s in c ==> Usable(s) && 0 <= s.timestamp <= 10)
            && !OneSign(c)
            && Select(c, 2, SECOND) == Selected(2, -10)
  {
    var c := NegativeSample();
    assert c[0] in c && c[1] in c;
    NegativeSampleTakesPart();
    NegativeSampleSums();
  }
}
