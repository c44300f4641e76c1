/**
 * Exactly when the selected time is safe from one more source: the documented tolerance of a single
 * malfunctioning source (docs/ARCHITECTURE.md), as a condition on the good sources alone.
 */
module OutlierTime {
  import opened Common
  import opened TimeMean
  import opened TimeSelection
  import opened TimeTolerance
  import opened TimeHull
  import opened OutlierWindows

  predicate Far(us: seq<Source>, x: Source, spread: int)
    requires us != []
  {
    Early(us, x, spread) || Late(us, x, spread)
  }

  /** The outlier and the good sources near it form a window that wins over the good sources' best. */
  ghost predicate Dragged(us: seq<Source>, x: Source, spread: int)
    requires us != []
  {
    || (Early(us, x, spread) && OpensLeft(us, x.timestamp, spread / 2))
    || (Late(us, x, spread) && ClosesRight(us, x.timestamp, spread / 2))
  }

  // ----- who takes part -----

  lemma EndsWith(us: seq<Source>, x: Source)
    requires us != []
    ensures Earliest(us + [x]) == if x.timestamp < Earliest(us) then x.timestamp else Earliest(us)
    ensures Latest(us + [x]) == if x.timestamp > Latest(us) then x.timestamp else Latest(us)
  {
    assert (us + [x])[..|us|] == us;
  }

  lemma FarSpread(us: seq<Source>, x: Source, spread: int)
    requires Agreeing(us, spread) && SpreadFits(us + [x])
    ensures Sub64(Latest(us + [x]), Earliest(us + [x])) > spread <==> Far(us, x, spread)
  {
    EndsWith(us, x);
    SpreadTestExact(us + [x], spread);
  }

  /** Some good source is more than the permitted spread away from a far one. */
  lemma FarIsNoGoodSource(us: seq<Source>, x: Source, spread: int)
    requires Agreeing(us, spread) && Far(us, x, spread)
    ensures x !in us
  {
  }

  lemma ChosenWith(us: seq<Source>, x: Source, spread: int)
    requires Agreeing(us, spread) && SpreadFits(us + [x]) && Far(us, x, spread)
    ensures var h, lo := spread / 2, BestStart(us + [x], spread / 2);
            Chosen(us + [x], spread) == Window(us, lo, h) + if InWindow(x, lo, h) then [x] else []
  {
    FarSpread(us, x, spread);
    WindowWith(us, x, BestStart(us + [x], spread / 2), spread / 2);
  }

  /** A far source lies outside the range of the good ones, on one side. */
  lemma FarSide(us: seq<Source>, x: Source, spread: int)
    requires Agreeing(us, spread)
    ensures Early(us, x, spread) ==> x.timestamp < Earliest(us) && !Late(us, x, spread)
    ensures Late(us, x, spread) ==> x.timestamp > Latest(us)
  {
  }

  lemma EarlyInWindow(us: seq<Source>, x: Source, tol: int)
    requires us != [] && tol >= 0 && x.timestamp < Earliest(us)
    ensures InWindow(x, BestStart(us + [x], tol), tol) <==> OpensLeft(us, x.timestamp, tol)
  {
    var lo := BestStart(us + [x], tol);
    EarlyWins(us, x, tol);
    var s :| s in us + [x] && s.timestamp == lo;
    assert s in us || s == x;
  }

  lemma FarInWindow(us: seq<Source>, x: Source, spread: int)
    requires Agreeing(us, spread) && Far(us, x, spread)
    ensures InWindow(x, BestStart(us + [x], spread / 2), spread / 2) <==> Dragged(us, x, spread)
  {
    FarSide(us, x, spread);
    if Early(us, x, spread) {
      EarlyInWindow(us, x, spread / 2);
    } else {
      LateWins(us, x, spread / 2);
    }
  }

  /** An outlier drags the selection exactly when it is far from a good source and takes part. */
  lemma DraggedExactly(us: seq<Source>, x: Source, spread: int)
    requires Agreeing(us, spread) && SpreadFits(us + [x])
    ensures Dragged(us, x, spread) <==> Far(us, x, spread) && x in Chosen(us + [x], spread)
  {
    if Far(us, x, spread) {
      var h, lo := spread / 2, BestStart(us + [x], spread / 2);
      ChosenWith(us, x, spread);
      FarInWindow(us, x, spread);
      FarIsNoGoodSource(us, x, spread);
      WindowMembers(us, lo, h);
    }
  }

  // ----- the mean -----

  /** The mean before rounding is within the permitted spread of every good source. */
  predicate MeanNear(c: seq<Source>, us: seq<Source>, spread: int) {
    && Weighable(c) && TotalWeight(c) != 0.0
    && forall g :: g in us ==> Between(WeightedTime(c), TotalWeight(c), g.timestamp - spread, g.timestamp + spread)
  }

  lemma NearMembersNearMean(c: seq<Source>, us: seq<Source>, spread: int)
    requires c != [] && PositiveWeights(c)
    requires forall s, g :: s in c && g in us ==> g.timestamp - spread <= s.timestamp <= g.timestamp + spread
    ensures MeanNear(c, us, spread)
  {
    TotalWeightPositive(c);
    forall g | g in us
      ensures Between(WeightedTime(c), TotalWeight(c), g.timestamp - spread, g.timestamp + spread)
    {
      PositiveMean(c, g.timestamp - spread, g.timestamp + spread);
    }
  }

  lemma NotDraggedNear(us: seq<Source>, x: Source, spread: int)
    requires Agreeing(us, spread) && SpreadFits(us + [x]) && Denominator(x) > 0.0
    requires !Dragged(us, x, spread)
    ensures MeanNear(Chosen(us + [x], spread), us, spread)
  {
    var c := Chosen(us + [x], spread);
    ChosenFacts(us + [x], spread);
    DraggedExactly(us, x, spread);
    forall s, g | s in c && g in us
      ensures g.timestamp - spread <= s.timestamp <= g.timestamp + spread
    {
      assert s in us || s == x;
    }
    NearMembersNearMean(c, us, spread);
  }

  lemma {:induction false} WindowWeight(us: seq<Source>, lo: int, tol: int)
    requires PositiveWeights(us)
    ensures PositiveWeights(Window(us, lo, tol))
    ensures 0.0 <= TotalWeight(Window(us, lo, tol)) <= TotalWeight(us)
  {
    if us != [] {
      var front, last := us[..|us| - 1], us[|us| - 1];
      WindowWeight(front, lo, tol);
      PositiveWeight(last);
      var w := Window(front, lo, tol);
      assert (w + [last])[..|w|] == w;
    }
  }

  /** A weight that outdoes all others pulls the mean past the limit. */
  lemma Pull(t: real, w: real, s: real, x: real, limit: real, d: real)
    requires t >= 0.0 && d >= 0.0 && w > d * t && s <= (limit + d) * t && x <= limit - 1.0
    ensures w > 0.0 && s + x * w < limit * (t + w)
  {
    assert d * t >= 0.0;
    ScaleOrder(x, limit - 1.0, w);
    Distribute(t, limit, d);
    Distribute(w, limit, -1.0);
    Distribute(limit, t, w);
  }

  lemma BelowLimit(num: real, den: real, limit: int, hi: int)
    requires den > 0.0 && num < limit as real * den
    ensures !Between(num, den, limit, hi)
  {
    var q := num / den;
    assert q * den == num;
  }

  lemma AboveLimit(num: real, den: real, lo: int, limit: int)
    requires den > 0.0 && num > limit as real * den
    ensures !Between(num, den, lo, limit)
  {
    var q := num / den;
    assert q * den == num;
  }

  /** The good sources of a window and the outlier, as sums. */
  lemma SumsWith(gs: seq<Source>, x: Source)
    requires PositiveWeights(gs) && Denominator(x) > 0.0
    ensures Weighable(gs) && Weighable(gs + [x]) && Weight(x) > 0.0
    ensures TotalWeight(gs + [x]) == TotalWeight(gs) + Weight(x)
    ensures WeightedTime(gs + [x]) == WeightedTime(gs) + x.timestamp as real * Weight(x)
  {
    PositiveWeight(x);
    SumsSnoc(gs, x);
  }

  lemma EarlyPullsSums(t: real, s: real, w: real, x: int, hi: int, spread: int)
    requires t >= 0.0 && spread >= 0 && w > spread as real * t && s <= hi as real * t && x < hi - spread
    ensures t + w > 0.0 && !Between(s + x as real * w, t + w, hi - spread, hi + spread)
  {
    var limit := hi - spread;
    Pull(t, w, s, x as real, limit as real, spread as real);
    BelowLimit(s + x as real * w, t + w, limit, hi + spread);
  }

  lemma LatePullsSums(t: real, s: real, w: real, x: int, lo: int, spread: int)
    requires t >= 0.0 && spread >= 0 && w > spread as real * t && s >= lo as real * t && x > lo + spread
    ensures t + w > 0.0 && !Between(s + x as real * w, t + w, lo - spread, lo + spread)
  {
    var limit := lo + spread;
    PullUp(t, w, s, x as real, limit as real, spread as real);
    AboveLimit(s + x as real * w, t + w, lo - spread, limit);
  }

  lemma EarlyPullsFrom(c: seq<Source>, t: real, s: real, w: real, x: int, hi: int, spread: int)
    requires Weighable(c) && TotalWeight(c) == t + w && WeightedTime(c) == s + x as real * w
    requires t >= 0.0 && spread >= 0 && w > spread as real * t && s <= hi as real * t && x < hi - spread
    ensures TotalWeight(c) != 0.0 && !Between(WeightedTime(c), TotalWeight(c), hi - spread, hi + spread)
  {
    EarlyPullsSums(t, s, w, x, hi, spread);
  }

  lemma LatePullsFrom(c: seq<Source>, t: real, s: real, w: real, x: int, lo: int, spread: int)
    requires Weighable(c) && TotalWeight(c) == t + w && WeightedTime(c) == s + x as real * w
    requires t >= 0.0 && spread >= 0 && w > spread as real * t && s >= lo as real * t && x > lo + spread
    ensures TotalWeight(c) != 0.0 && !Between(WeightedTime(c), TotalWeight(c), lo - spread, lo + spread)
  {
    LatePullsSums(t, s, w, x, lo, spread);
  }

  /** The sums of a window of good sources and a heavy outlier. */
  predicate HeavySums(c: seq<Source>, t: real, s: real, w: real, x: int, lo: int, hi: int, spread: int) {
    && Weighable(c) && TotalWeight(c) == t + w && WeightedTime(c) == s + x as real * w
    && t >= 0.0 && w > spread as real * t && lo as real * t <= s <= hi as real * t
  }

  predicate Outweighs(w: real, spread: int, t: real) {
    w > spread as real * t
  }

  lemma HeavyOutlier(gs: seq<Source>, x: Source, lo: int, hi: int, spread: int)
    requires PositiveWeights(gs) && forall s :: s in gs ==> lo <= s.timestamp <= hi
    requires Denominator(x) > 0.0 && TotalWeight(gs) >= 0.0 && Outweighs(Weight(x), spread, TotalWeight(gs))
    ensures HeavySums(gs + [x], TotalWeight(gs), WeightedTime(gs), Weight(x), x.timestamp, lo, hi, spread)
  {
    SumsWith(gs, x);
    WeightedTimeBounds(gs, lo, hi);
  }

  /** A far outlier that is heavy enough pulls the mean more than the permitted spread away from one end
      of the good sources. */
  lemma HeavyPulls(c: seq<Source>, t: real, s: real, w: real, x: int, lo: int, hi: int, spread: int)
    requires HeavySums(c, t, s, w, x, lo, hi, spread) && spread >= 0
    requires x < hi - spread || x > lo + spread
    ensures TotalWeight(c) != 0.0
    ensures x < hi - spread ==> !Between(WeightedTime(c), TotalWeight(c), hi - spread, hi + spread)
    ensures x > lo + spread ==> !Between(WeightedTime(c), TotalWeight(c), lo - spread, lo + spread)
  {
    if x < hi - spread {
      EarlyPullsFrom(c, t, s, w, x, hi, spread);
    }
    if x > lo + spread {
      LatePullsFrom(c, t, s, w, x, lo, spread);
    }
  }

  lemma PullUp(t: real, w: real, s: real, x: real, limit: real, d: real)
    requires t >= 0.0 && d >= 0.0 && w > d * t && s >= (limit - d) * t && x >= limit + 1.0
    ensures w > 0.0 && s + x * w > limit * (t + w)
  {
    Pull(t, w, -s, -x, -limit, d);
  }

  lemma HeavyInWindow(us: seq<Source>, lo: int, tol: int, w: real, spread: int)
    requires PositiveWeights(us) && spread >= 0 && Outweighs(w, spread, TotalWeight(us))
    ensures PositiveWeights(Window(us, lo, tol)) && TotalWeight(Window(us, lo, tol)) >= 0.0
    ensures Outweighs(w, spread, TotalWeight(Window(us, lo, tol)))
  {
    WindowWeight(us, lo, tol);
    OutweighsLess(w, spread, TotalWeight(Window(us, lo, tol)), TotalWeight(us));
  }

  lemma OutweighsLess(w: real, spread: int, t: real, u: real)
    requires Outweighs(w, spread, u) && spread >= 0 && t <= u
    ensures Outweighs(w, spread, t)
  {
    Scaled(spread as real, t, u);
  }

  lemma Scaled(d: real, a: real, b: real)
    requires d >= 0.0 && a <= b
    ensures d * a <= d * b
  {
  }

  lemma DraggedChosen(us: seq<Source>, x: Source, spread: int)
    requires Agreeing(us, spread) && SpreadFits(us + [x]) && Dragged(us, x, spread)
    ensures Far(us, x, spread)
    ensures Chosen(us + [x], spread) == Window(us, BestStart(us + [x], spread / 2), spread / 2) + [x]
  {
    ChosenWith(us, x, spread);
    FarInWindow(us, x, spread);
  }

  lemma PulledAway(us: seq<Source>, gs: seq<Source>, x: Source, spread: int)
    requires us != [] && spread >= 0 && Far(us, x, spread)
    requires forall s :: s in gs ==> s in us
    requires PositiveWeights(gs) && TotalWeight(gs) >= 0.0
    requires Denominator(x) > 0.0 && Outweighs(Weight(x), spread, TotalWeight(gs))
    ensures !MeanNear(gs + [x], us, spread)
  {
    var first, last := Earliest(us), Latest(us);
    var a :| a in us && a.timestamp == first;
    var b :| b in us && b.timestamp == last;
    HeavyOutlier(gs, x, first, last, spread);
    PulledFrom(gs + [x], TotalWeight(gs), WeightedTime(gs), Weight(x), x.timestamp, us, a, b, spread);
  }

  lemma PulledFrom(c: seq<Source>, t: real, s: real, w: real, x: int, us: seq<Source>, a: Source, b: Source,
                   spread: int)
    requires HeavySums(c, t, s, w, x, a.timestamp, b.timestamp, spread) && spread >= 0
    requires x < b.timestamp - spread || x > a.timestamp + spread
    requires a in us && b in us
    ensures !MeanNear(c, us, spread)
  {
    HeavyPulls(c, t, s, w, x, a.timestamp, b.timestamp, spread);
  }

  /** An outlier that drags the selection, and is heavy enough, takes the time away. */
  lemma DraggedAway(us: seq<Source>, x: Source, spread: int)
    requires Agreeing(us, spread) && SpreadFits(us + [x]) && Dragged(us, x, spread)
    requires Denominator(x) > 0.0 && Outweighs(Weight(x), spread, TotalWeight(us))
    ensures !MeanNear(Chosen(us + [x], spread), us, spread)
  {
    DraggedChosen(us, x, spread);
    PulledFromWindow(us, BestStart(us + [x], spread / 2), spread / 2, x, spread);
  }

  lemma PulledFromWindow(us: seq<Source>, lo: int, tol: int, x: Source, spread: int)
    requires us != [] && PositiveWeights(us) && spread >= 0 && Far(us, x, spread)
    requires Denominator(x) > 0.0 && Outweighs(Weight(x), spread, TotalWeight(us))
    ensures !MeanNear(Window(us, lo, tol) + [x], us, spread)
  {
    WindowMembers(us, lo, tol);
    HeavyInWindow(us, lo, tol, Weight(x), spread);
    PulledAway(us, Window(us, lo, tol), x, spread);
  }

  // ----- one outlier, any weight -----

  /** The source claiming the dispersion that gives it weight `w`. */
  function Claiming(x: Source, w: real): (r: Source)
    requires w >= 1.0
    ensures r.timestamp == x.timestamp && r.stratum == x.stratum
    ensures Denominator(r) > 0.0 && Weight(r) == w && r.dispersion <= MAX_DISPERSION
  {
    Inverse(w);
    x.(dispersion := 1.0 / w - DISPERSION_FLOOR)
  }

  lemma Inverse(w: real)
    requires w >= 1.0
    ensures 0.0 < 1.0 / w <= 1.0 && 1.0 / (1.0 / w) == w
  {
    var r := 1.0 / w;
    assert r * w == 1.0;
    assert r > 0.0;
    var q := 1.0 / r;
    assert q * r == 1.0;
    assert (q - w) * r == 0.0;
  }

  /** More than all good sources together, times the spread. */
  function HeavyWeight(us: seq<Source>, spread: int): (w: real)
    requires PositiveWeights(us) && spread >= 0
    ensures w >= 1.0 && Outweighs(w, spread, TotalWeight(us))
  {
    WindowWeight(us, 0, 0);
    Scaled(spread as real, 0.0, TotalWeight(us));
    spread as real * TotalWeight(us) + 1.0
  }

  lemma SameStampSameDrag(us: seq<Source>, x: Source, y: Source, spread: int)
    requires us != [] && x.timestamp == y.timestamp
    ensures Dragged(us, x, spread) <==> Dragged(us, y, spread)
  {
  }

  lemma SameStampFits(us: seq<Source>, x: Source, y: Source)
    requires us != [] && x.timestamp == y.timestamp
    ensures SpreadFits(us + [x]) <==> SpreadFits(us + [y])
  {
    EndsWith(us, x);
    EndsWith(us, y);
  }

  /** The outlier that claims a heavy weight takes the time away. */
  lemma ClaimedAway(us: seq<Source>, x: Source, y: Source, spread: int)
    requires Agreeing(us, spread) && SpreadFits(us + [x]) && Dragged(us, x, spread)
    requires y == Claiming(x, HeavyWeight(us, spread))
    ensures SpreadFits(us + [y]) && !MeanNear(Chosen(us + [y], spread), us, spread)
  {
    SameStampSameDrag(us, x, y, spread);
    SameStampFits(us, x, y);
    DraggedAway(us, y, spread);
  }

  lemma ClaimedNear(us: seq<Source>, x: Source, y: Source, spread: int)
    requires Agreeing(us, spread) && SpreadFits(us + [x]) && !Dragged(us, x, spread)
    requires y.timestamp == x.timestamp && Denominator(y) > 0.0
    ensures MeanNear(Chosen(us + [y], spread), us, spread)
  {
    SameStampSameDrag(us, x, y, spread);
    SameStampFits(us, x, y);
    NotDraggedNear(us, y, spread);
  }

  /** The time stays within the permitted spread of every good source, whatever weight the outlier claims. */
  ghost predicate HarmlessAtAnyWeight(us: seq<Source>, x: Source, spread: int)
    requires us != []
  {
    forall w: real :: w >= 1.0 ==> MeanNear(Chosen(us + [Claiming(x, w)], spread), us, spread)
  }

  /** That is so if and only if the outlier is itself within the permitted spread of every good source or
      does not take part. */
  lemma HarmlessExactly(us: seq<Source>, x: Source, spread: int)
    requires Agreeing(us, spread) && SpreadFits(us + [x])
    ensures HarmlessAtAnyWeight(us, x, spread) <==> !(Far(us, x, spread) && x in Chosen(us + [x], spread))
  {
    DraggedExactly(us, x, spread);
    if Dragged(us, x, spread) {
      ClaimedAway(us, x, Claiming(x, HeavyWeight(us, spread)), spread);
    } else {
      forall w: real | w >= 1.0
        ensures MeanNear(Chosen(us + [Claiming(x, w)], spread), us, spread)
      {
        ClaimedNear(us, x, Claiming(x, w), spread);
      }
    }
  }

  // ----- every outlier -----

  /** Whatever one more source reports, as long as the spread does not wrap and its weight is positive,
      enough sources take part and the time stays within the permitted spread of every good source. */
  ghost predicate Tolerated(us: seq<Source>, minSources: int, spread: int) {
    forall x :: Usable(x) && Denominator(x) > 0.0 && SpreadFits(us + [x]) ==>
      |Chosen(us + [x], spread)| >= minSources && MeanNear(Chosen(us + [x], spread), us, spread)
  }

  /** The outlier that does most harm on the left: just too far from the latest good source. */
  ghost predicate LeftRisk(us: seq<Source>, spread: int)
    requires us != []
  {
    var x := Latest(us) - spread - 1;
    x >= -TWO_63 && OpensLeft(us, x, spread / 2)
  }

  /** And on the right: just too far from the earliest one. */
  ghost predicate RightRisk(us: seq<Source>, spread: int)
    requires us != []
  {
    var x := Earliest(us) + spread + 1;
    x < TWO_63 && ClosesRight(us, x, spread / 2)
  }

  lemma NoRiskNotDragged(us: seq<Source>, x: Source, spread: int)
    requires Agreeing(us, spread) && !LeftRisk(us, spread) && !RightRisk(us, spread)
    ensures !Dragged(us, x, spread)
  {
    FarSide(us, x, spread);
    if Early(us, x, spread) && OpensLeft(us, x.timestamp, spread / 2) {
      LeftMonotone(us, x.timestamp, Latest(us) - spread - 1, spread / 2);
    } else if Late(us, x, spread) && ClosesRight(us, x.timestamp, spread / 2) {
      RightMonotone(us, x.timestamp, Earliest(us) + spread + 1, spread / 2);
    }
  }

  /** The nearer an early source, the more neighbours it has. */
  lemma LeftMonotone(us: seq<Source>, t: int, u: int, tol: int)
    requires us != [] && t <= u < Earliest(us) && OpensLeft(us, t, tol)
    ensures OpensLeft(us, u, tol)
  {
    WindowGrows(us, t, u, tol);
  }

  lemma RightMonotone(us: seq<Source>, t: int, u: int, tol: int)
    requires us != [] && t >= u > Latest(us) && ClosesRight(us, t, tol)
    ensures ClosesRight(us, u, tol)
  {
    WindowGrows(us, t - tol, u - tol, tol);
  }

  /** Enough take part whatever is added, once the best half-window is a quorum. */
  lemma QuorumTakesPart(us: seq<Source>, x: Source, minSources: int, spread: int)
    requires Agreeing(us, spread) && SpreadFits(us + [x]) && Best(us, spread / 2) >= minSources
    ensures |Chosen(us + [x], spread)| >= minSources
  {
    var h := spread / 2;
    var w := Window(us, BestStart(us, h), h);
    WindowIsOptimal(us, h, multiset{});
    assert |multiset(w)| == |w| && multiset(us + [x]) == multiset(us) + multiset{x};
    SubMultisetSize(multiset(w), multiset(us));
    assert |multiset(us)| == |us|;
    ClusterIsOutvoted(us + [x], spread, multiset(w));
  }

  lemma RiskDragsAway(us: seq<Source>, stamp: int64, spread: int) returns (x: Source)
    requires Agreeing(us, spread) && SpreadFits(us + [Source("", stamp, 0, 0, 0.0)])
    requires Dragged(us, Source("", stamp, 0, 0, 0.0), spread)
    ensures Usable(x) && Denominator(x) > 0.0 && SpreadFits(us + [x])
    ensures !MeanNear(Chosen(us + [x], spread), us, spread)
  {
    var y := Source("", stamp, 0, 0, 0.0);
    x := Claiming(y, HeavyWeight(us, spread));
    ClaimedAway(us, y, x, spread);
  }

  lemma LeftRiskBreaks(us: seq<Source>, spread: int) returns (x: Source)
    requires Agreeing(us, spread) && LeftRisk(us, spread)
    ensures Usable(x) && Denominator(x) > 0.0 && SpreadFits(us + [x])
    ensures !MeanNear(Chosen(us + [x], spread), us, spread)
  {
    var stamp := Latest(us) - spread - 1;
    EndsWith(us, Source("", stamp, 0, 0, 0.0));
    x := RiskDragsAway(us, stamp, spread);
  }

  lemma RightRiskBreaks(us: seq<Source>, spread: int) returns (x: Source)
    requires Agreeing(us, spread) && RightRisk(us, spread)
    ensures Usable(x) && Denominator(x) > 0.0 && SpreadFits(us + [x])
    ensures !MeanNear(Chosen(us + [x], spread), us, spread)
  {
    RightRiskDrags(us, Earliest(us) + spread + 1, spread);
    x := RiskDragsAway(us, Earliest(us) + spread + 1, spread);
  }

  lemma RightRiskDrags(us: seq<Source>, stamp: int64, spread: int)
    requires Agreeing(us, spread) && stamp == Earliest(us) + spread + 1 && ClosesRight(us, stamp, spread / 2)
    ensures SpreadFits(us + [Source("", stamp, 0, 0, 0.0)])
    ensures Dragged(us, Source("", stamp, 0, 0, 0.0), spread)
  {
    EndsWith(us, Source("", stamp, 0, 0, 0.0));
  }

  lemma TooFewBreaks(us: seq<Source>, minSources: int, spread: int) returns (x: Source)
    requires Agreeing(us, spread) && 1 <= minSources <= |us| && Best(us, spread / 2) < minSources
    ensures Usable(x) && Denominator(x) > 0.0 && SpreadFits(us + [x])
    ensures |Chosen(us + [x], spread)| < minSources
  {
    x := Outlier(us, spread);
    OutlierSpread(us, spread);
    EndsWith(us, x);
    ChosenIsQuorum(us + [x], minSources, spread);
    if HalfSpreadQuorum(us + [x], minSources, spread) {
      OutlierAddsNothing(us, x, minSources, spread);
      QuorumIsBest(us, minSources, spread);
    }
  }

  lemma QuorumIsBest(us: seq<Source>, minSources: int, spread: int)
    requires us != [] && spread >= 0 && HalfSpreadQuorum(us, minSources, spread)
    ensures Best(us, spread / 2) >= minSources
  {
    var pick: multiset<Source> :|
      pick <= multiset(us) && PairwiseWithin(pick, spread / 2) && |pick| >= minSources;
    WindowIsOptimal(us, spread / 2, pick);
  }

  /** The documented tolerance, exactly, as a condition on the good sources: their largest half-window is a
      quorum, it is larger than any window an early outlier can open among them, and no smaller than any
      window a late outlier can close. */
  lemma ToleratedExactly(us: seq<Source>, minSources: int, spread: int)
    requires Agreeing(us, spread) && 1 <= minSources <= |us|
    ensures Tolerated(us, minSources, spread) <==>
            Best(us, spread / 2) >= minSources && !LeftRisk(us, spread) && !RightRisk(us, spread)
  {
    if Best(us, spread / 2) < minSources {
      var x := TooFewBreaks(us, minSources, spread);
    } else if LeftRisk(us, spread) {
      var x := LeftRiskBreaks(us, spread);
    } else if RightRisk(us, spread) {
      var x := RightRiskBreaks(us, spread);
    } else {
      forall x | Usable(x) && Denominator(x) > 0.0 && SpreadFits(us + [x])
        ensures |Chosen(us + [x], spread)| >= minSources && MeanNear(Chosen(us + [x], spread), us, spread)
      {
        QuorumTakesPart(us, x, minSources, spread);
        NoRiskNotDragged(us, x, spread);
        NotDraggedNear(us, x, spread);
      }
    }
  }

  /** What tolerance means for a caller: selection succeeds and its rounded time is within the permitted
      spread of every good source. */
  lemma ToleratedSelects(good: seq<Source>, x: Source, minSources: int, spread: int)
    requires Agreeing(Usables(good), spread) && 1 <= minSources <= |Usables(good)|
    requires Tolerated(Usables(good), minSources, spread)
    requires Usable(x) && Denominator(x) > 0.0 && SpreadFits(Usables(good) + [x])
    ensures var r := Select(good + [x], minSources, spread);
            r.Selected? && forall g :: g in Usables(good) ==> g.timestamp - spread <= r.bestTime <= g.timestamp + spread
  {
    var us := Usables(good);
    UsablesSnoc(good, x);
    EnoughChosen(good + [x], minSources, spread);
    MeanNearRounded(Chosen(us + [x], spread), us, spread);
  }

  lemma MeanNearRounded(c: seq<Source>, us: seq<Source>, spread: int)
    requires MeanNear(c, us, spread) && MeanOutcome(c).Selected?
    ensures forall g :: g in us ==> g.timestamp - spread <= MeanOutcome(c).bestTime <= g.timestamp + spread
  {
    forall g | g in us
      ensures g.timestamp - spread <= MeanOutcome(c).bestTime <= g.timestamp + spread
    {
      RoundedBetween(WeightedTime(c), TotalWeight(c), g.timestamp - spread, g.timestamp + spread);
    }
  }

  // ----- an outlier that displaces a quorum -----

  /** Three sources within 0.9 s, of which the first two lie within half a second. */
  function GoodSample(): seq<Source> {
    [ Source("a", 0, 0, 1, 0.9999),
      Source("b", 400_000_000, 0, 1, 0.9999),
      Source("c", 900_000_000, 0, 1, 0.9999) ]
  }

  /** A source 0.2 s before the first, claiming ten times the weight of each. */
  const DISPLACING := Source("d", -200_000_000, 0, 1, 0.0999)

  lemma GoodSampleMembers()
    ensures var us := GoodSample();
            && us[0] in us && us[2] in us
            && forall s :: s in us ==> Usable(s) && Denominator(s) == 1.0 && 0 <= s.timestamp <= 900_000_000
  {
  }

  lemma GoodSampleAgrees()
    ensures Agreeing(GoodSample(), SECOND) && Usables(GoodSample()) == GoodSample()
    ensures Earliest(GoodSample()) == 0 && Latest(GoodSample()) == 900_000_000
  {
    GoodSampleMembers();
    SampleAgrees(GoodSample(), GoodSample()[0], GoodSample()[2]);
  }

  lemma SampleAgrees(us: seq<Source>, first: Source, last: Source)
    requires first in us && last in us && first.timestamp == 0 && last.timestamp == 900_000_000
    requires forall s :: s in us ==> Usable(s) && Denominator(s) == 1.0 && 0 <= s.timestamp <= 900_000_000
    ensures Agreeing(us, SECOND) && Usables(us) == us && Earliest(us) == 0 && Latest(us) == 900_000_000
  {
    SpreadEnds(us, first, last);
    UsablesAll(us);
  }

  /** The windows of half a second that open at the four sources. */
  lemma SampleWindows()
    ensures var us, h := GoodSample(), SECOND / 2;
            && Window(us, -200_000_000, h) == [us[0]]
            && |Window(us, us[0].timestamp, h)| == 2
            && |Window(us, us[1].timestamp, h)| == 2
            && |Window(us, us[2].timestamp, h)| == 1
  {
    var us := GoodSample();
    SampleWindow(us[0], us[1], us[2], -200_000_000, SECOND / 2);
    SampleWindow(us[0], us[1], us[2], us[0].timestamp, SECOND / 2);
    SampleWindow(us[0], us[1], us[2], us[1].timestamp, SECOND / 2);
    SampleWindow(us[0], us[1], us[2], us[2].timestamp, SECOND / 2);
  }

  function Kept(s: Source, lo: int, tol: int): seq<Source> {
    if InWindow(s, lo, tol) then [s] else []
  }

  lemma SampleWindow(a: Source, b: Source, c: Source, lo: int, tol: int)
    ensures Window([a, b, c], lo, tol) == Kept(a, lo, tol) + Kept(b, lo, tol) + Kept(c, lo, tol)
  {
    assert [a, b, c][..2] == [a, b];
    WindowOfTwo(a, b, lo, tol);
  }

  lemma WindowOfTwo(a: Source, b: Source, lo: int, tol: int)
    ensures Window([a, b], lo, tol) == Kept(a, lo, tol) + Kept(b, lo, tol)
  {
    assert [a, b][..1] == [a] && [a][..0] == [];
    assert Window([a], lo, tol) == Kept(a, lo, tol);
  }

  lemma SampleBest()
    ensures Best(GoodSample(), SECOND / 2) == 2
  {
    var us, h := GoodSample(), SECOND / 2;
    var lo := BestStart(us, h);
    var s :| s in us && s.timestamp == lo;
    assert s == us[0] || s == us[1] || s == us[2];
    SampleWindows();
    assert us[0] in us;
    BestIsLargest(us, h, us[0]);
  }

  lemma SampleDragged()
    ensures var us := GoodSample();
            us != [] && Agreeing(us, SECOND) && SpreadFits(us + [DISPLACING])
            && Early(us, DISPLACING, SECOND) && DISPLACING.timestamp < Earliest(us)
  {
    var us := GoodSample();
    GoodSampleAgrees();
    EndsWith(us, DISPLACING);
  }

  lemma SampleChosen()
    ensures var us := GoodSample();
            SpreadFits(us + [DISPLACING]) && Chosen(us + [DISPLACING], SECOND) == [us[0]] + [DISPLACING]
  {
    var us := GoodSample();
    SampleDragged();
    SampleWindows();
    SampleBest();
    EarlyOpens(us, DISPLACING, SECOND);
  }

  /** An early outlier with enough neighbours: it and they are chosen. */
  lemma EarlyOpens(us: seq<Source>, x: Source, spread: int)
    requires Agreeing(us, spread) && SpreadFits(us + [x]) && Early(us, x, spread)
    requires OpensLeft(us, x.timestamp, spread / 2)
    ensures Chosen(us + [x], spread) == Window(us, x.timestamp, spread / 2) + [x]
  {
    FarSide(us, x, spread);
    EarlyWins(us, x, spread / 2);
    ChosenWith(us, x, spread);
  }

  lemma SampleMean()
    ensures MeanOutcome([GoodSample()[0]] + [DISPLACING]) == Selected(2, -181_818_181)
  {
    var a, x := GoodSample()[0], DISPLACING;
    UnitWeightAppend([], a);
    assert [] + [a] == [a];
    SumsSnoc([a], x);
    assert Weight(x) == 10.0;
  }

  /** The good sources agree, two of them form a quorum within half the spread, all weights are positive and
      the spread fits, yet the selected time is more than the permitted spread away from the third. */
  lemma OutlierDisplacesQuorum()
    ensures var us := GoodSample();
            && Agreeing(us, SECOND) && Best(us, SECOND / 2) >= 2
            && Usable(DISPLACING) && Denominator(DISPLACING) > 0.0 && SpreadFits(us + [DISPLACING])
            && Select(us + [DISPLACING], 2, SECOND) == Selected(2, -181_818_181)
            && us[2].timestamp - (-181_818_181) > SECOND
  {
    GoodSampleAgrees();
    SampleBest();
    SampleChosen();
    SampleMean();
    UsablesSnoc(GoodSample(), DISPLACING);
  }
}
