/**
 * What a malfunctioning time source can and cannot do to the selected time
 * (internal/timesync/selection.go, docs/ARCHITECTURE.md "Time synchronization").
 */
module TimeTolerance {
  import opened Common
  import opened TimeMean
  import opened TimeSelection

  /** The exact spread of the usable timestamps fits the 64-bit difference the code computes. */
  ghost predicate SpreadFits(us: seq<Source>)
    requires us != []
  {
    Latest(us) - Earliest(us) < TWO_63
  }

  /** The code's test `spread > maxSpread` answers the intended question exactly when the spread
      fits; otherwise the difference wraps to a negative number and the test says "agreeing". */
  lemma SpreadTestExact(us: seq<Source>, maxSpread: int)
    requires us != [] && 0 <= maxSpread < TWO_63
    ensures SpreadFits(us) <==>
            (Sub64(Latest(us), Earliest(us)) > maxSpread <==> Latest(us) - Earliest(us) > maxSpread)
  {
    assert Earliest(us) <= Latest(us);
  }

  lemma ChosenFacts(us: seq<Source>, maxSpread: int)
    requires us != [] && maxSpread >= 0
    ensures Chosen(us, maxSpread) != []
    ensures multiset(Chosen(us, maxSpread)) <= multiset(us)
    ensures forall s :: s in Chosen(us, maxSpread) ==> s in us
    ensures SpreadFits(us) ==> PairwiseWithin(multiset(Chosen(us, maxSpread)), maxSpread)
  {
    var tol := maxSpread / 2;
    var s0 := us[0];
    assert s0 in multiset(us);
    WindowIsOptimal(us, tol, multiset{s0});
    var c := Chosen(us, maxSpread);
    forall s | s in c
      ensures s in us
    {
      assert s in multiset(c);
      assert s in multiset(us);
    }
    if SpreadFits(us) && c == us {
      SpreadTestExact(us, if maxSpread < TWO_63 then maxSpread else 0);
      forall s, t | s in multiset(us) && t in multiset(us) && Sub64(Latest(us), Earliest(us)) <= maxSpread
        ensures s.timestamp - t.timestamp <= maxSpread
      {
        assert s in us && t in us;
        assert Earliest(us) <= t.timestamp && s.timestamp <= Latest(us);
      }
    }
  }

  /** The selected time lies within `d` of every source that took part, when those are within `d`
      of each other. */
  lemma BestTimeNearChosen(c: seq<Source>, d: int, x: Source)
    requires c != [] && PositiveWeights(c) && PairwiseWithin(multiset(c), d) && x in c
    ensures MeanOutcome(c).Selected?
    ensures x.timestamp - d <= MeanOutcome(c).bestTime <= x.timestamp + d
  {
    forall s | s in c
      ensures x.timestamp - d <= s.timestamp <= x.timestamp + d
    {
      assert s in multiset(c) && x in multiset(c);
    }
    MeanInsideHull(c, x.timestamp - d, x.timestamp + d);
  }

  lemma Pigeonhole(a: multiset<Source>, b: multiset<Source>, m: multiset<Source>) returns (x: Source)
    requires a <= m && b <= m && |a| + |b| > |m|
    ensures x in a && x in b
  {
    if a !! b {
      assert a + b <= m;
      SubMultisetSize(a + b, m);
      assert false;
    }
    x :| x in a && x in b;
  }

  /** Outlier tolerance.  If enough usable sources agree within half the permitted spread, selection
      succeeds whatever the others say.  If they also outnumber the others, and the timestamps fit
      the 64-bit difference, the selected time is within the permitted spread of each of them. */
  lemma OutlierTolerance(sources: seq<Source>, minSources: int, maxSpread: int, cluster: multiset<Source>)
    requires minSources >= 1 && maxSpread >= 0
    requires PositiveWeights(Usables(sources))
    requires cluster <= multiset(Usables(sources))
    requires PairwiseWithin(cluster, maxSpread / 2) && |cluster| >= minSources
    ensures Usables(sources) != []
    ensures var r := Select(sources, minSources, maxSpread);
            && r.Selected?
            && r.sourceCount >= |cluster|
            && (2 * |cluster| > |Usables(sources)| && SpreadFits(Usables(sources)) ==>
                  forall s :: s in cluster ==> s.timestamp - maxSpread <= r.bestTime <= s.timestamp + maxSpread)
  {
    var us := Usables(sources);
    assert us != [] by {
      SubMultisetSize(cluster, multiset(us));
    }
    var c := Chosen(us, maxSpread);
    ClusterIsOutvoted(us, maxSpread, cluster);
    EnoughChosen(sources, minSources, maxSpread);
    if 2 * |cluster| > |us| && SpreadFits(us) {
      assert |multiset(c)| == |c| && |multiset(us)| == |us|;
      ChosenFacts(us, maxSpread);
      var x := Pigeonhole(multiset(c), cluster, multiset(us));
      forall s | s in cluster
        ensures s.timestamp - maxSpread <= MeanOutcome(c).bestTime <= s.timestamp + maxSpread
      {
        ClusterDistance(us, maxSpread, x, s, cluster);
      }
    }
  }

  lemma ClusterIsOutvoted(us: seq<Source>, maxSpread: int, cluster: multiset<Source>)
    requires us != [] && maxSpread >= 0
    requires cluster <= multiset(us) && PairwiseWithin(cluster, maxSpread / 2)
    ensures |cluster| <= |Chosen(us, maxSpread)|
  {
    SubMultisetSize(cluster, multiset(us));
    assert |multiset(us)| == |us|;
    WindowIsOptimal(us, maxSpread / 2, cluster);
  }

  /** Selection succeeds as soon as enough sources take part. */
  lemma EnoughChosen(sources: seq<Source>, minSources: int, maxSpread: int)
    requires minSources >= 1 && maxSpread >= 0
    requires Usables(sources) != [] && PositiveWeights(Usables(sources))
    requires |Chosen(Usables(sources), maxSpread)| >= minSources
    ensures Select(sources, minSources, maxSpread) == MeanOutcome(Chosen(Usables(sources), maxSpread))
    ensures Select(sources, minSources, maxSpread).Selected?
    ensures Select(sources, minSources, maxSpread).sourceCount == |Chosen(Usables(sources), maxSpread)|
  {
    var us := Usables(sources);
    var c := Chosen(us, maxSpread);
    UsablesLength(sources);
    ChosenFacts(us, maxSpread);
    SubMultisetSize(multiset(c), multiset(us));
    assert |multiset(c)| == |c| && |multiset(us)| == |us|;
    MeanInsideHull(c, Earliest(us), Latest(us));
  }

  lemma ClusterDistance(us: seq<Source>, maxSpread: int, x: Source, s: Source, cluster: multiset<Source>)
    requires us != [] && maxSpread >= 0 && SpreadFits(us) && PositiveWeights(us)
    requires cluster <= multiset(us) && PairwiseWithin(cluster, maxSpread / 2)
    requires x in cluster && s in cluster && x in Chosen(us, maxSpread)
    ensures MeanOutcome(Chosen(us, maxSpread)).Selected?
    ensures s.timestamp - maxSpread <= MeanOutcome(Chosen(us, maxSpread)).bestTime <= s.timestamp + maxSpread
  {
    var c := Chosen(us, maxSpread);
    ChosenFacts(us, maxSpread);
    if Sub64(Latest(us), Earliest(us)) > maxSpread {
      WindowIsOptimal(us, maxSpread / 2, multiset{});
      BestTimeNearChosen(c, maxSpread / 2, x);
      assert s.timestamp - x.timestamp <= maxSpread / 2 && x.timestamp - s.timestamp <= maxSpread / 2;
    } else {
      assert s in us;
      BestTimeNearChosen(c, maxSpread, s);
    }
  }

  lemma {:induction false} UsablesLength(ss: seq<Source>)
    ensures |Usables(ss)| <= |ss|
  {
    if ss != [] {
      UsablesLength(ss[..|ss| - 1]);
    }
  }

  // ----- what the filter lets through -----

  /** Exactly the sources of stratum 15 or better with a dispersion of at most one second take part. */
  lemma {:induction false} UsablesExactly(ss: seq<Source>)
    ensures forall s :: s in Usables(ss) <==> s in ss && s.stratum <= 15 && s.dispersion <= 1.0
  {
    if ss != [] {
      var front, last := ss[..|ss| - 1], ss[|ss| - 1];
      assert ss == front + [last];
      UsablesExactly(front);
    }
  }

  /** A source of a worse stratum or a larger dispersion changes nothing, once enough sources report. */
  lemma UnusableIgnored(ss: seq<Source>, x: Source, minSources: int, maxSpread: int)
    requires 1 <= minSources <= |ss| && (x.stratum > 15 || x.dispersion > 1.0)
    ensures Select(ss + [x], minSources, maxSpread) == Select(ss, minSources, maxSpread)
  {
    UsablesSnoc(ss, x);
  }

  /** Which error selection reports, for every input. */
  lemma ErrorsExactly(ss: seq<Source>, minSources: int, maxSpread: int)
    requires minSources >= 1 && maxSpread >= 0
    ensures var o, us := Select(ss, minSources, maxSpread), Usables(ss);
            && (o == TooFewSources <==> |ss| < minSources)
            && (o == TooFewUsable <==> |us| < minSources <= |ss|)
            && (o == Disagree <==> |us| >= minSources
                                   && Sub64(Latest(us), Earliest(us)) > maxSpread
                                   && !HalfSpreadQuorum(us, minSources, maxSpread))
  {
    UsablesLength(ss);
    SelectsExactly(ss, minSources, maxSpread);
  }

  // ----- what the mean is -----

  /** The time that divides the distance between `s` and `t` in the ratio of `p` to `q`. */
  function Divided(s: real, t: real, p: real, q: real): real
    requires p > 0.0 && q > 0.0
  {
    (s * q + t * p) / (p + q)
  }

  /** Two agreeing sources: each counts in proportion to the other's dispersion, plus a tenth of a
      millisecond. */
  lemma MeanOfTwo(a: Source, b: Source, maxSpread: int)
    requires Usable(a) && Usable(b) && Denominator(a) > 0.0 && Denominator(b) > 0.0
    requires -maxSpread <= a.timestamp - b.timestamp <= maxSpread < TWO_63
    ensures var p, q := a.dispersion + 0.0001, b.dispersion + 0.0001;
            Select([a, b], 2, maxSpread) ==
            Selected(2, Trunc(Divided(a.timestamp as real, b.timestamp as real, p, q)))
  {
    var c := [a, b];
    UsablesAll(c);
    PairChosen(a, b, maxSpread);
    SelectAll(c, 2, maxSpread);
    PairDefined(a, b);
    PairQuotient(a, b);
  }

  /** When all sources are usable and chosen, the outcome is their mean. */
  lemma SelectAll(ss: seq<Source>, minSources: int, maxSpread: int)
    requires 1 <= minSources <= |ss| && Usables(ss) == ss && Chosen(ss, maxSpread) == ss
    ensures Select(ss, minSources, maxSpread) == MeanOutcome(ss)
  {
  }

  lemma PairDefined(a: Source, b: Source)
    requires Denominator(a) > 0.0 && Denominator(b) > 0.0
    ensures MeanOutcome([a, b]).Selected?
  {
    MeanInsideHull([a, b], -TWO_63, TWO_63);
  }

  lemma PairQuotient(a: Source, b: Source)
    requires Denominator(a) > 0.0 && Denominator(b) > 0.0
    ensures var p, q := a.dispersion + 0.0001, b.dispersion + 0.0001;
            MeanOutcome([a, b]) == ToInt64(2, Divided(a.timestamp as real, b.timestamp as real, p, q))
  {
    PairSums(a, b);
    RatioOf([a, b], a.timestamp as real, b.timestamp as real, Denominator(a), Denominator(b));
  }

  lemma RatioOf(c: seq<Source>, s: real, t: real, p: real, q: real)
    requires Weighable(c) && p > 0.0 && q > 0.0
    requires TotalWeight(c) == 1.0 / p + 1.0 / q && WeightedTime(c) == s * (1.0 / p) + t * (1.0 / q)
    ensures MeanOutcome(c) == ToInt64(|c|, Divided(s, t, p, q))
  {
    CrossMean(s, t, p, q);
  }

  lemma PairChosen(a: Source, b: Source, maxSpread: int)
    requires -maxSpread <= a.timestamp - b.timestamp <= maxSpread < TWO_63
    ensures Chosen([a, b], maxSpread) == [a, b]
  {
    var c := [a, b];
    assert a in c && b in c;
    if a.timestamp <= b.timestamp {
      SpreadEnds(c, a, b);
    } else {
      SpreadEnds(c, b, a);
    }
  }

  lemma PairSums(a: Source, b: Source)
    requires Denominator(a) != 0.0 && Denominator(b) != 0.0
    ensures Weighable([a, b]) && TotalWeight([a, b]) == Weight(a) + Weight(b)
    ensures WeightedTime([a, b]) == a.timestamp as real * Weight(a) + b.timestamp as real * Weight(b)
  {
    SumsSingle(a);
    SumsSnoc([a], b);
    assert [a, b] == [a] + [b];
  }

  lemma CrossMean(s: real, t: real, p: real, q: real)
    requires p > 0.0 && q > 0.0
    ensures 1.0 / p + 1.0 / q > 0.0
    ensures (s * (1.0 / p) + t * (1.0 / q)) / (1.0 / p + 1.0 / q) == (s * q + t * p) / (p + q)
  {
    var u, v := 1.0 / p, 1.0 / q;
    assert u * p == 1.0 && v * q == 1.0;
    assert u > 0.0 && v > 0.0;
    CrossMultiply(s * u + t * v, u + v, s * q + t * p, p + q, p * q);
  }

  lemma CrossMultiply(n: real, d: real, m: real, e: real, k: real)
    requires d > 0.0 && e > 0.0 && k > 0.0 && n * k == m && d * k == e
    ensures n / d == m / e
  {
  }

  /** A single source gives its own time. */
  lemma SelectOne(s: Source, maxSpread: int)
    requires maxSpread >= 0 && s.dispersion + 0.0001 > 0.0
    ensures Select([s], 1, maxSpread) ==
            if s.stratum <= 15 && s.dispersion <= 1.0 then Selected(1, s.timestamp) else TooFewUsable
  {
    OneUsable(s);
    if Usable(s) {
      SpreadEnds([s], s, s);
      SelectAll([s], 1, maxSpread);
      OneMean(s);
    }
  }

  lemma OneUsable(s: Source)
    ensures Usables([s]) == if s.stratum <= 15 && s.dispersion <= 1.0 then [s] else []
  {
    assert [s][..0] == [];
  }

  lemma OneMean(s: Source)
    requires Denominator(s) > 0.0
    ensures MeanOutcome([s]) == Selected(1, s.timestamp)
  {
    MeanInsideHull([s], s.timestamp, s.timestamp);
  }

  // ----- exactly when selection succeeds -----

  predicate Succeeds(o: Outcome) {
    o.Selected? || o.Unspecified?
  }

  /** A success counts at least the quorum. */
  lemma QuorumCounted(sources: seq<Source>, minSources: int, maxSpread: int)
    requires minSources >= 1
    ensures var o := Select(sources, minSources, maxSpread);
            Succeeds(o) ==> o.sourceCount >= minSources
  {
  }

  /** Enough sources lie within half the permitted spread of each other. */
  ghost predicate HalfSpreadQuorum(us: seq<Source>, minSources: int, maxSpread: int) {
    exists pick: multiset<Source> ::
      pick <= multiset(us) && PairwiseWithin(pick, maxSpread / 2) && |pick| >= minSources
  }

  lemma ChosenIsQuorum(us: seq<Source>, minSources: int, maxSpread: int)
    requires us != [] && maxSpread >= 0 && Sub64(Latest(us), Earliest(us)) > maxSpread
    ensures |Chosen(us, maxSpread)| >= minSources <==> HalfSpreadQuorum(us, minSources, maxSpread)
  {
    var c := Chosen(us, maxSpread);
    WindowIsOptimal(us, maxSpread / 2, multiset{});
    assert multiset(c) <= multiset(us) && PairwiseWithin(multiset(c), maxSpread / 2);
    assert |multiset(c)| == |c|;
    if HalfSpreadQuorum(us, minSources, maxSpread) {
      var pick: multiset<Source> :|
        pick <= multiset(us) && PairwiseWithin(pick, maxSpread / 2) && |pick| >= minSources;
      WindowIsOptimal(us, maxSpread / 2, pick);
    }
  }

  /** Selection succeeds if and only if enough sources are usable and either the computed spread of all
      of them is permitted or enough of them lie within half the permitted spread of each other. */
  lemma SelectsExactly(sources: seq<Source>, minSources: int, maxSpread: int)
    requires minSources >= 1 && maxSpread >= 0
    ensures Succeeds(Select(sources, minSources, maxSpread)) <==>
            var us := Usables(sources);
            |us| >= minSources &&
            (Sub64(Latest(us), Earliest(us)) <= maxSpread || HalfSpreadQuorum(us, minSources, maxSpread))
  {
    UsablesLength(sources);
    var us := Usables(sources);
    if |us| >= minSources && Sub64(Latest(us), Earliest(us)) > maxSpread {
      ChosenIsQuorum(us, minSources, maxSpread);
    }
  }

  lemma QuorumGrows(us: seq<Source>, x: Source, minSources: int, maxSpread: int)
    requires HalfSpreadQuorum(us, minSources, maxSpread)
    ensures HalfSpreadQuorum(us + [x], minSources, maxSpread)
  {
    var pick: multiset<Source> :|
      pick <= multiset(us) && PairwiseWithin(pick, maxSpread / 2) && |pick| >= minSources;
    assert pick <= multiset(us + [x]);
  }

  /** A far outlier helps no quorum. */
  lemma OutlierAddsNothing(us: seq<Source>, x: Source, minSources: int, maxSpread: int)
    requires us != [] && maxSpread >= 0 && |us| >= minSources
    requires forall s :: s in us ==> s.timestamp - x.timestamp > maxSpread || x.timestamp - s.timestamp > maxSpread
    requires HalfSpreadQuorum(us + [x], minSources, maxSpread)
    ensures HalfSpreadQuorum(us, minSources, maxSpread)
  {
    var all := multiset(us + [x]);
    var pick: multiset<Source> :|
      pick <= all && PairwiseWithin(pick, maxSpread / 2) && |pick| >= minSources;
    assert all == multiset(us) + multiset{x};
    assert x !in us;
    if x in pick {
      assert pick <= multiset{x} by {
        forall s | s in pick
          ensures s == x && pick[s] <= 1
        {
          assert s in us || s == x;
        }
      }
      SubMultisetSize(pick, multiset{x});
      assert us[0] in multiset(us);
      assert PairwiseWithin(multiset{us[0]}, maxSpread / 2) && multiset{us[0]} <= multiset(us);
    } else {
      assert pick <= multiset(us);
    }
  }

  /** A report too far from all of them to agree with any, yet not so far that the difference wraps. */
  function FarFrom(us: seq<Source>, maxSpread: int): int64
    requires us != [] && 0 <= maxSpread < TWO_63 / 2 && Latest(us) - Earliest(us) <= maxSpread
  {
    if Latest(us) + maxSpread + 1 < TWO_63 then Latest(us) + maxSpread + 1 else Earliest(us) - maxSpread - 1
  }

  function Outlier(us: seq<Source>, maxSpread: int): Source
    requires us != [] && 0 <= maxSpread < TWO_63 / 2 && Latest(us) - Earliest(us) <= maxSpread
  {
    Source("", FarFrom(us, maxSpread), 0, 0, 0.0)
  }

  lemma OutlierSpread(us: seq<Source>, maxSpread: int)
    requires us != [] && 0 <= maxSpread < TWO_63 / 2 && Latest(us) - Earliest(us) <= maxSpread
    ensures var x := Outlier(us, maxSpread);
            && Sub64(Latest(us + [x]), Earliest(us + [x])) > maxSpread
            && forall s :: s in us ==> s.timestamp - x.timestamp > maxSpread || x.timestamp - s.timestamp > maxSpread
  {
    var x := Outlier(us, maxSpread);
    assert (us + [x])[..|us|] == us;
  }

  /** The documented tolerance, exactly.  Take sources that agree as documented: enough usable ones,
      all within the permitted spread.  Selection still succeeds whatever one more source reports if
      and only if enough of them lie within half the permitted spread of each other. */
  lemma OneFaultToleratedExactly(good: seq<Source>, minSources: int, maxSpread: int)
    requires minSources >= 1 && 0 <= maxSpread < TWO_63 / 2
    requires |Usables(good)| >= minSources
    requires Latest(Usables(good)) - Earliest(Usables(good)) <= maxSpread
    ensures (forall x :: Succeeds(Select(good + [x], minSources, maxSpread))) <==>
            HalfSpreadQuorum(Usables(good), minSources, maxSpread)
  {
    if HalfSpreadQuorum(Usables(good), minSources, maxSpread) {
      forall x
        ensures Succeeds(Select(good + [x], minSources, maxSpread))
      {
        QuorumSucceeds(good, x, minSources, maxSpread);
      }
    } else {
      OutlierBlocks(good, Outlier(Usables(good), maxSpread), minSources, maxSpread);
    }
  }

  lemma QuorumSucceeds(good: seq<Source>, x: Source, minSources: int, maxSpread: int)
    requires minSources >= 1 && maxSpread >= 0 && |Usables(good)| >= minSources
    requires HalfSpreadQuorum(Usables(good), minSources, maxSpread)
    ensures Succeeds(Select(good + [x], minSources, maxSpread))
  {
    UsablesSnoc(good, x);
    if Usable(x) {
      QuorumGrows(Usables(good), x, minSources, maxSpread);
    }
    SelectsExactly(good + [x], minSources, maxSpread);
  }

  lemma OutlierBlocks(good: seq<Source>, x: Source, minSources: int, maxSpread: int)
    requires minSources >= 1 && 0 <= maxSpread < TWO_63 / 2 && |Usables(good)| >= minSources
    requires Latest(Usables(good)) - Earliest(Usables(good)) <= maxSpread && x == Outlier(Usables(good), maxSpread)
    requires !HalfSpreadQuorum(Usables(good), minSources, maxSpread)
    ensures !Succeeds(Select(good + [x], minSources, maxSpread))
  {
    UsablesSnoc(good, x);
    OutlierSpread(Usables(good), maxSpread);
    SelectsExactly(good + [x], minSources, maxSpread);
    if HalfSpreadQuorum(Usables(good) + [x], minSources, maxSpread) {
      OutlierAddsNothing(Usables(good), x, minSources, maxSpread);
    }
  }

  /** And the time stays with the good ones: if all of them lie within half the permitted spread of each
      other and the outlier does not make the spread wrap, the selected time is within the permitted
      spread of each, whatever the outlier reports. */
  lemma OneFaultKeepsTime(good: seq<Source>, x: Source, minSources: int, maxSpread: int)
    requires minSources >= 2 && maxSpread >= 0 && |Usables(good)| >= minSources
    requires PairwiseWithin(multiset(Usables(good)), maxSpread / 2)
    requires PositiveWeights(Usables(good + [x]))
    requires Usables(good + [x]) != [] ==> SpreadFits(Usables(good + [x]))
    ensures var r := Select(good + [x], minSources, maxSpread);
            r.Selected? &&
            forall s :: s in Usables(good) ==> s.timestamp - maxSpread <= r.bestTime <= s.timestamp + maxSpread
  {
    UsablesSnoc(good, x);
    var us := Usables(good);
    assert |multiset(us)| == |us| && multiset(us) <= multiset(us + [x]);
    OutlierTolerance(good + [x], minSources, maxSpread, multiset(us));
    assert forall s :: s in us ==> s in multiset(us);
  }

  lemma UsablesSnoc(ss: seq<Source>, x: Source)
    ensures Usables(ss + [x]) == if Usable(x) then Usables(ss) + [x] else Usables(ss)
  {
    assert (ss + [x])[..|ss|] == ss;
  }

  /** Two sources 0.8 s apart. */
  function AgreeingPair(): seq<Source> {
    [Source("a", 0, 0, 1, 0.0), Source("b", 800_000_000, 0, 1, 0.0)]
  }

  const LATE := Source("c", 10 * SECOND, 0, 1, 0.0)

  /** With a quorum of two and a permitted spread of one second, two sources 0.8 s apart synchronise;
      one more source ten seconds off stops them. */
  lemma OneOutlierBlocksSelection()
    ensures Succeeds(Select(AgreeingPair(), 2, SECOND))
    ensures Select(AgreeingPair() + [LATE], 2, SECOND) == Disagree
  {
    PairFacts();
    TrioFacts();
    TrioApart();
    SpreadSuffices(AgreeingPair(), 2, SECOND);
    NoQuorumDisagrees(AgreeingPair() + [LATE], 2, SECOND);
  }

  lemma SpreadSuffices(sources: seq<Source>, minSources: int, maxSpread: int)
    requires minSources >= 1 && maxSpread >= 0 && |Usables(sources)| >= minSources
    requires Sub64(Latest(Usables(sources)), Earliest(Usables(sources))) <= maxSpread
    ensures Succeeds(Select(sources, minSources, maxSpread))
  {
    SelectsExactly(sources, minSources, maxSpread);
  }

  lemma NoQuorumDisagrees(sources: seq<Source>, minSources: int, maxSpread: int)
    requires minSources >= 1 && maxSpread >= 0 && |Usables(sources)| >= minSources
    requires Sub64(Latest(Usables(sources)), Earliest(Usables(sources))) > maxSpread
    requires !HalfSpreadQuorum(Usables(sources), minSources, maxSpread)
    ensures Select(sources, minSources, maxSpread) == Disagree
  {
    UsablesLength(sources);
    SelectsExactly(sources, minSources, maxSpread);
  }

  lemma TrioApart()
    ensures !HalfSpreadQuorum(AgreeingPair() + [LATE], 2, SECOND)
  {
    var trio := AgreeingPair() + [LATE];
    assert trio == [trio[0], trio[1], trio[2]];
    NoPairAgrees(trio, SECOND);
  }

  lemma SpreadEnds(us: seq<Source>, first: Source, last: Source)
    requires first in us && last in us
    requires forall s :: s in us ==> first.timestamp <= s.timestamp <= last.timestamp
    ensures Earliest(us) == first.timestamp && Latest(us) == last.timestamp
  {
    var lo, hi := Earliest(us), Latest(us);
  }

  lemma PairFacts()
    ensures var us := Usables(AgreeingPair());
            |us| == 2 && Sub64(Latest(us), Earliest(us)) <= SECOND
  {
    var pair := AgreeingPair();
    UsablesAll(pair);
    assert pair[0] in pair && pair[1] in pair;
    SpreadEnds(pair, pair[0], pair[1]);
  }

  lemma TrioFacts()
    ensures var us := Usables(AgreeingPair() + [LATE]);
            us == AgreeingPair() + [LATE] && Sub64(Latest(us), Earliest(us)) > SECOND
  {
    var all := AgreeingPair() + [LATE];
    UsablesAll(all);
    assert all[0] in all && all[2] in all;
    SpreadEnds(all, all[0], LATE);
  }

  lemma {:induction false} DistinctTimestamps(us: seq<Source>, x: Source)
    requires forall i, j :: 0 <= i < j < |us| ==> us[i].timestamp != us[j].timestamp
    ensures multiset(us)[x] <= 1 && (multiset(us)[x] > 0 ==> x in us)
  {
    if us != [] {
      var front, last := us[..|us| - 1], us[|us| - 1];
      assert us == front + [last];
      DistinctTimestamps(front, x);
      assert last !in front;
    }
  }

  /** Sources of which no two are close enough form no quorum of two. */
  lemma NoPairAgrees(us: seq<Source>, maxSpread: int)
    requires maxSpread >= 0
    requires forall s, t :: s in us && t in us && s != t ==>
               s.timestamp - t.timestamp > maxSpread / 2 || t.timestamp - s.timestamp > maxSpread / 2
    requires forall i, j :: 0 <= i < j < |us| ==> us[i].timestamp != us[j].timestamp
    ensures !HalfSpreadQuorum(us, 2, maxSpread)
  {
    if HalfSpreadQuorum(us, 2, maxSpread) {
      var pick: multiset<Source> :|
        pick <= multiset(us) && PairwiseWithin(pick, maxSpread / 2) && |pick| >= 2;
      var e :| e in pick;
      forall s | s in pick
        ensures s == e && pick[s] <= 1
      {
        DistinctTimestamps(us, s);
        DistinctTimestamps(us, e);
      }
      assert pick <= multiset{e};
      SubMultisetSize(pick, multiset{e});
    }
  }

  // ----- where the tolerance ends -----

  /** Whenever the spread does not fit, every usable source takes part, however far apart they are:
      agreement is never checked. */
  lemma WrappedSpreadAcceptsEverything(sources: seq<Source>, minSources: int, maxSpread: int)
    requires minSources >= 1 && 0 <= maxSpread < TWO_63
    requires |Usables(sources)| >= minSources && PositiveWeights(Usables(sources))
    requires !SpreadFits(Usables(sources))
    ensures Select(sources, minSources, maxSpread) == MeanOutcome(Usables(sources))
    ensures Select(sources, minSources, maxSpread).Selected?
    ensures Select(sources, minSources, maxSpread).sourceCount == |Usables(sources)|
  {
    var us := Usables(sources);
    SpreadTestExact(us, maxSpread);
    UsablesLength(sources);
    MeanInsideHull(us, Earliest(us), Latest(us));
  }

  /** The sources that take part agree within the permitted spread exactly when the spread of all
      usable sources fits. */
  lemma ChosenAgreeExactly(us: seq<Source>, maxSpread: int)
    requires us != [] && 0 <= maxSpread < TWO_63
    ensures SpreadFits(us) <==> PairwiseWithin(multiset(Chosen(us, maxSpread)), maxSpread)
  {
    ChosenFacts(us, maxSpread);
    if !SpreadFits(us) {
      SpreadTestExact(us, maxSpread);
      var first :| first in us && first.timestamp == Earliest(us);
      var last :| last in us && last.timestamp == Latest(us);
      assert first in multiset(us) && last in multiset(us);
    }
  }

  /** Three sources that agree to the nanosecond in 2023 and one that reports a date in 1684. */
  function FaultySample(): seq<Source> {
    [ Source("a", 1_700_000_000_000_000_000, 0, 1, 0.9999),
      Source("b", 1_700_000_000_000_000_000, 0, 1, 0.9999),
      Source("c", 1_700_000_000_000_000_000, 0, 1, 0.9999),
      Source("d", -9_000_000_000_000_000_000, 0, 1, 0.9999) ]
  }

  lemma {:induction false} UsablesAll(ss: seq<Source>)
    requires forall k :: 0 <= k < |ss| ==> Usable(ss[k])
    ensures Usables(ss) == ss
  {
    if ss != [] {
      var front, last := ss[..|ss| - 1], ss[|ss| - 1];
      assert ss == front + [last];
      UsablesAll(front);
    }
  }

  lemma UnitWeightAppend(ss: seq<Source>, x: Source)
    requires Weighable(ss) && Denominator(x) == 1.0
    ensures Weighable(ss + [x])
    ensures TotalWeight(ss + [x]) == TotalWeight(ss) + 1.0
    ensures WeightedTime(ss + [x]) == WeightedTime(ss) + x.timestamp as real
  {
    assert (ss + [x])[..|ss|] == ss;
  }

  lemma FaultySampleSums()
    ensures var ss := FaultySample();
            Weighable(ss) && TotalWeight(ss) == 4.0 && WeightedTime(ss) == -3_900_000_000_000_000_000.0
  {
    var ss := FaultySample();
    UnitWeightAppend([], ss[0]);
    UnitWeightAppend([] + [ss[0]], ss[1]);
    UnitWeightAppend([] + [ss[0]] + [ss[1]], ss[2]);
    UnitWeightAppend([] + [ss[0]] + [ss[1]] + [ss[2]], ss[3]);
    assert ss == [] + [ss[0]] + [ss[1]] + [ss[2]] + [ss[3]];
  }

  lemma FaultySampleSpread()
    ensures var ss := FaultySample();
            Usables(ss) == ss && PositiveWeights(ss) && !SpreadFits(ss)
  {
    var ss := FaultySample();
    UsablesAll(ss);
    assert ss[0] in ss && ss[3] in ss;
  }

  /** The documented tolerance of a single malfunctioning source fails on this input: three of four
      sources agree exactly, yet the selected time is more than 80 years away from them. */
  lemma OneFaultySourceMovesTheClock()
    ensures var ss := FaultySample();
            && !SpreadFits(Usables(ss))
            && Select(ss, 3, SECOND) == Selected(4, -975_000_000_000_000_000)
  {
    var ss := FaultySample();
    FaultySampleSpread();
    WrappedSpreadAcceptsEverything(ss, 3, SECOND);
    FaultySampleSums();
  }
}
