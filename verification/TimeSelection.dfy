/**
 * Choosing a time from several GPS broadcasters (internal/timesync/selection.go).
 *
 * The imperative code filters, sorts, searches for the largest agreeing window and takes a
 * dispersion-weighted mean.  `Select` says what that computes without mentioning an order:
 * it is a function of the multiset of sources only.
 *
 * Timestamps are 64-bit nanosecond counts, and their differences wrap as they do in Go.
 */
module TimeSelection {
  import opened Common
  import opened TimeMean

  const MAX_STRATUM := 15
  const MAX_DISPERSION: real := 1.0

  /** Two's complement subtraction of two int64 values. */
  function Sub64(a: int64, b: int64): (r: int64)
    ensures -TWO_63 <= a - b < TWO_63 ==> r == a - b
    ensures a - b >= TWO_63 ==> r == a - b - TWO_64
  {
    (a - b + TWO_63) % TWO_64 - TWO_63
  }

  // ----- filtering -----

  predicate Usable(s: Source) {
    s.stratum <= MAX_STRATUM && s.dispersion <= MAX_DISPERSION
  }

  function Usables(ss: seq<Source>): seq<Source> {
    if ss == [] then []
    else
      var rest := Usables(ss[..|ss| - 1]);
      if Usable(ss[|ss| - 1]) then rest + [ss[|ss| - 1]] else rest
  }

  predicate InWindow(s: Source, lo: int, tol: int) {
    lo <= s.timestamp <= lo + tol
  }

  /** The sources stamped in `[lo, lo + tol]`, in their original order. */
  function Window(ss: seq<Source>, lo: int, tol: int): seq<Source> {
    if ss == [] then []
    else
      var rest := Window(ss[..|ss| - 1], lo, tol);
      if InWindow(ss[|ss| - 1], lo, tol) then rest + [ss[|ss| - 1]] else rest
  }

  // ----- order-free description of the selection -----

  function Earliest(ss: seq<Source>): (t: int64)
    requires ss != []
    ensures exists s :: s in ss && s.timestamp == t
    ensures forall s :: s in ss ==> t <= s.timestamp
  {
    var last := ss[|ss| - 1];
    if |ss| == 1 then last.timestamp
    else
      var t := Earliest(ss[..|ss| - 1]);
      assert forall s :: s in ss ==> s in ss[..|ss| - 1] || s == last;
      if last.timestamp < t then last.timestamp else t
  }

  function Latest(ss: seq<Source>): (t: int64)
    requires ss != []
    ensures exists s :: s in ss && s.timestamp == t
    ensures forall s :: s in ss ==> s.timestamp <= t
  {
    var last := ss[|ss| - 1];
    if |ss| == 1 then last.timestamp
    else
      var t := Latest(ss[..|ss| - 1]);
      assert forall s :: s in ss ==> s in ss[..|ss| - 1] || s == last;
      if last.timestamp > t then last.timestamp else t
  }

  /** Starting the window at `lo` beats starting it at `t`: it holds more sources, or as many and
      `lo` is not later. */
  predicate Beats(ss: seq<Source>, tol: int, lo: int, t: int) {
    var a, b := |Window(ss, lo, tol)|, |Window(ss, t, tol)|;
    a > b || (a == b && lo <= t)
  }

  /** `lo` is the earliest source timestamp among those whose window is largest. */
  ghost predicate IsBestStart(ss: seq<Source>, tol: int, lo: int) {
    && (exists s :: s in ss && s.timestamp == lo)
    && (forall s :: s in ss ==> Beats(ss, tol, lo, s.timestamp))
  }

  lemma BestStartExists(ss: seq<Source>, tol: int) returns (lo: int)
    requires ss != []
    ensures IsBestStart(ss, tol, lo)
  {
    lo := ss[0].timestamp;
    var i := 1;
    while i < |ss|
      invariant 1 <= i <= |ss|
      invariant exists s :: s in ss && s.timestamp == lo
      invariant forall k :: 0 <= k < i ==> Beats(ss, tol, lo, ss[k].timestamp)
    {
      if !Beats(ss, tol, lo, ss[i].timestamp) {
        lo := ss[i].timestamp;
      }
      i := i + 1;
    }
  }

  ghost function BestStart(ss: seq<Source>, tol: int): (lo: int)
    requires ss != []
    ensures IsBestStart(ss, tol, lo)
  {
    assert exists lo :: IsBestStart(ss, tol, lo) by { var lo := BestStartExists(ss, tol); }
    var lo :| IsBestStart(ss, tol, lo);
    lo
  }

  /** The sources that take part in the mean. */
  ghost function Chosen(us: seq<Source>, maxSpread: int): seq<Source>
    requires us != []
  {
    if Sub64(Latest(us), Earliest(us)) > maxSpread
    then Window(us, BestStart(us, maxSpread / 2), maxSpread / 2)
    else us
  }

  /** What `SelectBestTime` returns, as a function of the sources. */
  ghost function Select(sources: seq<Source>, minSources: int, maxSpread: int): Outcome
    requires minSources >= 1
  {
    var us := Usables(sources);
    if |sources| < minSources then TooFewSources
    else if |us| < minSources then TooFewUsable
    else if |Chosen(us, maxSpread)| < minSources then Disagree
    else MeanOutcome(Chosen(us, maxSpread))
  }

  // ----- the code -----

  predicate Sorted(ss: seq<Source>) {
    forall i, j :: 0 <= i < j < |ss| ==> ss[i].timestamp <= ss[j].timestamp
  }

  /** `sort.Slice` by timestamp.  Callers may rely on the contract only: which of the sorted
      orders comes out is unspecified. */
  method SortByTimestamp(ss: seq<Source>) returns (r: seq<Source>)
    ensures Sorted(r)
    ensures multiset(r) == multiset(ss)
  {
    r := [];
    for n := 0 to |ss|
      invariant Sorted(r)
      invariant multiset(r) == multiset(ss[..n])
    {
      assert ss[..n + 1] == ss[..n] + [ss[n]];
      r := Insert(r, ss[n]);
    }
    assert ss[..|ss|] == ss;
  }

  method Insert(r: seq<Source>, x: Source) returns (r': seq<Source>)
    requires Sorted(r)
    ensures Sorted(r')
    ensures multiset(r') == multiset(r) + multiset{x}
  {
    var k := |r|;
    while k > 0 && r[k - 1].timestamp > x.timestamp
      invariant 0 <= k <= |r|
      invariant forall i :: k <= i < |r| ==> x.timestamp <= r[i].timestamp
    {
      k := k - 1;
    }
    assert r == r[..k] + r[k..];
    InsertKeepsSorted(r, k, x);
    r' := r[..k] + [x] + r[k..];
  }

  lemma InsertKeepsSorted(r: seq<Source>, k: nat, x: Source)
    requires Sorted(r) && k <= |r|
    requires k > 0 ==> r[k - 1].timestamp <= x.timestamp
    requires forall i :: k <= i < |r| ==> x.timestamp <= r[i].timestamp
    ensures Sorted(r[..k] + [x] + r[k..])
  {
    assert forall i :: 0 <= i < k ==> r[i].timestamp <= x.timestamp;
  }

  /** The inner loop of `findAgreeingSubset`: the run of sources within `tolerance` of source `i`. */
  method AgreeingRun(sources: seq<Source>, i: nat, tolerance: int) returns (subset: seq<Source>)
    requires tolerance >= 0 && Sorted(sources) && i < |sources|
    requires sources[|sources| - 1].timestamp - sources[i].timestamp < TWO_63
    ensures |subset| <= |Window(sources, sources[i].timestamp, tolerance)|
    ensures i == 0 || sources[i - 1].timestamp < sources[i].timestamp
            ==> subset == Window(sources, sources[i].timestamp, tolerance)
  {
    subset := [];
    var j := i;
    while j < |sources|
      invariant i <= j <= |sources|
      invariant subset == sources[i..j]
      invariant forall k :: i <= k < j ==> sources[k].timestamp <= sources[i].timestamp + tolerance
    {
      assert sources[i].timestamp <= sources[j].timestamp <= sources[|sources| - 1].timestamp;
      if Sub64(sources[j].timestamp, sources[i].timestamp) > tolerance {
        break;
      }
      subset := subset + [sources[j]];
      j := j + 1;
    }
    WindowOfRun(sources, i, j, tolerance);
  }

  lemma BeatsTransitive(ss: seq<Source>, tol: int, a: int, b: int, c: int)
    requires Beats(ss, tol, a, b) && Beats(ss, tol, b, c)
    ensures Beats(ss, tol, a, c)
  {
  }

  /** `lo` is the best start among the first `n` sources. */
  ghost predicate BestAmong(ss: seq<Source>, tol: int, n: nat, lo: int)
    requires n <= |ss|
  {
    && (exists k :: 0 <= k < n && ss[k].timestamp == lo)
    && (forall k :: 0 <= k < n ==> Beats(ss, tol, lo, ss[k].timestamp))
  }

  lemma BestAmongNext(ss: seq<Source>, tol: int, n: nat, lo: int)
    requires n < |ss| && BestAmong(ss, tol, n, lo)
    ensures var t := ss[n].timestamp;
            if Beats(ss, tol, lo, t) then BestAmong(ss, tol, n + 1, lo) else BestAmong(ss, tol, n + 1, t)
  {
    var t := ss[n].timestamp;
    if !Beats(ss, tol, lo, t) {
      forall k | 0 <= k < n + 1
        ensures Beats(ss, tol, t, ss[k].timestamp)
      {
        if k < n {
          BeatsTransitive(ss, tol, t, lo, ss[k].timestamp);
        }
      }
    }
  }

  method FindAgreeingSubset(sources: seq<Source>, tolerance: int) returns (best: seq<Source>)
    requires tolerance >= 0
    requires Sorted(sources)
    requires sources != [] ==> Latest(sources) - Earliest(sources) < TWO_63
    ensures sources == [] ==> best == []
    ensures sources != [] ==> best == Window(sources, BestStart(sources, tolerance), tolerance)
  {
    if sources == [] {
      return [];
    }
    SortedEnds(sources);
    best := [];
    var bestSize := 0;
    ghost var lo := sources[0].timestamp as int;
    for i := 0 to |sources|
      invariant bestSize == |best|
      invariant i == 0 ==> best == []
      invariant i > 0 ==> best == Window(sources, lo, tolerance) && BestAmong(sources, tolerance, i, lo)
    {
      var subset := AgreeingRun(sources, i, tolerance);
      ghost var t := sources[i].timestamp as int;
      if i == 0 {
        assert |subset| > 0 by {
          assert sources[0] in Window(sources, t, tolerance) by { WindowHas(sources, 0, tolerance); }
        }
        assert BestAmong(sources, tolerance, 1, t);
      } else {
        BestAmongNext(sources, tolerance, i, lo);
        RunDecides(sources, tolerance, i, lo, subset);
      }
      if |subset| > bestSize {
        bestSize := |subset|;
        best := subset;
        lo := t;
      }
    }
    IsBestFromAmong(sources, tolerance, lo);
    BestStartUnique(sources, tolerance, lo, BestStart(sources, tolerance));
  }

  lemma WindowHas(ss: seq<Source>, i: nat, tol: int)
    requires i < |ss| && tol >= 0
    ensures ss[i] in Window(ss, ss[i].timestamp, tol)
  {
    WindowCount(ss, ss[i].timestamp, tol, ss[i]);
    assert ss[i] in multiset(ss);
    assert ss[i] in multiset(Window(ss, ss[i].timestamp, tol));
  }

  /** A run is longer than the best window so far exactly when its start beats the best start; it is
      then the whole window of that start. */
  lemma RunDecides(ss: seq<Source>, tol: int, i: nat, lo: int, run: seq<Source>)
    requires Sorted(ss) && 0 < i < |ss| && BestAmong(ss, tol, i, lo)
    requires |run| <= |Window(ss, ss[i].timestamp, tol)|
    requires ss[i - 1].timestamp < ss[i].timestamp ==> run == Window(ss, ss[i].timestamp, tol)
    ensures |run| > |Window(ss, lo, tol)| <==> !Beats(ss, tol, lo, ss[i].timestamp)
    ensures |run| > |Window(ss, lo, tol)| ==> run == Window(ss, ss[i].timestamp, tol)
  {
    assert Beats(ss, tol, lo, ss[i - 1].timestamp);
    var k :| 0 <= k < i && ss[k].timestamp == lo;
    assert lo <= ss[i].timestamp;
  }

  lemma IsBestFromAmong(ss: seq<Source>, tol: int, lo: int)
    requires BestAmong(ss, tol, |ss|, lo)
    ensures IsBestStart(ss, tol, lo)
  {
    var k :| 0 <= k < |ss| && ss[k].timestamp == lo;
    assert ss[k] in ss;
  }

  method SelectBestTime(sources: seq<Source>, minSources: int, maxSpread: int) returns (r: Outcome)
    requires minSources >= 1
    requires maxSpread >= 0
    ensures r == Select(sources, minSources, maxSpread)
  {
    if |sources| < minSources {
      return TooFewSources;
    }
    var valid: seq<Source> := [];
    for i := 0 to |sources|
      invariant valid == Usables(sources[..i])
    {
      assert sources[..i + 1][..i] == sources[..i];
      if sources[i].stratum > MAX_STRATUM {
        continue;
      }
      if sources[i].dispersion > MAX_DISPERSION {
        continue;
      }
      valid := valid + [sources[i]];
    }
    assert sources[..|sources|] == sources;
    ghost var us := valid;
    if |valid| < minSources {
      return TooFewUsable;
    }
    valid := SortByTimestamp(valid);
    SameMultisetSameLength(valid, us);
    SameMultisetSameChoice(valid, us, maxSpread);
    SortedEnds(valid);
    var spread := Sub64(valid[|valid| - 1].timestamp, valid[0].timestamp);
    ghost var sorted := valid;
    if spread > maxSpread {
      var agreeing := FindAgreeingSubset(valid, maxSpread / 2);
      SameMultisetSameLength(agreeing, Chosen(us, maxSpread));
      if |agreeing| < minSources {
        return Disagree;
      }
      valid := agreeing;
    }
    assert valid == Chosen(sorted, maxSpread);
    SameMultisetSameLength(valid, Chosen(us, maxSpread));
    SameMultisetSameMean(valid, Chosen(us, maxSpread));
    r := WeightedMean(valid);
  }

  // ----- windows of sorted sequences -----

  lemma {:induction false} WindowConcat(a: seq<Source>, b: seq<Source>, lo: int, tol: int)
    ensures Window(a + b, lo, tol) == Window(a, lo, tol) + Window(b, lo, tol)
  {
    if b == [] {
      assert a + b == a;
    } else {
      var n := |b| - 1;
      assert (a + b)[..|a + b| - 1] == a + b[..n];
      WindowConcat(a, b[..n], lo, tol);
    }
  }

  lemma {:induction false} WindowAll(a: seq<Source>, lo: int, tol: int)
    requires forall k :: 0 <= k < |a| ==> InWindow(a[k], lo, tol)
    ensures Window(a, lo, tol) == a
  {
    if a != [] {
      var front, last := a[..|a| - 1], a[|a| - 1];
      assert a == front + [last];
      WindowAll(front, lo, tol);
    }
  }

  lemma {:induction false} WindowNone(a: seq<Source>, lo: int, tol: int)
    requires forall k :: 0 <= k < |a| ==> !InWindow(a[k], lo, tol)
    ensures Window(a, lo, tol) == []
  {
    if a != [] {
      var front := a[..|a| - 1];
      WindowNone(front, lo, tol);
    }
  }

  lemma WindowSplit(ss: seq<Source>, i: nat, j: nat, lo: int, tol: int)
    requires i <= j <= |ss|
    ensures Window(ss, lo, tol) == Window(ss[..i], lo, tol) + Window(ss[i..j], lo, tol) + Window(ss[j..], lo, tol)
  {
    assert ss == ss[..i] + ss[i..j] + ss[j..];
    WindowConcat(ss[..i] + ss[i..j], ss[j..], lo, tol);
    WindowConcat(ss[..i], ss[i..j], lo, tol);
  }

  lemma RunInside(ss: seq<Source>, i: nat, j: nat, tol: int)
    requires Sorted(ss) && i < |ss| && i <= j <= |ss|
    requires forall k :: i <= k < j ==> ss[k].timestamp <= ss[i].timestamp + tol
    ensures Window(ss[i..j], ss[i].timestamp, tol) == ss[i..j]
  {
    var b := ss[i..j];
    assert forall k :: 0 <= k < |b| ==> b[k] == ss[i + k];
    WindowAll(b, ss[i].timestamp, tol);
  }

  lemma RestOutside(ss: seq<Source>, j: nat, lo: int, tol: int)
    requires Sorted(ss) && j <= |ss| && (j < |ss| ==> ss[j].timestamp > lo + tol)
    ensures Window(ss[j..], lo, tol) == []
  {
    var c := ss[j..];
    assert forall k :: 0 <= k < |c| ==> c[k] == ss[j + k];
    WindowNone(c, lo, tol);
  }

  lemma FrontOutside(ss: seq<Source>, i: nat, lo: int, tol: int)
    requires Sorted(ss) && i <= |ss| && (i > 0 ==> ss[i - 1].timestamp < lo)
    ensures Window(ss[..i], lo, tol) == []
  {
    var a := ss[..i];
    assert forall k :: 0 <= k < |a| ==> a[k] == ss[k];
    WindowNone(a, lo, tol);
  }

  /** The run `ss[i..j]` scanned by the inner loop is part of the window that starts at its first
      timestamp, and all of it unless the run starts inside a group of equal timestamps. */
  lemma WindowOfRun(ss: seq<Source>, i: nat, j: nat, tol: int)
    requires Sorted(ss) && i < |ss| && i <= j <= |ss| && tol >= 0
    requires forall k :: i <= k < j ==> ss[k].timestamp <= ss[i].timestamp + tol
    requires j < |ss| ==> ss[j].timestamp > ss[i].timestamp + tol
    ensures |ss[i..j]| <= |Window(ss, ss[i].timestamp, tol)|
    ensures i == 0 || ss[i - 1].timestamp < ss[i].timestamp ==> ss[i..j] == Window(ss, ss[i].timestamp, tol)
  {
    var lo := ss[i].timestamp;
    WindowSplit(ss, i, j, lo, tol);
    RunInside(ss, i, j, tol);
    RestOutside(ss, j, lo, tol);
    if i == 0 || ss[i - 1].timestamp < lo {
      FrontOutside(ss, i, lo, tol);
    }
  }

  lemma SortedEnds(ss: seq<Source>)
    requires Sorted(ss) && ss != []
    ensures Earliest(ss) == ss[0].timestamp && Latest(ss) == ss[|ss| - 1].timestamp
  {
    assert ss[0] in ss && ss[|ss| - 1] in ss;
  }

  lemma BestStartUnique(ss: seq<Source>, tol: int, a: int, b: int)
    requires IsBestStart(ss, tol, a) && IsBestStart(ss, tol, b)
    ensures a == b
  {
    var s :| s in ss && s.timestamp == a;
    var t :| t in ss && t.timestamp == b;
    assert Beats(ss, tol, a, t.timestamp) && Beats(ss, tol, b, s.timestamp);
  }

  // ----- only the multiset of sources matters -----

  lemma {:induction false} WindowCount(ss: seq<Source>, lo: int, tol: int, x: Source)
    ensures multiset(Window(ss, lo, tol))[x] == if InWindow(x, lo, tol) then multiset(ss)[x] else 0
  {
    if ss != [] {
      WindowCount(ss[..|ss| - 1], lo, tol, x);
      assert ss == ss[..|ss| - 1] + [ss[|ss| - 1]];
    }
  }

  lemma WindowSameMultiset(a: seq<Source>, b: seq<Source>, lo: int, tol: int)
    requires multiset(a) == multiset(b)
    ensures multiset(Window(a, lo, tol)) == multiset(Window(b, lo, tol))
    ensures |Window(a, lo, tol)| == |Window(b, lo, tol)|
  {
    var wa, wb := Window(a, lo, tol), Window(b, lo, tol);
    forall x
      ensures multiset(wa)[x] == multiset(wb)[x]
    {
      WindowCount(a, lo, tol, x);
      WindowCount(b, lo, tol, x);
    }
    SameMultisetSameLength(wa, wb);
  }

  lemma {:induction false} UsablesCount(ss: seq<Source>, x: Source)
    ensures multiset(Usables(ss))[x] == if Usable(x) then multiset(ss)[x] else 0
  {
    if ss != [] {
      UsablesCount(ss[..|ss| - 1], x);
      assert ss == ss[..|ss| - 1] + [ss[|ss| - 1]];
    }
  }

  lemma BestStartSameMultiset(a: seq<Source>, b: seq<Source>, tol: int)
    requires a != [] && b != [] && multiset(a) == multiset(b)
    ensures BestStart(a, tol) == BestStart(b, tol)
  {
    var lo := BestStart(a, tol);
    SameMultisetSameLength(a, b);
    forall s | s in b
      ensures Beats(b, tol, lo, s.timestamp)
    {
      assert Beats(a, tol, lo, s.timestamp);
      WindowSameMultiset(a, b, lo, tol);
      WindowSameMultiset(a, b, s.timestamp, tol);
    }
    BestStartUnique(b, tol, lo, BestStart(b, tol));
  }

  lemma SameMultisetSameChoice(a: seq<Source>, b: seq<Source>, maxSpread: int)
    requires a != [] && b != [] && multiset(a) == multiset(b)
    ensures multiset(Chosen(a, maxSpread)) == multiset(Chosen(b, maxSpread))
  {
    SameMultisetSameLength(a, b);
    assert Earliest(a) == Earliest(b) && Latest(a) == Latest(b);
    var tol := maxSpread / 2;
    BestStartSameMultiset(a, b, tol);
    WindowSameMultiset(a, b, BestStart(a, tol), tol);
  }

  /** Map iteration order, the unstable sort and timestamp ties never change the outcome. */
  lemma SelectDependsOnMultisetOnly(a: seq<Source>, b: seq<Source>, minSources: int, maxSpread: int)
    requires minSources >= 1
    requires multiset(a) == multiset(b)
    ensures Select(a, minSources, maxSpread) == Select(b, minSources, maxSpread)
  {
    SameMultisetSameLength(a, b);
    var ua, ub := Usables(a), Usables(b);
    forall x
      ensures multiset(ua)[x] == multiset(ub)[x]
    {
      UsablesCount(a, x);
      UsablesCount(b, x);
    }
    SameMultisetSameLength(ua, ub);
    if |ua| >= minSources {
      SameMultisetSameChoice(ua, ub, maxSpread);
      SameMultisetSameLength(Chosen(ua, maxSpread), Chosen(ub, maxSpread));
      SameMultisetSameMean(Chosen(ua, maxSpread), Chosen(ub, maxSpread));
    }
  }

  // ----- optimality of the window -----

  ghost predicate PairwiseWithin(m: multiset<Source>, d: int) {
    forall s, t :: s in m && t in m ==> s.timestamp - t.timestamp <= d
  }

  lemma {:induction false} EarliestMember(m: multiset<Source>) returns (e: Source)
    requires |m| > 0
    ensures e in m
    ensures forall s :: s in m ==> e.timestamp <= s.timestamp
    decreases |m|
  {
    var x :| x in m;
    var rest := m - multiset{x};
    if |rest| == 0 {
      e := x;
      assert m == multiset{x} + rest;
    } else {
      var y := EarliestMember(rest);
      assert forall s :: s in m ==> s == x || s in rest;
      e := if x.timestamp <= y.timestamp then x else y;
    }
  }

  lemma SubMultisetSize(a: multiset<Source>, b: multiset<Source>)
    requires a <= b
    ensures |a| <= |b|
  {
    assert b == a + (b - a);
  }

  /** No way of picking sources that agree pairwise, contiguous or not, beats the window. */
  lemma WindowIsOptimal(ss: seq<Source>, tol: int, pick: multiset<Source>)
    requires ss != [] && tol >= 0
    requires pick <= multiset(ss) && PairwiseWithin(pick, tol)
    ensures var w := Window(ss, BestStart(ss, tol), tol);
            && multiset(w) <= multiset(ss)
            && PairwiseWithin(multiset(w), tol)
            && |pick| <= |w|
  {
    var lo := BestStart(ss, tol);
    forall x { WindowCount(ss, lo, tol, x); }
    if |pick| > 0 {
      var e := EarliestMember(pick);
      assert e in ss;
      var w := Window(ss, e.timestamp, tol);
      forall x | x in pick
        ensures pick[x] <= multiset(w)[x]
      {
        WindowCount(ss, e.timestamp, tol, x);
        assert x.timestamp - e.timestamp <= tol;
      }
      assert pick <= multiset(w);
      SubMultisetSize(pick, multiset(w));
      assert |multiset(w)| == |w|;
      assert Beats(ss, tol, lo, e.timestamp);
    }
  }
}
