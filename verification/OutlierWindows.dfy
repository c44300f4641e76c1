/**
 * What one more source can do to the selected time (internal/timesync/selection.go,
 * docs/ARCHITECTURE.md).  The good sources lie within the permitted spread of each other.  An outlier is
 * a report more than the permitted spread away from one of them: it lies outside their range, so it can
 * only join the half-window at one end of it.
 */
module OutlierWindows {
  import opened Common
  import opened TimeMean
  import opened TimeSelection
  import opened TimeTolerance
  import opened TimeHull

  /** The good sources: usable reports that agree as documented. */
  predicate Agreeing(us: seq<Source>, spread: int) {
    && us != [] && 0 <= spread < TWO_63 / 2
    && Latest(us) - Earliest(us) <= spread
    && PositiveWeights(us)
    && forall s :: s in us ==> Usable(s)
  }

  /** More than the permitted spread before the latest, or after the earliest, of the good sources. */
  predicate Early(us: seq<Source>, x: Source, spread: int)
    requires us != []
  {
    x.timestamp < Latest(us) - spread
  }

  predicate Late(us: seq<Source>, x: Source, spread: int)
    requires us != []
  {
    x.timestamp > Earliest(us) + spread
  }

  /** The size of the largest half-window. */
  ghost function Best(us: seq<Source>, tol: int): nat
    requires us != []
  {
    |Window(us, BestStart(us, tol), tol)|
  }

  /** A source at `t`, before all others, and its neighbours are at least as many as the best window. */
  ghost predicate OpensLeft(us: seq<Source>, t: int, tol: int)
    requires us != []
  {
    |Window(us, t, tol)| + 1 >= Best(us, tol)
  }

  /** A source at `t`, after all others, and its neighbours are more than the best window. */
  ghost predicate ClosesRight(us: seq<Source>, t: int, tol: int)
    requires us != []
  {
    |Window(us, t - tol, tol)| + 1 > Best(us, tol)
  }

  // ----- windows -----

  lemma {:induction false} WindowGrows(us: seq<Source>, a: int, b: int, tol: int)
    requires forall s :: s in us && InWindow(s, a, tol) ==> InWindow(s, b, tol)
    ensures |Window(us, a, tol)| <= |Window(us, b, tol)|
  {
    if us != [] {
      WindowGrows(us[..|us| - 1], a, b, tol);
    }
  }

  lemma {:induction false} WindowMembers(us: seq<Source>, lo: int, tol: int)
    ensures forall s :: s in Window(us, lo, tol) <==> s in us && InWindow(s, lo, tol)
  {
    if us != [] {
      var front, last := us[..|us| - 1], us[|us| - 1];
      assert us == front + [last];
      WindowMembers(front, lo, tol);
    }
  }

  lemma WindowWith(us: seq<Source>, x: Source, lo: int, tol: int)
    ensures Window(us + [x], lo, tol) == Window(us, lo, tol) + if InWindow(x, lo, tol) then [x] else []
  {
    assert (us + [x])[..|us|] == us;
  }

  lemma BestIsLargest(us: seq<Source>, tol: int, s: Source)
    requires us != [] && s in us
    ensures |Window(us, s.timestamp, tol)| <= Best(us, tol)
  {
    assert Beats(us, tol, BestStart(us, tol), s.timestamp);
  }

  lemma BestNotEmpty(us: seq<Source>, tol: int)
    requires us != [] && tol >= 0
    ensures Best(us, tol) >= 1
  {
    var lo := BestStart(us, tol);
    var s :| s in us && s.timestamp == lo;
    WindowMembers(us, lo, tol);
    assert s in Window(us, lo, tol);
  }

  /** An early outlier is the leftmost source; it opens the chosen window exactly when it and the good
      sources near it are at least as many as the largest half-window of good sources. */
  lemma EarlyWins(us: seq<Source>, x: Source, tol: int)
    requires us != [] && tol >= 0 && x.timestamp < Earliest(us)
    ensures var lo := BestStart(us + [x], tol);
            if OpensLeft(us, x.timestamp, tol)
            then lo == x.timestamp
            else lo > x.timestamp
  {
    var all, lo, b := us + [x], BestStart(us + [x], tol), BestStart(us, tol);
    assert x in all;
    var s :| s in all && s.timestamp == lo;
    var g :| g in us && g.timestamp == b;
    assert g in all;
    WindowWith(us, x, x.timestamp, tol);
    WindowWith(us, x, b, tol);
    assert Beats(all, tol, lo, x.timestamp) && Beats(all, tol, lo, g.timestamp);
    if s != x && lo != x.timestamp {
      assert s in us;
      WindowWith(us, x, lo, tol);
      BestIsLargest(us, tol, s);
    }
  }

  /** Good sources at most `tol` before a late outlier. */
  lemma LateNeighbours(us: seq<Source>, x: Source, lo: int, tol: int)
    requires us != [] && tol >= 0 && x.timestamp > Latest(us) && x.timestamp - tol <= lo
    ensures |Window(us, lo, tol)| <= |Window(us, x.timestamp - tol, tol)|
  {
    WindowGrows(us, lo, x.timestamp - tol, tol);
  }

  /** A late outlier is the rightmost source; it is in the chosen window exactly when it and the good
      sources near it are more than the largest half-window of good sources. */
  lemma LateWins(us: seq<Source>, x: Source, tol: int)
    requires us != [] && tol >= 0 && x.timestamp > Latest(us)
    ensures InWindow(x, BestStart(us + [x], tol), tol) <==> ClosesRight(us, x.timestamp, tol)
  {
    if ClosesRight(us, x.timestamp, tol) {
      LateJoins(us, x, tol);
    } else if InWindow(x, BestStart(us + [x], tol), tol) {
      LateCloses(us, x, tol);
    }
  }

  /** The earliest good source near a late outlier opens a window with all of them and the outlier. */
  lemma NearestOpens(us: seq<Source>, x: Source, tol: int) returns (g: Source)
    requires us != [] && tol >= 0 && x.timestamp > Latest(us) && Window(us, x.timestamp - tol, tol) != []
    ensures g in us && InWindow(x, g.timestamp, tol)
    ensures |Window(us, x.timestamp - tol, tol)| <= |Window(us, g.timestamp, tol)|
  {
    var near := Window(us, x.timestamp - tol, tol);
    var m := Earliest(near);
    g :| g in near && g.timestamp == m;
    WindowMembers(us, x.timestamp - tol, tol);
    forall s | s in us && InWindow(s, x.timestamp - tol, tol)
      ensures InWindow(s, m, tol)
    {
      assert s in near;
    }
    WindowGrows(us, x.timestamp - tol, m, tol);
  }

  lemma LateJoins(us: seq<Source>, x: Source, tol: int)
    requires us != [] && tol >= 0 && x.timestamp > Latest(us)
    requires ClosesRight(us, x.timestamp, tol)
    ensures InWindow(x, BestStart(us + [x], tol), tol)
  {
    var all, lo := us + [x], BestStart(us + [x], tol);
    BestNotEmpty(us, tol);
    var g := NearestOpens(us, x, tol);
    WindowWith(us, x, g.timestamp, tol);
    assert g in all && Beats(all, tol, lo, g.timestamp);
    WindowWith(us, x, lo, tol);
    var s :| s in all && s.timestamp == lo;
    if !InWindow(x, lo, tol) {
      BestIsLargest(us, tol, s);
    }
  }

  lemma LateCloses(us: seq<Source>, x: Source, tol: int)
    requires us != [] && tol >= 0 && x.timestamp > Latest(us) && InWindow(x, BestStart(us + [x], tol), tol)
    ensures ClosesRight(us, x.timestamp, tol)
  {
    var g := BestMember(us, tol);
    BestBeatsWith(us, x, tol, g);
    WinnerCloses(us, x, BestStart(us + [x], tol), g.timestamp, tol);
  }

  lemma BestBeatsWith(us: seq<Source>, x: Source, tol: int, g: Source)
    requires g in us
    ensures Beats(us + [x], tol, BestStart(us + [x], tol), g.timestamp)
  {
    BestBeats(us + [x], tol, g);
  }

  lemma BestMember(us: seq<Source>, tol: int) returns (g: Source)
    requires us != []
    ensures g in us && |Window(us, g.timestamp, tol)| == Best(us, tol)
  {
    var b := BestStart(us, tol);
    g :| g in us && g.timestamp == b;
  }

  lemma BestBeats(ss: seq<Source>, tol: int, g: Source)
    requires ss != [] && g in ss
    ensures Beats(ss, tol, BestStart(ss, tol), g.timestamp)
  {
  }

  /** A window with the late outlier that beats one of the good sources' is no larger than the outlier's
      neighbourhood. */
  lemma WinnerCloses(us: seq<Source>, x: Source, lo: int, b: int, tol: int)
    requires us != [] && tol >= 0 && x.timestamp > Latest(us) && InWindow(x, lo, tol)
    requires Beats(us + [x], tol, lo, b)
    ensures |Window(us, x.timestamp - tol, tol)| + 1 > |Window(us, b, tol)|
  {
    WindowWith(us, x, lo, tol);
    WindowWith(us, x, b, tol);
    LateNeighbours(us, x, lo, tol);
    if lo <= b {
      WindowGrows(us, b, lo, tol);
    }
  }
}
