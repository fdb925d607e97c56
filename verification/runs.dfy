/**
 * Frame-run detection over a column occupancy vector: the left-to-right scan
 * of `detectFrameRuns` that groups occupied columns into runs, bridging short
 * unoccupied gaps and dropping runs narrower than the minimum width.
 *
 * The scan is proved against a declarative description of its output: the
 * runs are exactly the "clusters" of occupied columns (see `IsCluster`) that
 * are at least `minWidth` wide, in left-to-right order.
 */
module Runs {

  /** An inclusive column range `[start, end]` of the sheet. */
  datatype Run = Run(start: int, end: int) {

    function Width(): int {
      end - start + 1
    }

    predicate Contains(c: int) {
      start <= c <= end
    }
  }

  /** The gap tolerance the scan actually applies: a negative value bridges nothing, like 0. */
  function EffectiveTol(gapTol: int): nat {
    if gapTol < 0 then 0 else gapTol
  }

  /** No column of the sheet in `[a, b)` is occupied (columns outside the sheet are ignored). */
  ghost predicate Clear(occ: seq<bool>, a: int, b: int) {
    forall c :: a <= c < b && 0 <= c < |occ| ==> !occ[c]
  }

  /** The `g + 1` columns just left of `c` are unoccupied (or off the sheet). */
  ghost predicate ClearBefore(occ: seq<bool>, g: nat, c: int) {
    Clear(occ, c - g - 1, c)
  }

  /** The `g + 1` columns just right of `c` are unoccupied (or off the sheet). */
  ghost predicate ClearAfter(occ: seq<bool>, g: nat, c: int) {
    Clear(occ, c + 1, c + g + 2)
  }

  /**
   * Inside `(s, e]` no column is more than `g + 1` columns right of the
   * nearest occupied column on its left: every unoccupied stretch strictly
   * inside `[s, e]` is at most `g` columns wide.
   */
  ghost predicate Bridged(occ: seq<bool>, g: nat, s: int, e: int) {
    forall c :: s < c <= e ==> !ClearBefore(occ, g, c)
  }

  /**
   * `[s, e]` is a maximal gap-bridged group of occupied columns: it starts and
   * ends on an occupied column, every inner gap is at most `g` wide, and at
   * least `g + 1` unoccupied columns (or the sheet edge) separate it from any
   * other occupied column on either side.
   */
  ghost predicate IsCluster(occ: seq<bool>, g: nat, s: int, e: int) {
    && 0 <= s <= e < |occ|
    && occ[s] && occ[e]
    && ClearBefore(occ, g, s)
    && ClearAfter(occ, g, e)
    && Bridged(occ, g, s, e)
  }

  /** Every run is non-empty and each run ends strictly before the next one starts. */
  ghost predicate Ordered(runs: seq<Run>) {
    && (forall k :: 0 <= k < |runs| ==> runs[k].start <= runs[k].end)
    && (forall i, j :: 0 <= i < j < |runs| ==> runs[i].end < runs[j].start)
  }

  /**
   * What the scan produces: the clusters at least `minWidth` wide, all of
   * them and nothing else, from left to right.
   */
  ghost predicate DetectSpec(occ: seq<bool>, minWidth: int, g: nat, runs: seq<Run>) {
    && Ordered(runs)
    && (forall k :: 0 <= k < |runs| ==>
          IsCluster(occ, g, runs[k].start, runs[k].end) && runs[k].Width() >= minWidth)
    && (forall s, e :: IsCluster(occ, g, s, e) && e - s + 1 >= minWidth ==> Run(s, e) in runs)
  }

  /** Two clusters that share a column are the same cluster. */
  lemma ClusterUnique(occ: seq<bool>, g: nat, s1: int, e1: int, s2: int, e2: int)
    requires IsCluster(occ, g, s1, e1) && IsCluster(occ, g, s2, e2)
    requires s1 <= e2 && s2 <= e1
    ensures s1 == s2 && e1 == e2
  {
    // Name the columns just past each end, so that the other cluster's
    // bridging can be compared with this cluster's clear right margin.
    assert ClearBefore(occ, g, e1 + g + 2) == ClearAfter(occ, g, e1);
    assert ClearBefore(occ, g, e2 + g + 2) == ClearAfter(occ, g, e2);
  }

  /** A gap of at most `g` columns after the last occupied column keeps the run bridged up to the next occupied column. */
  lemma BridgeAcrossGap(occ: seq<bool>, g: nat, start: int, last: int, next: int)
    requires 0 <= last < |occ| && occ[last] && Bridged(occ, g, start, last)
    requires last < next <= last + g + 1
    ensures Bridged(occ, g, start, next)
  {
    forall c | last < c <= next
      ensures !ClearBefore(occ, g, c)
    {
      assert occ[last];
    }
  }

  /** When the rest of the sheet from `x0` is unoccupied, no cluster starts there, so the runs found so far are complete. */
  lemma NoClusterInClearTail(occ: seq<bool>, g: nat, minWidth: int, runs: seq<Run>, x0: int)
    requires 0 <= x0 && Clear(occ, x0, |occ|)
    requires forall s, e :: IsCluster(occ, g, s, e) && e - s + 1 >= minWidth && s < x0 ==> Run(s, e) in runs
    ensures forall s, e :: IsCluster(occ, g, s, e) && e - s + 1 >= minWidth ==> Run(s, e) in runs
  {
    forall s, e | IsCluster(occ, g, s, e) && e - s + 1 >= minWidth
      ensures Run(s, e) in runs
    {
      assert occ[s];
    }
  }

  /**
   * The first occupied column after a clear margin of `g + 1` columns (or
   * after the sheet's left edge) has that margin on its left.
   */
  lemma ClearBeforeStart(occ: seq<bool>, g: nat, x0: int, start: int)
    requires 0 <= x0 <= start < |occ| && occ[start]
    requires x0 == 0 || ClearAfter(occ, g, x0 - 1)
    requires Clear(occ, x0, start)
    ensures ClearBefore(occ, g, start)
  {
    if x0 > 0 {
      assert start >= x0 + g + 1 by {
        assert occ[start];
      }
    }
  }

  /**
   * What holds each time the scan is about to look at column `x`: the runs
   * found so far are ordered wide clusters ending before `x`, the column just
   * before `x` is followed by a clear margin, and every wide cluster starting
   * before `x` has been found.
   */
  ghost predicate ScanInv(occ: seq<bool>, g: nat, minWidth: int, runs: seq<Run>, x: int) {
    && 0 <= x <= |occ|
    && Ordered(runs)
    && (forall k :: 0 <= k < |runs| ==> runs[k].end < x)
    && (forall k :: 0 <= k < |runs| ==>
          IsCluster(occ, g, runs[k].start, runs[k].end) && runs[k].Width() >= minWidth)
    && (x == 0 || ClearAfter(occ, g, x - 1))
    && (forall s, e :: IsCluster(occ, g, s, e) && e - s + 1 >= minWidth && s < x ==> Run(s, e) in runs)
  }

  /** The runs after handling the cluster `[start, last]`: it is kept only when wide enough. */
  function Keep(runs: seq<Run>, minWidth: int, start: int, last: int): seq<Run> {
    if last - start + 1 >= minWidth then runs + [Run(start, last)] else runs
  }

  /**
   * One pass of the scan keeps its invariant: after the clear stretch
   * `[x0, start)` and the cluster `[start, last]`, the scan resumes at
   * `last + 1`.
   */
  lemma ScanStep(occ: seq<bool>, g: nat, minWidth: int, runs: seq<Run>, x0: int, start: int, last: int)
    requires ScanInv(occ, g, minWidth, runs, x0)
    requires x0 <= start && Clear(occ, x0, start)
    requires IsCluster(occ, g, start, last)
    ensures ScanInv(occ, g, minWidth, Keep(runs, minWidth, start, last), last + 1)
  {
    var runs' := Keep(runs, minWidth, start, last);
    KeepOrdered(runs, minWidth, start, last);
    KeepClusters(occ, g, minWidth, runs, start, last);
    ScanStepComplete(occ, g, minWidth, runs, runs', x0, start, last);
  }

  /** Appending a run that starts after every earlier run ends keeps the list ordered. */
  lemma KeepOrdered(runs: seq<Run>, minWidth: int, start: int, last: int)
    requires Ordered(runs) && start <= last
    requires forall k :: 0 <= k < |runs| ==> runs[k].end < start
    ensures var runs' := Keep(runs, minWidth, start, last);
      && Ordered(runs')
      && (forall k :: 0 <= k < |runs'| ==> runs'[k].end < last + 1)
  {
    if last - start + 1 >= minWidth {
      var runs' := runs + [Run(start, last)];
      assert forall k :: 0 <= k < |runs| ==> runs'[k] == runs[k];
    }
  }

  lemma KeepClusters(occ: seq<bool>, g: nat, minWidth: int, runs: seq<Run>, start: int, last: int)
    requires forall k :: 0 <= k < |runs| ==>
      IsCluster(occ, g, runs[k].start, runs[k].end) && runs[k].Width() >= minWidth
    requires IsCluster(occ, g, start, last)
    ensures var runs' := Keep(runs, minWidth, start, last);
      forall k :: 0 <= k < |runs'| ==>
        IsCluster(occ, g, runs'[k].start, runs'[k].end) && runs'[k].Width() >= minWidth
  {
    if last - start + 1 >= minWidth {
      var runs' := runs + [Run(start, last)];
      assert forall k :: 0 <= k < |runs| ==> runs'[k] == runs[k];
    }
  }


  /**
   * One pass of the scan keeps the completeness part of the invariant: once the cluster
   * `[start, last]` has been handled, every wide cluster starting before
   * `last + 1` is among the runs.
   */
  lemma ScanStepComplete(occ: seq<bool>, g: nat, minWidth: int, runs0: seq<Run>, runs: seq<Run>,
                         x0: int, start: int, last: int)
    requires 0 <= x0 <= start && Clear(occ, x0, start)
    requires IsCluster(occ, g, start, last)
    requires forall s, e :: IsCluster(occ, g, s, e) && e - s + 1 >= minWidth && s < x0 ==> Run(s, e) in runs0
    requires forall r :: r in runs0 ==> r in runs
    requires last - start + 1 >= minWidth ==> Run(start, last) in runs
    ensures forall s, e :: IsCluster(occ, g, s, e) && e - s + 1 >= minWidth && s < last + 1 ==> Run(s, e) in runs
  {
    forall s, e | IsCluster(occ, g, s, e) && e - s + 1 >= minWidth && s < last + 1
      ensures Run(s, e) in runs
    {
      if s < x0 {
        assert Run(s, e) in runs0;
      } else {
        assert start <= s by {
          assert occ[s];
        }
        ClusterUnique(occ, g, s, e, start, last);
      }
    }
  }

  /**
   * The inner loops of the scan: starting from the occupied column `start`,
   * extend the run over occupied columns and over gaps of at most `gapTol`
   * unoccupied columns that are followed by an occupied one. The run closes
   * at `last` once no occupied column follows within `gapTol + 1` columns.
   */
  method ExtendRun(occ: seq<bool>, gapTol: int, start: int) returns (last: int)
    requires 0 <= start < |occ| && occ[start]
    ensures start <= last < |occ| && occ[last]
    ensures Bridged(occ, EffectiveTol(gapTol), start, last)
    ensures ClearAfter(occ, EffectiveTol(gapTol), last)
  {
    ghost var g := EffectiveTol(gapTol);
    var width := |occ|;
    last := start;
    var x := start + 1;
    while x < width
      invariant start <= last < width && x == last + 1
      invariant occ[start] && occ[last]
      invariant Bridged(occ, g, start, last)
      decreases width - x
    {
      if occ[x] {
        assert !ClearBefore(occ, g, x) by {
          assert occ[last];
        }
        last := x;
        x := x + 1;
        continue;
      }
      var gap := 1;
      while x + gap < width && gap <= gapTol && !occ[x + gap]
        invariant 1 <= gap && x + gap <= width
        invariant gap == 1 || gap <= gapTol + 1
        invariant Clear(occ, x, x + gap)
        decreases width - x - gap
      {
        gap := gap + 1;
      }
      if x + gap < width && gap <= gapTol && occ[x + gap] {
        BridgeAcrossGap(occ, g, start, last, x + gap);
        x := x + gap + 1;
        last := x - 1;
        continue;
      }
      assert ClearAfter(occ, g, last);
      break;
    }
    assert ClearAfter(occ, g, last);
  }

  /**
   * The scan of `detectFrameRuns` (sketch.js, the loops after the occupancy
   * pass): skip unoccupied columns, open a run at the next occupied one,
   * extend it through occupied columns and through gaps of at most `gapTol`
   * unoccupied columns, keep it if it is at least `minWidth` wide, and resume
   * right after its last column.
   */
  method ScanRuns(occ: seq<bool>, minWidth: int, gapTol: int) returns (runs: seq<Run>)
    ensures forall k :: 0 <= k < |runs| ==> 0 <= runs[k].start <= runs[k].end < |occ|
    ensures forall i, j :: 0 <= i < j < |runs| ==> runs[i].end < runs[j].start
    ensures forall k :: 0 <= k < |runs| ==> runs[k].end - runs[k].start + 1 >= minWidth
    ensures DetectSpec(occ, minWidth, EffectiveTol(gapTol), runs)
  {
    ghost var g := EffectiveTol(gapTol);
    var width := |occ|;
    runs := [];
    var x := 0;
    while x < width
      invariant ScanInv(occ, g, minWidth, runs, x)
      decreases width - x
    {
      ghost var x0 := x;
      while x < width && !occ[x]
        invariant x0 <= x <= width
        invariant Clear(occ, x0, x)
      {
        x := x + 1;
      }
      if x >= width {
        NoClusterInClearTail(occ, g, minWidth, runs, x0);
        break;
      }
      var start := x;
      ClearBeforeStart(occ, g, x0, start);
      var last := ExtendRun(occ, gapTol, start);
      ScanStep(occ, g, minWidth, runs, x0, start, last);
      runs := Keep(runs, minWidth, start, last);
      x := last + 1;
    }
  }


  /** Walking left from an occupied column reaches the start of its cluster. */
  lemma {:induction false} ClusterLeftEnd(occ: seq<bool>, g: nat, c: int) returns (s: int)
    requires 0 <= c < |occ| && occ[c]
    ensures 0 <= s <= c && occ[s]
    ensures ClearBefore(occ, g, s) && Bridged(occ, g, s, c)
    decreases c
  {
    if ClearBefore(occ, g, c) {
      s := c;
    } else {
      var d :| c - g - 1 <= d < c && 0 <= d < |occ| && occ[d];
      s := ClusterLeftEnd(occ, g, d);
      forall c' | d < c' <= c
        ensures !ClearBefore(occ, g, c')
      {
        assert occ[d];
      }
    }
  }

  /** Walking right from an occupied column reaches the end of its cluster. */
  lemma {:induction false} ClusterRightEnd(occ: seq<bool>, g: nat, c: int) returns (e: int)
    requires 0 <= c < |occ| && occ[c]
    ensures c <= e < |occ| && occ[e]
    ensures ClearAfter(occ, g, e) && Bridged(occ, g, c, e)
    decreases |occ| - c
  {
    if ClearAfter(occ, g, c) {
      e := c;
    } else {
      var d :| c + 1 <= d < c + g + 2 && 0 <= d < |occ| && occ[d];
      e := ClusterRightEnd(occ, g, d);
      forall c' | c < c' <= d
        ensures !ClearBefore(occ, g, c')
      {
        assert occ[c];
      }
    }
  }

  /** Every occupied column belongs to a cluster (and, by `ClusterUnique`, to only one). */
  lemma ClusterOf(occ: seq<bool>, g: nat, c: int) returns (s: int, e: int)
    requires 0 <= c < |occ| && occ[c]
    ensures IsCluster(occ, g, s, e) && s <= c <= e
  {
    s := ClusterLeftEnd(occ, g, c);
    e := ClusterRightEnd(occ, g, c);
  }

  /** Two ordered run sequences with the same elements are equal. */
  lemma {:induction false} OrderedSameElements(a: seq<Run>, b: seq<Run>)
    requires Ordered(a) && Ordered(b)
    requires forall r :: r in a <==> r in b
    ensures a == b
    decreases |a|
  {
    assert |a| == 0 || a[0] in b;
    assert |b| == 0 || b[0] in a;
    if a != [] {
      FirstIsLeftmost(a, b[0]);
      FirstIsLeftmost(b, a[0]);
      assert a[0] == b[0];
      assert a == [a[0]] + a[1..] && b == [b[0]] + b[1..];
      forall r
        ensures r in a[1..] <==> r in b[1..]
      {
        if r in a[1..] {
          FirstIsLeftmost(a, r);
        }
        if r in b[1..] {
          FirstIsLeftmost(b, r);
        }
      }
      OrderedSameElements(a[1..], b[1..]);
    }
  }

  /** In an ordered sequence the first run is the leftmost one, and the only one starting there. */
  lemma FirstIsLeftmost(a: seq<Run>, r: Run)
    requires Ordered(a) && r in a
    ensures a[0].start <= r.start
    ensures r.start == a[0].start ==> r == a[0]
    ensures r in a[1..] ==> a[0].end < r.start
  {
  }

  /**
   * The description pins the output down: two run sequences that both meet
   * it are equal, so detection on the same occupancy and parameters always
   * yields the same runs.
   */
  lemma DetectSpecDeterminate(occ: seq<bool>, minWidth: int, g: nat, r1: seq<Run>, r2: seq<Run>)
    requires DetectSpec(occ, minWidth, g, r1) && DetectSpec(occ, minWidth, g, r2)
    ensures r1 == r2
  {
    forall r
      ensures r in r1 <==> r in r2
    {
      if r in r1 {
        var k :| 0 <= k < |r1| && r1[k] == r;
        assert Run(r.start, r.end) in r2;
      }
      if r in r2 {
        var k :| 0 <= k < |r2| && r2[k] == r;
        assert Run(r.start, r.end) in r1;
      }
    }
    OrderedSameElements(r1, r2);
  }

  /**
   * An occupied column lies in a detected run exactly when its cluster is at
   * least `minWidth` wide; a narrower cluster is dropped whole, never merged
   * into a neighbouring run.
   */
  lemma ColumnCoverage(occ: seq<bool>, minWidth: int, g: nat, runs: seq<Run>, c: int)
    returns (s: int, e: int)
    requires DetectSpec(occ, minWidth, g, runs)
    requires 0 <= c < |occ| && occ[c]
    ensures IsCluster(occ, g, s, e) && s <= c <= e
    ensures forall k :: 0 <= k < |runs| && runs[k].Contains(c) ==> runs[k] == Run(s, e)
    ensures Run(s, e) in runs <==> e - s + 1 >= minWidth
  {
    s, e := ClusterOf(occ, g, c);
    forall k | 0 <= k < |runs| && runs[k].Contains(c)
      ensures runs[k] == Run(s, e)
    {
      ClusterUnique(occ, g, runs[k].start, runs[k].end, s, e);
    }
    if Run(s, e) in runs {
      var k :| 0 <= k < |runs| && runs[k] == Run(s, e);
      assert runs[k].Width() >= minWidth;
    }
  }

  /** With `minWidth <= 1` every occupied column lies in exactly one run. */
  lemma CoverageExactlyOnce(occ: seq<bool>, minWidth: int, g: nat, runs: seq<Run>, c: int)
    requires DetectSpec(occ, minWidth, g, runs) && minWidth <= 1
    requires 0 <= c < |occ| && occ[c]
    ensures exists k :: 0 <= k < |runs| && runs[k].Contains(c)
    ensures forall k1, k2 :: 0 <= k1 < |runs| && 0 <= k2 < |runs| && runs[k1].Contains(c) && runs[k2].Contains(c) ==> k1 == k2
  {
    var s, e := ColumnCoverage(occ, minWidth, g, runs, c);
    var k :| 0 <= k < |runs| && runs[k] == Run(s, e);
    assert runs[k].Contains(c);
  }

  /** Every unoccupied stretch `[a, b)` strictly inside a run is at most `g` columns wide. */
  lemma RunGapsBounded(occ: seq<bool>, minWidth: int, g: nat, runs: seq<Run>, k: int, a: int, b: int)
    requires DetectSpec(occ, minWidth, g, runs)
    requires 0 <= k < |runs| && runs[k].start < a <= b <= runs[k].end
    requires Clear(occ, a, b)
    ensures b - a <= g
  {
    assert b - a > g ==> ClearBefore(occ, g, b);
    assert IsCluster(occ, g, runs[k].start, runs[k].end);
  }

  /** A sheet with no occupied column yields no runs. */
  lemma NoOccupiedNoRuns(occ: seq<bool>, minWidth: int, g: nat, runs: seq<Run>)
    requires DetectSpec(occ, minWidth, g, runs)
    requires forall c :: 0 <= c < |occ| ==> !occ[c]
    ensures runs == []
  {
    assert |runs| == 0 || IsCluster(occ, g, runs[0].start, runs[0].end);
  }

  /** A fully occupied sheet at least `minWidth` wide yields the single run `[0, width - 1]`. */
  lemma FullSheetOneRun(occ: seq<bool>, minWidth: int, g: nat, runs: seq<Run>)
    requires DetectSpec(occ, minWidth, g, runs)
    requires |occ| >= 1 && |occ| >= minWidth
    requires forall c :: 0 <= c < |occ| ==> occ[c]
    ensures runs == [Run(0, |occ| - 1)]
  {
    var w := |occ| - 1;
    forall c | 0 < c <= w
      ensures !ClearBefore(occ, g, c)
    {
      assert occ[c - 1];
    }
    assert IsCluster(occ, g, 0, w);
    forall s, e | IsCluster(occ, g, s, e) && e - s + 1 >= minWidth
      ensures Run(s, e) in [Run(0, w)]
    {
      ClusterUnique(occ, g, s, e, 0, w);
    }
    DetectSpecDeterminate(occ, minWidth, g, runs, [Run(0, w)]);
  }

  /** Columns 0-2 and 4-6 occupied, column 3 empty. */
  const GapSheet: seq<bool> := [true, true, true, false, true, true, true]

  /** With gap tolerance 1 the one-column gap is bridged: a single run [0, 6]. */
  lemma GapBridgedExample(minWidth: int, runs: seq<Run>)
    requires minWidth <= 7 && DetectSpec(GapSheet, minWidth, 1, runs)
    ensures runs == [Run(0, 6)]
  {
    var occ := GapSheet;
    forall c | 0 < c <= 6
      ensures !ClearBefore(occ, 1, c)
    {
      assert occ[c - 1] || occ[c - 2];
    }
    assert IsCluster(occ, 1, 0, 6);
    forall s, e | IsCluster(occ, 1, s, e) && e - s + 1 >= minWidth
      ensures Run(s, e) in [Run(0, 6)]
    {
      ClusterUnique(occ, 1, s, e, 0, 6);
    }
    DetectSpecDeterminate(occ, minWidth, 1, runs, [Run(0, 6)]);
  }

  /** With gap tolerance 0 nothing is bridged: the two blocks [0, 2] and [4, 6]. */
  /**
   * With no gap tolerance a cluster is exactly a maximal block of occupied
   * columns: every column in it is occupied, and the column just outside it
   * on either side is empty or off the sheet.
   */
  lemma ZeroTolBlocks(occ: seq<bool>, s: int, e: int)
    ensures IsCluster(occ, 0, s, e) <==>
      && 0 <= s <= e < |occ|
      && (forall c :: s <= c <= e ==> occ[c])
      && (s == 0 || !occ[s - 1])
      && (e == |occ| - 1 || !occ[e + 1])
  {
    if IsCluster(occ, 0, s, e) {
      forall c | s <= c <= e
        ensures occ[c]
      {
        if c < e {
          assert !ClearBefore(occ, 0, c + 1);
        }
      }
    }
    if 0 <= s <= e < |occ| && (forall c :: s <= c <= e ==> occ[c]) {
      forall c | s < c <= e
        ensures !ClearBefore(occ, 0, c)
      {
        assert occ[c - 1];
      }
    }
  }

  /**
   * With no gap tolerance the scan reports exactly the maximal blocks of
   * occupied columns that are at least `minWidth` wide.
   */
  lemma ZeroTolRunsAreBlocks(occ: seq<bool>, minWidth: int, runs: seq<Run>, s: int, e: int)
    requires DetectSpec(occ, minWidth, 0, runs)
    ensures Run(s, e) in runs <==>
      && 0 <= s <= e < |occ| && e - s + 1 >= minWidth
      && (forall c :: s <= c <= e ==> occ[c])
      && (s == 0 || !occ[s - 1])
      && (e == |occ| - 1 || !occ[e + 1])
  {
    ZeroTolBlocks(occ, s, e);
    if Run(s, e) in runs {
      var k :| 0 <= k < |runs| && runs[k] == Run(s, e);
      assert IsCluster(occ, 0, runs[k].start, runs[k].end);
    }
  }

  lemma GapSplitExample(minWidth: int, runs: seq<Run>)
    requires minWidth <= 3 && DetectSpec(GapSheet, minWidth, 0, runs)
    ensures runs == [Run(0, 2), Run(4, 6)]
  {
    var occ := GapSheet;
    forall c | 0 < c <= 6 && c != 4
      ensures !ClearBefore(occ, 0, c)
    {
      assert occ[c - 1];
    }
    assert IsCluster(occ, 0, 0, 2);
    assert IsCluster(occ, 0, 4, 6);
    forall s, e | IsCluster(occ, 0, s, e) && e - s + 1 >= minWidth
      ensures Run(s, e) in [Run(0, 2), Run(4, 6)]
    {
      assert s != 3 by {
        assert occ[s];
      }
      if s < 3 {
        ClusterUnique(occ, 0, s, e, 0, 2);
      } else {
        ClusterUnique(occ, 0, s, e, 4, 6);
      }
    }
    DetectSpecDeterminate(occ, minWidth, 0, runs, [Run(0, 2), Run(4, 6)]);
  }

  /** A three-column block next to a wider one, minWidth 4: the block is dropped, not merged. */
  lemma NarrowBlockDroppedExample(runs: seq<Run>)
    requires DetectSpec([true, true, true, false, true, true, true, true], 4, 0, runs)
    ensures runs == [Run(4, 7)]
  {
    var occ := [true, true, true, false, true, true, true, true];
    forall c | 0 < c <= 7 && c != 4
      ensures !ClearBefore(occ, 0, c)
    {
      assert occ[c - 1];
    }
    assert IsCluster(occ, 0, 0, 2);
    assert IsCluster(occ, 0, 4, 7);
    forall s, e | IsCluster(occ, 0, s, e) && e - s + 1 >= 4
      ensures Run(s, e) in [Run(4, 7)]
    {
      assert s != 3 by {
        assert occ[s];
      }
      if s > 3 {
        ClusterUnique(occ, 0, s, e, 4, 7);
      }
    }
    DetectSpecDeterminate(occ, 4, 0, runs, [Run(4, 7)]);
  }
}
