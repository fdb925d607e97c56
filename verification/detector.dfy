/**
 * `detectFrameRuns` end to end: the per-column alpha pass that builds the
 * occupancy vector, followed by the run scan of module `Runs`.
 *
 * The decoded sheet is given directly as its alpha channel; drawing it to a
 * canvas and reading the RGBA buffer back is not part of this model.
 */
module Detector {
  import opened Wrappers
  import opened Runs

  /** A decoded sprite sheet: `alpha[y][x]` is the alpha byte of the pixel in row `y`, column `x`. */
  datatype Sheet = Sheet(width: nat, height: nat, alpha: seq<seq<int>>) {

    /** The alpha channel has `height` rows of `width` bytes each. */
    ghost predicate Valid() {
      && |alpha| == height
      && (forall y :: 0 <= y < height ==> |alpha[y]| == width)
      && (forall y, x :: 0 <= y < height && 0 <= x < width ==> 0 <= alpha[y][x] <= 255)
    }
  }

  /** Column `x` is occupied: some pixel in it has alpha at least `threshold` (inclusive). */
  ghost predicate ColumnOccupied(sheet: Sheet, threshold: int, x: int)
    requires sheet.Valid() && 0 <= x < sheet.width
  {
    exists y :: 0 <= y < sheet.height && sheet.alpha[y][x] >= threshold
  }

  /** `occ` is the occupancy vector of `sheet` at `threshold`. */
  ghost predicate IsOccupancy(sheet: Sheet, threshold: int, occ: seq<bool>)
    requires sheet.Valid()
  {
    && |occ| == sheet.width
    && forall x :: 0 <= x < sheet.width ==> (occ[x] <==> ColumnOccupied(sheet, threshold, x))
  }

  /**
   * The occupancy pass of `detectFrameRuns`: for each column, scan its rows
   * top to bottom and stop at the first pixel whose alpha reaches the threshold.
   */
  method ColumnOccupancy(sheet: Sheet, threshold: int) returns (occ: seq<bool>)
    requires sheet.Valid()
    ensures |occ| == sheet.width
    ensures forall x :: 0 <= x < sheet.width ==>
              (occ[x] <==> exists y :: 0 <= y < sheet.height && sheet.alpha[y][x] >= threshold)
  {
    occ := [];
    var x := 0;
    while x < sheet.width
      invariant 0 <= x <= sheet.width && |occ| == x
      invariant forall i :: 0 <= i < x ==>
                  (occ[i] <==> exists y :: 0 <= y < sheet.height && sheet.alpha[y][i] >= threshold)
    {
      var occupied := false;
      var y := 0;
      while y < sheet.height
        invariant 0 <= y <= sheet.height
        invariant forall j :: 0 <= j < y ==> sheet.alpha[j][x] < threshold
      {
        if sheet.alpha[y][x] >= threshold {
          occupied := true;
          break;
        }
        y := y + 1;
      }
      occ := occ + [occupied];
      x := x + 1;
    }
  }

  /** A threshold of 0 (or below) marks every column of a sheet with at least one row occupied. */
  lemma ZeroThresholdAllOccupied(sheet: Sheet, threshold: int, occ: seq<bool>)
    requires sheet.Valid() && sheet.height >= 1 && threshold <= 0
    requires IsOccupancy(sheet, threshold, occ)
    ensures forall x :: 0 <= x < |occ| ==> occ[x]
  {
    forall x | 0 <= x < |occ|
      ensures occ[x]
    {
      assert sheet.alpha[0][x] >= threshold;
    }
  }

  /**
   * The threshold is inclusive: a column whose strongest alpha equals the
   * threshold is occupied, and it is not occupied at one above that.
   */
  lemma ThresholdBoundary(sheet: Sheet, threshold: int, x: int, y: int, occ: seq<bool>, occ': seq<bool>)
    requires sheet.Valid() && 0 <= x < sheet.width && 0 <= y < sheet.height
    requires sheet.alpha[y][x] == threshold
    requires forall j :: 0 <= j < sheet.height ==> sheet.alpha[j][x] <= threshold
    requires IsOccupancy(sheet, threshold, occ) && IsOccupancy(sheet, threshold + 1, occ')
    ensures occ[x] && !occ'[x]
  {
  }

  /**
   * `detectFrameRuns(alphaThreshold, minWidth, gapTol)`: no runs when no
   * sheet is loaded; otherwise the runs of the sheet's occupancy vector.
   */
  method DetectFrameRuns(sheet: Option<Sheet>, alphaThreshold: int, minWidth: int, gapTol: int)
    returns (runs: seq<Run>)
    requires sheet.Some? ==> sheet.value.Valid()
    ensures sheet.None? ==> runs == []
    ensures sheet.Some? ==> forall k :: 0 <= k < |runs| ==> 0 <= runs[k].start <= runs[k].end < sheet.value.width
    ensures sheet.Some? ==> exists occ :: IsOccupancy(sheet.value, alphaThreshold, occ)
                                          && DetectSpec(occ, minWidth, EffectiveTol(gapTol), runs)
  {
    if sheet.None? {
      return [];
    }
    var occ := ColumnOccupancy(sheet.value, alphaThreshold);
    runs := ScanRuns(occ, minWidth, gapTol);
  }
}
