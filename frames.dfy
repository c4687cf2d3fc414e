/**
 * Grayscale frames as the detector sees them (already downscaled), the
 * per-pixel change mask between two frames and the percentage tests.
 */
module Frames {

  /** Grayscale difference above which a pixel counts as changed. */
  const PixelDifferenceThreshold: int := 30
  /** MOTION_AREA_THRESHOLD_PERCENT = 0.4 percent, that is 4 per mille. */
  const MotionAreaThresholdPermille: int := 4
  /** The detector downscales by 0.5f: numerator and denominator. */
  const DownscaleNumerator: int := 1
  const DownscaleDenominator: int := 2

  /** A downscaled grayscale bitmap: row-major intensities (red channel). */
  datatype Frame = Frame(width: int, height: int, pixels: seq<int>) {
    predicate Valid()
    {
      && width >= 1 && height >= 1
      && |pixels| == width * height
      && forall i :: 0 <= i < |pixels| ==> 0 <= pixels[i] <= 255
    }

    predicate SameSize(other: Frame)
    {
      width == other.width && height == other.height
    }
  }

  function Abs(x: int): nat { if x < 0 then -x else x }

  /** One side of a bitmap after downscaleBitmap:
      (n * 0.5f).toInt().coerceAtLeast(1). */
  function ScaledDimension(n: int): (r: int)
    requires n >= 1
    ensures r >= 1 && r <= n
    ensures n >= 2 ==> 2 * r <= n < 2 * r + 2
    ensures n < 2 ==> r == 1
  {
    var scaled := n * DownscaleNumerator / DownscaleDenominator;
    if scaled < 1 then 1 else scaled
  }

  predicate PixelChanged(p1: int, p2: int)
  {
    Abs(p1 - p2) > PixelDifferenceThreshold
  }

  /** The change mask: true where the two frames differ by more than the
      threshold (diffPixels WHITE). */
  function DiffMask(a: seq<int>, b: seq<int>): (mask: seq<bool>)
    requires |a| == |b|
  {
    seq(|a|, i requires 0 <= i < |a| => PixelChanged(a[i], b[i]))
  }

  /** Number of true entries of a mask, counted from the front. */
  function CountTrue(mask: seq<bool>): nat
  {
    if mask == [] then 0
    else CountTrue(mask[..|mask| - 1]) + (if mask[|mask| - 1] then 1 else 0)
  }

  /** totalDiffPixels for two frames of equal size. */
  function ChangedCount(a: seq<int>, b: seq<int>): nat
    requires |a| == |b|
  {
    CountTrue(DiffMask(a, b))
  }

  /** Kotlin's (part.toDouble() / whole) * 100 >= permille / 10, as exact
      integer arithmetic; a zero whole gives NaN (or is excluded), which is
      never >= anything. */
  predicate AtLeastPermille(part: int, whole: int, permille: int)
  {
    whole > 0 && part * 1000 >= permille * whole
  }

  /** The whole-frame test of the detector (basicMotionDetected). */
  predicate BasicMotion(a: seq<int>, b: seq<int>, width: int, height: int)
    requires |a| == |b|
  {
    AtLeastPermille(ChangedCount(a, b), width * height, MotionAreaThresholdPermille)
  }

  /** The integer test agrees with the rational comparison it replaces. */
  lemma AtLeastPermilleIsRatio(part: int, whole: int, permille: int)
    requires whole > 0
    ensures AtLeastPermille(part, whole, permille)
        <==> (part as real) / (whole as real) * 100.0 >= (permille as real) / 10.0
  {
    var p, w, k := part as real, whole as real, permille as real;
    assert p / w * 100.0 * 10.0 * w == p * 1000.0;
    assert (p / w * 100.0 >= k / 10.0) <==> (p / w * 100.0 * 10.0 * w >= k * w);
  }

  lemma {:induction false} CountTrueIsCardinality(mask: seq<bool>)
    ensures CountTrue(mask) == |set i | 0 <= i < |mask| && mask[i]|
    decreases |mask|
  {
    if mask != [] {
      var n := |mask| - 1;
      var front := mask[..n];
      CountTrueIsCardinality(front);
      var s := set i | 0 <= i < |mask| && mask[i];
      var t := set i | 0 <= i < |front| && front[i];
      if mask[n] {
        assert s == t + {n};
      } else {
        assert s == t;
      }
    }
  }

  lemma {:induction false} CountTrueBounded(mask: seq<bool>)
    ensures CountTrue(mask) <= |mask|
    decreases |mask|
  {
    if mask != [] {
      CountTrueBounded(mask[..|mask| - 1]);
    }
  }

  /** The changed-pixel count is the number of indices whose intensities
      differ by more than the threshold, and at most the pixel count. */
  lemma ChangedCountMeaning(a: seq<int>, b: seq<int>)
    requires |a| == |b|
    ensures ChangedCount(a, b) == |set i | 0 <= i < |a| && PixelChanged(a[i], b[i])|
    ensures ChangedCount(a, b) <= |a|
  {
    var mask := DiffMask(a, b);
    CountTrueIsCardinality(mask);
    CountTrueBounded(mask);
    assert (set i | 0 <= i < |mask| && mask[i]) == (set i | 0 <= i < |a| && PixelChanged(a[i], b[i]));
  }

  /** Swapping the two frames does not change the count. */
  lemma ChangedCountSymmetric(a: seq<int>, b: seq<int>)
    requires |a| == |b|
    ensures ChangedCount(a, b) == ChangedCount(b, a)
  {
    assert DiffMask(a, b) == DiffMask(b, a);
  }

  /** Comparing a frame with itself finds no change, hence no basic motion. */
  lemma {:induction false} NoChangeAgainstItself(a: seq<int>, width: int, height: int)
    ensures ChangedCount(a, a) == 0
    ensures !BasicMotion(a, a, width, height)
  {
    ChangedCountMeaning(a, a);
    assert (set i | 0 <= i < |a| && PixelChanged(a[i], a[i])) == {};
  }
}
