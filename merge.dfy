/**
 * AdjusterUI.addScaleyAndDestructively: combine two radiance accumulators
 * into one, reusing one of them as the result.
 */
module Merge {
  import opened Wrappers
  import opened Exposures
  import opened HDR

  /** Which of the two arguments ends up holding the sum. */
  datatype Operand = First | Second

  /** IncompatibleImageException, with the two sizes its message reports. */
  datatype IncompatibleImage = IncompatibleImage(w1: int, h1: int, w2: int, h2: int)

  datatype Merged = Merged(target: Operand, sum: Exposure)

  /**
   * The outcome of the merge on values: equal sizes are added directly;
   * otherwise a differing aspect ratio is an error; otherwise the wider
   * operand (the first one on a tie) is the target and the other is
   * resampled to its size before being added.
   */
  function MergeValues(x: Exposure, y: Exposure, scaleTo: Scaler): (m: Result<Merged, IncompatibleImage>)
    requires x.Valid() && y.Valid() && IsScaler(scaleTo)
    ensures m.Ok? ==> m.value.sum.Valid()
  {
    if x.SameSize(y) then Ok(Merged(First, Add(x, y)))
    else if !AspectRatioPreserved(x.width, x.height, y.width, y.height) then
      Err(IncompatibleImage(x.width, x.height, y.width, y.height))
    else if y.width > x.width then Ok(Merged(Second, Add(y, scaleTo(x, y.width, y.height))))
    else Ok(Merged(First, Add(x, scaleTo(y, x.width, x.height))))
  }

  /** The merge fails exactly when the sizes differ and so do the aspect ratios. */
  lemma MergeFailsIff(x: Exposure, y: Exposure, scaleTo: Scaler)
    requires x.Valid() && y.Valid() && IsScaler(scaleTo)
    ensures MergeValues(x, y, scaleTo).Err? <==>
              !x.SameSize(y) && !AspectRatioPreserved(x.width, x.height, y.width, y.height)
    ensures MergeValues(x, y, scaleTo).Err? ==>
              MergeValues(x, y, scaleTo).error == IncompatibleImage(x.width, x.height, y.width, y.height)
  {
  }

  /**
   * The result is as wide as the wider operand; when the widths differ it is
   * also as tall as the taller one (same aspect ratio), so resampling only
   * ever enlarges.  On equal widths the first operand's height is kept.
   */
  lemma MergeSize(x: Exposure, y: Exposure, scaleTo: Scaler)
    requires x.Valid() && y.Valid() && IsScaler(scaleTo)
    requires MergeValues(x, y, scaleTo).Ok?
    ensures var s := MergeValues(x, y, scaleTo).value.sum;
            s.width == (if x.width >= y.width then x.width else y.width) &&
            (x.width != y.width ==> s.height == (if x.height >= y.height then x.height else y.height)) &&
            (x.width == y.width ==> s.height == x.height)
  {
    if !x.SameSize(y) {
      if y.width > x.width {
        WiderIsTaller(y.width, y.height, x.width, x.height);
      } else if x.width > y.width {
        WiderIsTaller(x.width, x.height, y.width, y.height);
      }
    }
  }

  /**
   * Swapping the operands gives the same outcome and the same sum.  When the
   * widths differ the same accumulator (the wider) holds it; when they are
   * equal the first argument always does, so swapping moves the sum to the
   * other object.  Under cross-multiplication, equal widths with different
   * heights pass the aspect test only at width 0.
   */
  lemma MergeSymmetric(x: Exposure, y: Exposure, scaleTo: Scaler)
    requires x.Valid() && y.Valid() && IsScaler(scaleTo)
    requires x.width != y.width || x.height == y.height
    ensures MergeValues(x, y, scaleTo).Ok? == MergeValues(y, x, scaleTo).Ok?
    ensures MergeValues(x, y, scaleTo).Ok? ==>
              MergeValues(x, y, scaleTo).value.sum == MergeValues(y, x, scaleTo).value.sum &&
              (x.width != y.width ==> MergeValues(x, y, scaleTo).value.target != MergeValues(y, x, scaleTo).value.target)
    ensures x.width == y.width && MergeValues(x, y, scaleTo).Ok? ==> MergeValues(x, y, scaleTo).value.target == First
  {
    if x.SameSize(y) {
      AddCommutes(x, y);
    }
  }

  /**
   * The merge itself.  Equal sizes: a receives b's values and is returned.
   * Mismatched aspect ratios: IncompatibleImage, nothing touched.  Otherwise
   * the wider accumulator receives the other one resampled by scaleTo and is
   * returned; the narrower one is left as it was.
   */
  method AddScaleyAndDestructively(a: HDRExposure, b: HDRExposure, scaleTo: Scaler)
      returns (res: Result<HDRExposure, IncompatibleImage>)
    requires a.Valid() && b.Valid() && (a == b || Separate(a, b)) && IsScaler(scaleTo)
    modifies a.Arrays(), b.Arrays()
    ensures var m := MergeValues(old(a.Snapshot()), old(b.Snapshot()), scaleTo);
            res.Ok? == m.Ok? &&
            (res.Err? ==> res.error == m.error) &&
            (res.Ok? ==> res.value == (if m.value.target == First then a else b) &&
                         res.value.Valid() && res.value.Snapshot() == m.value.sum)
    ensures res.Ok? && res.value == a && a != b ==> b.Snapshot() == old(b.Snapshot())
    ensures res.Ok? && res.value == b && a != b ==> a.Snapshot() == old(a.Snapshot())
    ensures res.Err? ==> a.Snapshot() == old(a.Snapshot()) && b.Snapshot() == old(b.Snapshot())
  {
    if a.width == b.width && a.height == b.height {
      a.Add(b);
      return Ok(a);
    }
    if !AspectRatioPreserved(a.width, a.height, b.width, b.height) {
      return Err(IncompatibleImage(a.width, a.height, b.width, b.height));
    }
    var big, small := a, b;
    if b.width > a.width {
      // the wider one becomes the target
      big, small := b, a;
    }
    var scaled := new HDRExposure.FromValues(scaleTo(small.Snapshot(), big.width, big.height));
    big.Add(scaled);
    return Ok(big);
  }
}
