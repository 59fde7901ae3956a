/**
 * The letterboxing arithmetic of AdjusterUI.paint: the image is drawn at the
 * largest whole magnification (at least 1) that fits the canvas, centred,
 * and the borders are painted black.
 */
module Letterbox {

  /** Java's int division by a positive divisor: the quotient is truncated toward zero. */
  function JavaDiv(a: int, d: int): (q: int)
    requires d > 0
    ensures a >= 0 ==> 0 <= a - q * d < d
    ensures a < 0 ==> -d < a - q * d <= 0
  {
    if a >= 0 then a / d
    else
      var m := (-a) / d;
      assert -a == d * m + (-a) % d;
      -m
  }

  /** The iw x ih image magnified k times fits a cw x ch canvas. */
  predicate Fits(iw: int, ih: int, cw: int, ch: int, k: int) {
    iw * k <= cw && ih * k <= ch
  }

  /** s is the magnification paint settles on: the largest that fits, else 1. */
  ghost predicate IsBestScale(iw: int, ih: int, cw: int, ch: int, s: int) {
    s >= 1 && (s > 1 ==> Fits(iw, ih, cw, ch, s)) &&
    forall k :: k > s ==> !Fits(iw, ih, cw, ch, k)
  }

  /** A reference definition of the magnification in closed form. */
  function ClosedFormScale(iw: int, ih: int, cw: int, ch: int): int
    requires iw >= 1 && ih >= 1
  {
    var k := if cw / iw <= ch / ih then cw / iw else ch / ih;
    if k >= 2 then k else 1
  }

  /** A magnification that does not fit is not rescued by a larger one. */
  lemma {:induction false} NotFitsBeyond(iw: int, ih: int, cw: int, ch: int, s: int, k: int)
    requires iw >= 0 && ih >= 0 && k >= s
    requires !Fits(iw, ih, cw, ch, s)
    ensures !Fits(iw, ih, cw, ch, k)
  {
    assert iw * k - iw * s == iw * (k - s) >= 0;
    assert ih * k - ih * s == ih * (k - s) >= 0;
  }

  /** Floor division gives the largest multiple that stays within the bound. */
  lemma LargestMultiple(n: int, d: int)
    requires d >= 1
    ensures d * (n / d) <= n < d * (n / d + 1)
  {
    assert n == d * (n / d) + n % d;
  }

  /** Only one magnification satisfies IsBestScale. */
  lemma BestScaleUnique(iw: int, ih: int, cw: int, ch: int, s: int, t: int)
    requires IsBestScale(iw, ih, cw, ch, s) && IsBestScale(iw, ih, cw, ch, t)
    ensures s == t
  {
  }

  /** The closed form satisfies IsBestScale. */
  lemma ClosedFormIsBest(iw: int, ih: int, cw: int, ch: int)
    requires iw >= 1 && ih >= 1
    ensures IsBestScale(iw, ih, cw, ch, ClosedFormScale(iw, ih, cw, ch))
  {
    var s := ClosedFormScale(iw, ih, cw, ch);
    LargestMultiple(cw, iw);
    LargestMultiple(ch, ih);
    var k := if cw / iw <= ch / ih then cw / iw else ch / ih;
    if s > 1 {
      assert s == k;
      assert iw * s <= iw * (cw / iw) by { assert iw * (cw / iw) - iw * s == iw * (cw / iw - s); }
      assert ih * s <= ih * (ch / ih) by { assert ih * (ch / ih) - ih * s == ih * (ch / ih - s); }
    }
    assert !Fits(iw, ih, cw, ch, k + 1);
    forall j | j > s
      ensures !Fits(iw, ih, cw, ch, j)
    {
      NotFitsBeyond(iw, ih, cw, ch, k + 1, j);
    }
  }

  /**
   * The scale search of paint: start at 2 and grow while the image still
   * fits, then step back once.
   */
  method Magnification(iw: int, ih: int, cw: int, ch: int) returns (scale: int)
    requires iw >= 1 && ih >= 1
    ensures IsBestScale(iw, ih, cw, ch, scale)
    ensures scale == ClosedFormScale(iw, ih, cw, ch)
  {
    scale := 2;
    while iw * scale <= cw && ih * scale <= ch
      invariant scale >= 2
      invariant scale > 2 ==> Fits(iw, ih, cw, ch, scale - 1)
      decreases cw - iw * scale
    {
      scale := scale + 1;
    }
    forall k | k > scale - 1
      ensures !Fits(iw, ih, cw, ch, k)
    {
      NotFitsBeyond(iw, ih, cw, ch, scale, k);
    }
    scale := scale - 1;
    ClosedFormIsBest(iw, ih, cw, ch);
    BestScaleUnique(iw, ih, cw, ch, scale, ClosedFormScale(iw, ih, cw, ch));
  }

  /** Where paint draws the magnified image. */
  datatype Placement = Placement(scale: int, left: int, top: int, right: int, bottom: int)

  /** Leading border along one axis: half the slack, truncated toward zero. */
  function Offset(canvas: int, extent: int): (lead: int)
    ensures canvas >= extent ==> 0 <= (canvas - extent) - 2 * lead <= 1
    ensures canvas < extent ==> -1 <= (canvas - extent) - 2 * lead <= 0
  {
    JavaDiv(canvas - extent, 2)
  }

  function Place(iw: int, ih: int, cw: int, ch: int, scale: int): (p: Placement)
    ensures p.scale == scale
    ensures p.right - p.left == iw * scale && p.bottom - p.top == ih * scale
  {
    var left := Offset(cw, iw * scale);
    var top := Offset(ch, ih * scale);
    Placement(scale, left, top, iw * scale + left, ih * scale + top)
  }

  /**
   * When the image fits along an axis, the two borders are non-negative
   * and the trailing one is at most one pixel larger.
   */
  lemma CentredWhenFits(canvas: int, extent: int)
    requires extent <= canvas
    ensures var lead := Offset(canvas, extent);
            0 <= lead <= canvas - (extent + lead) <= lead + 1
  {
  }

  /**
   * When the image overhangs an axis (only at scale 1), both borders are
   * non-positive and, because the quotient is truncated toward zero, it is
   * the LEADING overhang that is the smaller by up to one pixel.
   */
  lemma SplitWhenTooLarge(canvas: int, extent: int)
    requires extent > canvas
    ensures var lead := Offset(canvas, extent);
            var trail := canvas - (extent + lead);
            trail <= lead <= 0 && lead <= trail + 1
  {
  }

  /**
   * A 5-pixel image on a 2-pixel canvas: paint's left edge is -1, where floor
   * division (Dafny's) would have given -2.
   */
  lemma TruncationMatters()
    ensures Offset(2, 5) == -1 && (2 - 5) / 2 == -2
  {
  }

  /** paint's placement at its chosen scale, with both axes' border properties. */
  lemma PlacementProperties(iw: int, ih: int, cw: int, ch: int, scale: int)
    requires iw >= 1 && ih >= 1 && IsBestScale(iw, ih, cw, ch, scale)
    ensures var p := Place(iw, ih, cw, ch, scale);
            (iw * scale <= cw ==> 0 <= p.left <= cw - p.right <= p.left + 1) &&
            (ih * scale <= ch ==> 0 <= p.top <= ch - p.bottom <= p.top + 1) &&
            (iw * scale > cw ==> scale == 1 && cw - p.right <= p.left <= 0) &&
            (ih * scale > ch ==> scale == 1 && ch - p.bottom <= p.top <= 0)
  {
    if iw * scale <= cw { CentredWhenFits(cw, iw * scale); } else { SplitWhenTooLarge(cw, iw * scale); }
    if ih * scale <= ch { CentredWhenFits(ch, ih * scale); } else { SplitWhenTooLarge(ch, ih * scale); }
  }
}
