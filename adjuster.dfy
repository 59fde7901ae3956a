/**
 * The state of AdjusterUI and its RecalculationThread (an inner class that
 * shares the outer object's fields), with each step of the worker loop and
 * each event handler as one atomic transition.  Java's float settings are
 * modelled as reals.
 */
module AdjusterUI {
  import opened Wrappers
  import opened HDR
  import opened Letterbox

  /** java.awt.image.BufferedImage, reduced to its size. */
  class Raster {
    const width: int
    const height: int

    constructor (w: int, h: int)
      ensures width == w && height == h
    {
      width, height := w, h;
    }
  }

  /** The keys the key listener reacts to (export, X, is ExportImage). */
  datatype Key = KeyG | KeyE | KeyD | KeyB | KeyF1 | OtherKey

  /** The failure exportImage raises when no image has been computed yet. */
  datatype ExportError = NoCurrentImage

  /** The key listener's neg: the factor itself, or its reciprocal when shift is held. */
  function Neg(v: real, negate: bool): (f: real)
    requires v != 0.0
    ensures negate ==> f * v == 1.0
    ensures !negate ==> f == v
    ensures v > 0.0 ==> f > 0.0
  {
    if negate then 1.0 / v else v
  }

  /** The step a G or E press applies: 1.5, or 1.125 with control held. */
  function StepFactor(controlled: bool): (f: real)
    ensures f > 1.0 && Neg(f, true) < 1.0
  {
    if controlled then 1.125 else 1.5
  }

  /** A press followed by the same press with shift held restores the setting. */
  lemma PressThenShiftPressRestores(x: real, controlled: bool)
    ensures x * Neg(StepFactor(controlled), false) * Neg(StepFactor(controlled), true) == x
  {
    var f := StepFactor(controlled);
    assert Neg(f, true) * f == 1.0;
    calc {
      x * Neg(f, false) * Neg(f, true);
      x * (f * Neg(f, true));
      x * 1.0;
    }
  }

  /** F1: overlay text mode 0 -> 1 -> 2 -> 0. */
  function NextOverlayMode(m: int): (n: int)
    ensures 0 <= m <= 2 ==> n == (m + 1) % 3
    ensures m >= 2 ==> n == 0
  {
    if m + 1 > 2 then 0 else m + 1
  }

  lemma {:induction false} OverlayModeCycles(m: int)
    requires 0 <= m <= 2
    ensures NextOverlayMode(NextOverlayMode(NextOverlayMode(m))) == m
    ensures NextOverlayMode(m) != m
  {
    var a := NextOverlayMode(m);
    var b := NextOverlayMode(a);
    assert 0 <= a <= 2 && 0 <= b <= 2;
  }

  /** A buffer has to be (re)allocated: absent, or of another size. */
  predicate NeedsRealloc(img: HDRImage?, w: int, h: int): (ok: bool)
    ensures !ok ==> img != null && img.width * img.height == w * h
  {
    img == null || img.width != w || img.height != h
  }

  /** i is the first index whose output file does not exist yet. */
  ghost predicate FirstUnused(used: set<nat>, i: nat) {
    i !in used && forall j :: 0 <= j < i ==> j in used
  }

  /** A number above every element of a finite set. */
  ghost function Above(s: set<nat>): (b: nat)
    ensures forall x :: x in s ==> x < b
    decreases s
  {
    if s == {} then 0
    else
      var x :| x in s;
      var c := Above(s - {x});
      assert forall y :: y in s ==> y == x || y in s - {x};
      if c > x then c else x + 1
  }

  /**
   * getNewOutputFile: count up from 0 to the first index whose file is not
   * in used, the finite set of indices whose file already exists.
   */
  method NewOutputIndex(used: set<nat>) returns (i: nat)
    ensures FirstUnused(used, i)
  {
    i := 0;
    while i in used
      invariant forall j :: 0 <= j < i ==> j in used
      decreases Above(used) - i
    {
      i := i + 1;
    }
  }

  class Adjuster {
    var overlayTextMode: int
    var hdrExposure: HDRExposure?
    var hdrImage: HDRImage?
    var hdrImage2: HDRImage?
    var argbBuf: array?<int>
    var bImg: Raster?
    var exposure: real
    var gamma: real
    var dither: bool
    var bleed: bool
    var needsRecalculation: bool

    /**
     * The overlay mode stays in 0..2 and the settings positive; the ARGB
     * buffer and the BufferedImage exist exactly when the float image does
     * and match its size; the two ping-pong images are distinct objects.
     */
    ghost predicate Valid()
      reads this
    {
      0 <= overlayTextMode <= 2 && exposure > 0.0 && gamma > 0.0 &&
      (hdrExposure != null ==> hdrExposure.Valid()) &&
      (hdrImage == null <==> bImg == null) &&
      (hdrImage != null ==>
        hdrImage != hdrImage2 && 0 <= hdrImage.width && 0 <= hdrImage.height &&
        argbBuf != null && argbBuf.Length == hdrImage.width * hdrImage.height &&
        bImg.width == hdrImage.width && bImg.height == hdrImage.height)
    }

    constructor ()
      ensures Valid()
      ensures overlayTextMode == 1 && exposure == 1.0 && gamma == 2.2 && dither && !bleed
      ensures needsRecalculation
      ensures hdrExposure == null && hdrImage == null && hdrImage2 == null && argbBuf == null && bImg == null
    {
      overlayTextMode := 1;
      hdrExposure, hdrImage, hdrImage2, argbBuf, bImg := null, null, null, null, null;
      exposure, gamma := 1.0, 2.2;
      dither, bleed := true, false;
      needsRecalculation := true;
    }

    /** settingsUpdated: mark the derived image stale (the kick is not modelled). */
    method SettingsUpdated()
      requires Valid()
      modifies this`needsRecalculation
      ensures Valid() && needsRecalculation
    {
      needsRecalculation := true;
    }

    /** setExposure: replace the accumulator and mark the derived image stale. */
    method SetExposure(exp: HDRExposure)
      requires Valid() && exp.Valid()
      modifies this`hdrExposure, this`needsRecalculation
      ensures Valid() && hdrExposure == exp && needsRecalculation
    {
      hdrExposure := exp;
      SettingsUpdated();
    }

    /** keyPressed for every key but X. */
    method KeyPressed(key: Key, shift: bool, control: bool)
      requires Valid()
      modifies this`gamma, this`exposure, this`dither, this`bleed, this`overlayTextMode, this`needsRecalculation
      ensures Valid()
      ensures gamma == if key == KeyG then old(gamma) * Neg(StepFactor(control), shift) else old(gamma)
      ensures exposure == if key == KeyE then old(exposure) * Neg(StepFactor(control), shift) else old(exposure)
      ensures dither == (if key == KeyD then !old(dither) else old(dither))
      ensures bleed == (if key == KeyB then !old(bleed) else old(bleed))
      ensures overlayTextMode == if key == KeyF1 then NextOverlayMode(old(overlayTextMode)) else old(overlayTextMode)
      ensures needsRecalculation == (old(needsRecalculation) || key in {KeyG, KeyE, KeyD, KeyB})
    {
      match key
      case KeyG =>
        gamma := gamma * Neg(StepFactor(control), shift);
        SettingsUpdated();
      case KeyE =>
        exposure := exposure * Neg(StepFactor(control), shift);
        SettingsUpdated();
      case KeyD =>
        dither := !dither;
        SettingsUpdated();
      case KeyB =>
        bleed := !bleed;
        SettingsUpdated();
      case KeyF1 =>
        overlayTextMode := NextOverlayMode(overlayTextMode);
      case OtherKey =>
    }

    /**
     * The worker's wait condition: a pass begins only with an exposure
     * present, the dirty flag set and the canvas showing, and beginning
     * clears the flag.  Otherwise the worker keeps waiting and nothing
     * changes.
     */
    method BeginPass(showing: bool) returns (exp: HDRExposure?)
      requires Valid()
      modifies this`needsRecalculation
      ensures Valid()
      ensures (exp != null) == (old(hdrExposure) != null && old(needsRecalculation) && showing)
      ensures exp != null ==> exp == hdrExposure && !needsRecalculation
      ensures exp == null ==> needsRecalculation == old(needsRecalculation)
    {
      exp := hdrExposure;
      if exp == null || !needsRecalculation || !showing {
        return null;
      }
      needsRecalculation := false;
    }

    /**
     * Intermediate buffers follow the exposure's size: they are replaced
     * only when there is no float image yet or its size differs.
     */
    method PrepareBuffers(exp: HDRExposure)
      requires Valid() && exp.Valid()
      modifies this`hdrImage, this`bImg, this`argbBuf, this`hdrExposure
      ensures Valid()
      ensures hdrImage != null && hdrImage.width == exp.width && hdrImage.height == exp.height
      ensures NeedsRealloc(old(hdrImage), exp.width, exp.height) ==>
                fresh(hdrImage) && fresh(bImg) && fresh(argbBuf) && hdrExposure == exp
      ensures !NeedsRealloc(old(hdrImage), exp.width, exp.height) ==>
                hdrImage == old(hdrImage) && bImg == old(bImg) && argbBuf == old(argbBuf) &&
                hdrExposure == old(hdrExposure)
    {
      if NeedsRealloc(hdrImage, exp.width, exp.height) {
        bImg := new Raster(exp.width, exp.height);
        argbBuf := new int[exp.width * exp.height];
        hdrImage := new HDRImage(exp.width, exp.height);
        hdrExposure := exp;
      }
    }

    /**
     * The bleed pass writes into the second image (allocated when absent
     * or of another size), after which the two images trade places.
     */
    method BleedAndSwap()
      requires Valid() && hdrImage != null
      modifies this`hdrImage, this`hdrImage2
      ensures Valid()
      ensures hdrImage2 == old(hdrImage)
      ensures !NeedsRealloc(old(hdrImage2), old(hdrImage).width, old(hdrImage).height) ==> hdrImage == old(hdrImage2)
      ensures NeedsRealloc(old(hdrImage2), old(hdrImage).width, old(hdrImage).height) ==> fresh(hdrImage)
      ensures hdrImage != null && hdrImage.width == hdrImage2.width && hdrImage.height == hdrImage2.height
    {
      if NeedsRealloc(hdrImage2, hdrImage.width, hdrImage.height) {
        hdrImage2 := new HDRImage(hdrImage.width, hdrImage.height);
      }
      hdrImage, hdrImage2 := hdrImage2, hdrImage;
    }

    /**
     * The body of one pass after the gate: buffers are sized, the float
     * image is tone-mapped (not modelled), bled and swapped when bleed is on,
     * and converted into the ARGB buffer (not modelled).
     */
    method RunPass(exp: HDRExposure)
      requires Valid() && exp.Valid()
      modifies this
      ensures Valid()
      ensures hdrImage != null && hdrImage.width == exp.width && hdrImage.height == exp.height
      ensures argbBuf.Length == exp.width * exp.height
      ensures NeedsRealloc(old(hdrImage), exp.width, exp.height) ==> fresh(bImg) && fresh(argbBuf) && hdrExposure == exp
      ensures !NeedsRealloc(old(hdrImage), exp.width, exp.height) ==>
                bImg == old(bImg) && argbBuf == old(argbBuf) && hdrExposure == old(hdrExposure)
      ensures !bleed ==> (hdrImage2 == old(hdrImage2) &&
                          if NeedsRealloc(old(hdrImage), exp.width, exp.height) then fresh(hdrImage)
                          else hdrImage == old(hdrImage))
      ensures bleed ==> (hdrImage2 != null && hdrImage2.width == exp.width && hdrImage2.height == exp.height &&
                         (if NeedsRealloc(old(hdrImage), exp.width, exp.height) then fresh(hdrImage2)
                          else hdrImage2 == old(hdrImage)) &&
                         (if NeedsRealloc(old(hdrImage2), exp.width, exp.height) then fresh(hdrImage)
                          else hdrImage == old(hdrImage2)))
      ensures needsRecalculation == old(needsRecalculation) && exposure == old(exposure) && gamma == old(gamma)
      ensures dither == old(dither) && bleed == old(bleed) && overlayTextMode == old(overlayTextMode)
    {
      PrepareBuffers(exp);
      if bleed {
        BleedAndSwap();
      }
    }

    /**
     * One turn of the worker loop without interference: wait on the gate,
     * and run a pass if it opens.
     */
    method Recalculate(showing: bool) returns (ran: bool)
      requires Valid()
      modifies this
      ensures Valid()
      ensures ran == (old(hdrExposure) != null && old(needsRecalculation) && showing)
      ensures !ran ==> unchanged(this)
      ensures ran ==> !needsRecalculation && hdrExposure == old(hdrExposure) && hdrImage != null &&
                      hdrImage.width == hdrExposure.width && hdrImage.height == hdrExposure.height
      ensures exposure == old(exposure) && gamma == old(gamma) && dither == old(dither) && bleed == old(bleed)
      ensures overlayTextMode == old(overlayTextMode)
      ensures ran ==> argbBuf != null && argbBuf.Length == hdrExposure.width * hdrExposure.height
      ensures ran && !NeedsRealloc(old(hdrImage), old(hdrExposure).width, old(hdrExposure).height) ==>
                bImg == old(bImg) && argbBuf == old(argbBuf)
      ensures ran && !bleed ==> hdrImage2 == old(hdrImage2)
      ensures ran && !bleed && !NeedsRealloc(old(hdrImage), old(hdrExposure).width, old(hdrExposure).height) ==>
                hdrImage == old(hdrImage)
      ensures ran && bleed ==> hdrImage2 != null && hdrImage2.width == hdrImage.width && hdrImage2.height == hdrImage.height
      ensures ran && bleed && !NeedsRealloc(old(hdrImage), old(hdrExposure).width, old(hdrExposure).height) ==>
                hdrImage2 == old(hdrImage)
      ensures ran && bleed && !NeedsRealloc(old(hdrImage2), old(hdrExposure).width, old(hdrExposure).height) ==>
                hdrImage == old(hdrImage2)
    {
      var exp := BeginPass(showing);
      ran := exp != null;
      if ran {
        RunPass(exp);
      }
    }

    /**
     * paint's placement of the image: nothing to place before the first
     * pass; otherwise the best whole magnification and its centred frame.
     */
    method Layout(canvasWidth: int, canvasHeight: int) returns (p: Option<Placement>)
      requires Valid()
      requires hdrImage != null ==> hdrImage.width >= 1 && hdrImage.height >= 1
      ensures p.None? <==> hdrImage == null
      ensures p.Some? ==>
                IsBestScale(hdrImage.width, hdrImage.height, canvasWidth, canvasHeight, p.value.scale) &&
                p.value == Place(hdrImage.width, hdrImage.height, canvasWidth, canvasHeight, p.value.scale)
    {
      if hdrImage == null {
        return None;
      }
      var scale := Magnification(hdrImage.width, hdrImage.height, canvasWidth, canvasHeight);
      return Some(Place(hdrImage.width, hdrImage.height, canvasWidth, canvasHeight, scale));
    }

    /**
     * exportImage: fails with NoCurrentImage until a pass has produced a
     * BufferedImage; otherwise writes to the first unused output index.
     */
    method ExportImage(used: set<nat>) returns (res: Result<nat, ExportError>)
      ensures res.Err? <==> bImg == null
      ensures res.Err? ==> res.error == NoCurrentImage
      ensures res.Ok? ==> FirstUnused(used, res.value)
    {
      if bImg == null {
        return Err(NoCurrentImage);
      }
      var i := NewOutputIndex(used);
      return Ok(i);
    }
  }

  /**
   * Three settings changes in a row followed by the worker's turns: one
   * pass runs with the latest settings and the next turn finds nothing to do.
   */
  method CoalescedSettingsChanges(ui: Adjuster, exp: HDRExposure) returns (first: bool, second: bool)
    requires ui.Valid() && exp.Valid()
    modifies ui
    ensures ui.Valid()
    ensures first && !second
    ensures ui.bleed == !old(ui.bleed) && ui.dither == !old(ui.dither)
  {
    ui.SetExposure(exp);
    ui.KeyPressed(KeyD, false, false);
    ui.KeyPressed(KeyB, false, false);
    first := ui.Recalculate(true);
    second := ui.Recalculate(true);
  }
}
