/**
 * The mutable image buffers of the hdrutil package that AdjusterUI works on.
 * HDRExposure.java and HDRImage.java are not part of this model; their fields
 * and the one operation AdjusterUI relies on (HDRExposure.add) are modelled
 * from how AdjusterUI uses them.
 */
module HDR {
  import Exposures

  /** A radiance accumulator whose four channel arrays are updated in place. */
  class HDRExposure {
    const width: int
    const height: int
    const r: array<real>
    const g: array<real>
    const b: array<real>
    const e: array<real>

    /** Four distinct arrays of width*height pixels each. */
    ghost predicate Valid() {
      0 <= width && 0 <= height &&
      r.Length == width * height && g.Length == width * height &&
      b.Length == width * height && e.Length == width * height &&
      r != g && r != b && r != e && g != b && g != e && b != e
    }

    function Arrays(): set<array<real>> {
      {r, g, b, e}
    }

    /** The current pixel values. */
    function Snapshot(): (x: Exposures.Exposure)
      reads r, g, b, e
    {
      Exposures.Exposure(width, height, r[..], g[..], b[..], e[..])
    }

    /** new HDRExposure(w, h): all channels zero. */
    constructor (w: nat, h: nat)
      ensures Valid() && fresh(Arrays())
      ensures Snapshot() == Exposures.Blank(w, h)
    {
      width, height := w, h;
      r := new real[w * h](_ => 0.0);
      g := new real[w * h](_ => 0.0);
      b := new real[w * h](_ => 0.0);
      e := new real[w * h](_ => 0.0);
    }

    /** An exposure holding the given values, as ExposureScaler.scaleTo returns. */
    constructor FromValues(x: Exposures.Exposure)
      requires x.Valid()
      ensures Valid() && fresh(Arrays())
      ensures Snapshot() == x
    {
      width, height := x.width, x.height;
      r := new real[|x.r|](i requires 0 <= i < |x.r| => x.r[i]);
      g := new real[|x.g|](i requires 0 <= i < |x.g| => x.g[i]);
      b := new real[|x.b|](i requires 0 <= i < |x.b| => x.b[i]);
      e := new real[|x.e|](i requires 0 <= i < |x.e| => x.e[i]);
      new;
      assert r[..] == x.r && g[..] == x.g && b[..] == x.b && e[..] == x.e;
    }

    /**
     * HDRExposure.add: add other's channels into this one's, pixel by pixel.
     * other may be this very object (the sum is then doubled).
     */
    method Add(other: HDRExposure)
      requires Valid() && other.Valid()
      requires width == other.width && height == other.height
      requires this == other || Separate(this, other)
      modifies Arrays()
      ensures Snapshot() == Exposures.Add(old(Snapshot()), old(other.Snapshot()))
      ensures this != other ==> other.Snapshot() == old(other.Snapshot())
    {
      AddInto(r, other.r);
      AddInto(g, other.g);
      AddInto(b, other.b);
      AddInto(e, other.e);
    }
  }

  /** Two exposures share no channel array. */
  predicate Separate(x: HDRExposure, y: HDRExposure) {
    x.Arrays() !! y.Arrays()
  }

  /** dst[i] += src[i] for every i; src may be dst itself. */
  method AddInto(dst: array<real>, src: array<real>)
    requires dst.Length == src.Length
    modifies dst
    ensures dst[..] == Exposures.SumSeq(old(dst[..]), old(src[..]))
  {
    ghost var d0, s0 := dst[..], src[..];
    var i := 0;
    while i < dst.Length
      invariant 0 <= i <= dst.Length
      invariant forall j :: 0 <= j < i ==> dst[j] == d0[j] + s0[j]
      invariant forall j :: i <= j < dst.Length ==> dst[j] == d0[j] && src[j] == s0[j]
    {
      dst[i] := dst[i] + src[i];
      i := i + 1;
    }
    assert dst[..] == Exposures.SumSeq(d0, s0);
  }

  /**
   * A display-linear float image.  Its pixel data and the float-heavy
   * operations on it (load, multiply, exponentiate, toArgb, Bleed.bleedXY)
   * are not modelled; only its size and its identity matter here.
   */
  class HDRImage {
    const width: int
    const height: int

    constructor (w: int, h: int)
      ensures width == w && height == h
    {
      width, height := w, h;
    }
  }
}
