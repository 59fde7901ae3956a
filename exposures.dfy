/**
 * Value view of an HDRExposure: per-pixel sums of red, green and blue
 * radiance and the per-pixel exposure (sample weight), stored row-major in
 * four parallel sequences of length width*height.  Java floats are modelled
 * as reals.
 */
module Exposures {

  datatype Exposure = Exposure(width: int, height: int,
                               r: seq<real>, g: seq<real>, b: seq<real>, e: seq<real>)
  {
    /** The four channels all hold width*height pixels. */
    predicate Shaped(w: int, h: int) {
      width == w && height == h && 0 <= w && 0 <= h &&
      |r| == w * h && |g| == w * h && |b| == w * h && |e| == w * h
    }

    predicate Valid() {
      Shaped(width, height)
    }

    predicate SameSize(other: Exposure) {
      width == other.width && height == other.height
    }
  }

  /** A freshly created exposure: every channel is zero. */
  function Blank(w: nat, h: nat): (x: Exposure)
    ensures x.Shaped(w, h)
    ensures forall i :: 0 <= i < w * h ==> x.r[i] == 0.0 && x.g[i] == 0.0 && x.b[i] == 0.0 && x.e[i] == 0.0
  {
    Exposure(w, h, seq(w * h, _ => 0.0), seq(w * h, _ => 0.0), seq(w * h, _ => 0.0), seq(w * h, _ => 0.0))
  }

  /** Element-wise sum of two channels. */
  function SumSeq(x: seq<real>, y: seq<real>): (s: seq<real>)
    requires |x| == |y|
    ensures |s| == |x|
    ensures forall i :: 0 <= i < |s| ==> s[i] == x[i] + y[i]
  {
    seq(|x|, i requires 0 <= i < |x| => x[i] + y[i])
  }

  /** HDRExposure.add: element-wise sum of all four channels of two exposures of equal size. */
  function Add(x: Exposure, y: Exposure): (s: Exposure)
    requires x.Valid() && y.Valid() && x.SameSize(y)
    ensures s.Shaped(x.width, x.height)
    ensures forall i :: 0 <= i < x.width * x.height ==>
              s.r[i] == x.r[i] + y.r[i] && s.g[i] == x.g[i] + y.g[i] &&
              s.b[i] == x.b[i] + y.b[i] && s.e[i] == x.e[i] + y.e[i]
  {
    Exposure(x.width, x.height, SumSeq(x.r, y.r), SumSeq(x.g, y.g), SumSeq(x.b, y.b), SumSeq(x.e, y.e))
  }

  lemma AddCommutes(x: Exposure, y: Exposure)
    requires x.Valid() && y.Valid() && x.SameSize(y)
    ensures Add(x, y) == Add(y, x)
  {
    var s, t := Add(x, y), Add(y, x);
    assert s.r == t.r && s.g == t.g && s.b == t.b && s.e == t.e;
  }

  lemma AddAssociates(x: Exposure, y: Exposure, z: Exposure)
    requires x.Valid() && y.Valid() && z.Valid() && x.SameSize(y) && y.SameSize(z)
    ensures Add(Add(x, y), z) == Add(x, Add(y, z))
  {
    var s, t := Add(Add(x, y), z), Add(x, Add(y, z));
    assert s.r == t.r && s.g == t.g && s.b == t.b && s.e == t.e;
  }

  /** Adding a blank exposure changes nothing. */
  lemma AddBlank(x: Exposure)
    requires x.Valid()
    ensures Add(x, Blank(x.width, x.height)) == x
  {
    var s := Add(x, Blank(x.width, x.height));
    assert s.r == x.r && s.g == x.g && s.b == x.b && s.e == x.e;
  }

  /** Sum of a channel. */
  function Total(s: seq<real>): real
  {
    if s == [] then 0.0 else Total(s[..|s| - 1]) + s[|s| - 1]
  }

  /** Total of an element-wise sum is the sum of the totals. */
  lemma {:induction false} TotalOfSum(x: seq<real>, y: seq<real>)
    requires |x| == |y|
    ensures Total(SumSeq(x, y)) == Total(x) + Total(y)
  {
    if x != [] {
      var n := |x| - 1;
      assert SumSeq(x, y)[..n] == SumSeq(x[..n], y[..n]);
      TotalOfSum(x[..n], y[..n]);
    }
  }

  /** Increasing one element of a channel by d increases its total by d. */
  lemma {:induction false} TotalOfBump(s: seq<real>, i: int, d: real)
    requires 0 <= i < |s|
    ensures Total(s[i := s[i] + d]) == Total(s) + d
  {
    var n := |s| - 1;
    var t := s[i := s[i] + d];
    if i == n {
      assert t[..n] == s[..n];
    } else {
      assert t[..n] == s[..n][i := s[i] + d];
      TotalOfBump(s[..n], i, d);
    }
  }

  /** Row-major index of pixel (px, py). */
  function PixelIndex(w: int, px: int, py: int): int
  {
    w * py + px
  }

  lemma PixelIndexInRange(w: int, h: int, px: int, py: int)
    requires 0 <= px < w && 0 <= py < h
    ensures 0 <= PixelIndex(w, px, py) < w * h
  {
    assert w * py <= w * (h - 1);
  }

  predicate InFrame(w: int, h: int, px: int, py: int) {
    0 <= px < w && 0 <= py < h
  }

  /**
   * Deposit one sample: pixel (px, py), when it lies in the frame, receives
   * red, green and blue radiance and exposure weight; otherwise nothing changes.
   */
  function Deposit(x: Exposure, px: int, py: int, red: real, green: real, blue: real, weight: real): (y: Exposure)
    requires x.Valid()
    ensures y.Shaped(x.width, x.height)
    ensures !InFrame(x.width, x.height, px, py) ==> y == x
    ensures InFrame(x.width, x.height, px, py) ==>
              var i := PixelIndex(x.width, px, py);
              0 <= i < x.width * x.height &&
              y.r == x.r[i := x.r[i] + red] && y.g == x.g[i := x.g[i] + green] &&
              y.b == x.b[i := x.b[i] + blue] && y.e == x.e[i := x.e[i] + weight]
  {
    if !InFrame(x.width, x.height, px, py) then x
    else
      var i := PixelIndex(x.width, px, py);
      PixelIndexInRange(x.width, x.height, px, py);
      Exposure(x.width, x.height, x.r[i := x.r[i] + red], x.g[i := x.g[i] + green],
               x.b[i := x.b[i] + blue], x.e[i := x.e[i] + weight])
  }

  /**
   * A deposit conserves energy: each channel's total grows by exactly the
   * deposited amount when the pixel is in the frame, and not at all otherwise.
   */
  lemma DepositTotals(x: Exposure, px: int, py: int, red: real, green: real, blue: real, weight: real)
    requires x.Valid()
    ensures var y := Deposit(x, px, py, red, green, blue, weight);
            var k: real := if InFrame(x.width, x.height, px, py) then 1.0 else 0.0;
            Total(y.r) == Total(x.r) + k * red && Total(y.g) == Total(x.g) + k * green &&
            Total(y.b) == Total(x.b) + k * blue && Total(y.e) == Total(x.e) + k * weight
  {
    if InFrame(x.width, x.height, px, py) {
      var i := PixelIndex(x.width, px, py);
      PixelIndexInRange(x.width, x.height, px, py);
      TotalOfBump(x.r, i, red);
      TotalOfBump(x.g, i, green);
      TotalOfBump(x.b, i, blue);
      TotalOfBump(x.e, i, weight);
    }
  }

  /**
   * ExposureScaler.aspectRatioPreserved, as exact cross-multiplication:
   * w1:h1 equals w2:h2.
   */
  predicate AspectRatioPreserved(w1: int, h1: int, w2: int, h2: int): (ok: bool)
    ensures w1 != 0 && w2 != 0 ==> (ok <==> h1 as real / w1 as real == h2 as real / w2 as real)
  {
    if w1 != 0 && w2 != 0 then
      CrossMultiplication(h1 as real, w1 as real, h2 as real, w2 as real);
      w1 * h2 == w2 * h1
    else w1 * h2 == w2 * h1
  }

  /** Two fractions are equal exactly when their cross products are. */
  lemma CrossMultiplication(a: real, b: real, c: real, d: real)
    requires b != 0.0 && d != 0.0
    ensures a / b == c / d <==> b * c == d * a
  {
    assert a / b * (b * d) == a * d;
    assert c / d * (b * d) == c * b;
  }

  lemma AspectRatioExamples()
    ensures AspectRatioPreserved(4, 3, 8, 6)
    ensures !AspectRatioPreserved(4, 3, 8, 5)
  {
  }

  /**
   * Between two sizes of the same aspect ratio, the wider one is at least as
   * tall, so making the wider operand the target never shrinks either axis.
   */
  lemma WiderIsTaller(w1: int, h1: int, w2: int, h2: int)
    requires 0 <= w1 && 0 <= h1 && 0 <= w2 && 0 <= h2
    requires AspectRatioPreserved(w1, h1, w2, h2)
    requires w1 > w2
    ensures h1 >= h2
  {
    assert w2 * (h1 - h2) == (w1 - w2) * h2;
    assert (w1 - w2) * h2 >= 0;
    if w2 == 0 {
      assert w1 * h2 == 0;
    }
  }

  /** The signature of ExposureScaler.scaleTo as used by the merge: resample to a target size. */
  type Scaler = (Exposure, int, int) -> Exposure

  /** The only thing the merge relies on of scaleTo: it returns the requested size. */
  ghost predicate IsScaler(scaleTo: Scaler) {
    forall x, w, h :: 0 <= w && 0 <= h ==> scaleTo(x, w, h).Shaped(w, h)
  }
}
