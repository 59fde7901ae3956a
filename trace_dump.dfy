/**
 * The follow-trace-dump loop at the end of AdjusterUI.main: samples read
 * from a renderer's stream are deposited into the accumulator, which is
 * handed to the display (setExposure) once every width*height samples and
 * once more at the end of the stream if anything is still unpublished.
 */
module TraceDump {
  import opened Exposures
  import opened HDR
  import opened AdjusterUI

  /**
   * One decoded sample record: the normalised screen position and the
   * exposure and radiance that follow it (the offset, direction and
   * frequency fields are skipped).
   */
  datatype SampleRecord = SampleRecord(psX: real, psY: real, exposure: real, red: real, green: real, blue: real)

  /** Java's (int) cast: truncation toward zero. */
  function Truncate(x: real): (n: int)
    ensures x >= 0.0 ==> n as real <= x < n as real + 1.0
    ensures x < 0.0 ==> n as real - 1.0 < x <= n as real
  {
    if x >= 0.0 then x.Floor else -((-x).Floor)
  }

  /** Truncation is not floor: a position just left of the frame lands in column 0. */
  lemma TruncateIsNotFloor()
    ensures Truncate(-0.5) == 0 && (-0.5).Floor == -1
    ensures Truncate(-1.0) == -1
  {
  }

  /** A truncated coordinate lies in 0..n-1 exactly when the scaled position lies in (-1, n). */
  lemma TruncateInRange(v: real, n: int)
    ensures 0 <= Truncate(v) < n <==> n >= 1 && -1.0 < v < n as real
  {
  }

  /** The pixel column and row of a record: its position scaled by the frame size, truncated. */
  function PixelX(w: int, s: SampleRecord): int { Truncate(s.psX * w as real) }
  function PixelY(h: int, s: SampleRecord): int { Truncate(s.psY * h as real) }

  /** The record's pixel lies in the frame, so it is deposited. */
  predicate Lands(w: int, h: int, s: SampleRecord) {
    InFrame(w, h, PixelX(w, s), PixelY(h, s))
  }

  /** A pixel coordinate is in range exactly when the scaled position lies strictly between -1 and the size. */
  lemma PixelInRange(p: real, n: int)
    ensures 0 <= Truncate(p * n as real) < n <==> n >= 1 && -1.0 < p * n as real < n as real
  {
    TruncateInRange(p * n as real, n);
  }

  /** A record lands exactly when both scaled positions lie strictly between -1 and the frame size. */
  lemma LandsIff(w: int, h: int, s: SampleRecord)
    ensures Lands(w, h, s) <==> w >= 1 && h >= 1 && -1.0 < s.psX * w as real < w as real &&
                                -1.0 < s.psY * h as real < h as real
  {
    PixelInRange(s.psX, w);
    PixelInRange(s.psY, h);
  }

  function DepositRecord(x: Exposure, s: SampleRecord): (y: Exposure)
    requires x.Valid()
    ensures y.Shaped(x.width, x.height)
  {
    Deposit(x, PixelX(x.width, s), PixelY(x.height, s), s.red, s.green, s.blue, s.exposure)
  }

  /** The accumulator after depositing every record in order. */
  function DepositAll(x: Exposure, recs: seq<SampleRecord>): (y: Exposure)
    requires x.Valid()
    ensures y.Shaped(x.width, x.height)
  {
    if recs == [] then x else DepositRecord(DepositAll(x, recs[..|recs| - 1]), recs[|recs| - 1])
  }

  /** The record counted n-th triggers a periodic publish only when it was deposited. */
  predicate PublishesAt(w: int, h: int, n: int, s: SampleRecord): (ok: bool)
    ensures ok ==> Lands(w, h, s) && h * w >= 1
  {
    Lands(w, h, s) && n % (h * w) == 0
  }

  /** The sample counts at which the loop publishes periodically. */
  function Periodic(w: int, h: int, recs: seq<SampleRecord>): seq<nat>
  {
    if recs == [] then []
    else Periodic(w, h, recs[..|recs| - 1]) +
         (if PublishesAt(w, h, |recs|, recs[|recs| - 1]) then [|recs|] else [])
  }

  /** needsRecalc after the records: a deposit happened after the last publish. */
  predicate Pending(w: int, h: int, recs: seq<SampleRecord>) {
    if recs == [] then false
    else if Lands(w, h, recs[|recs| - 1]) then !PublishesAt(w, h, |recs|, recs[|recs| - 1])
    else Pending(w, h, recs[..|recs| - 1])
  }

  /** Every publish of the whole loop: the periodic ones, then the one at end of stream. */
  function Publications(w: int, h: int, recs: seq<SampleRecord>): seq<nat>
  {
    Periodic(w, h, recs) + (if Pending(w, h, recs) then [|recs|] else [])
  }

  /** No record from k on triggered a publish. */
  ghost predicate UnpublishedFrom(w: int, h: int, recs: seq<SampleRecord>, k: int) {
    forall j :: 0 <= k <= j < |recs| ==> !PublishesAt(w, h, j + 1, recs[j])
  }

  /**
   * A periodic publish happens at count c exactly when the c-th record was
   * deposited and c is a multiple of width*height; dropped records are
   * counted but never publish.
   */
  lemma {:induction false} PeriodicMembers(w: int, h: int, recs: seq<SampleRecord>, c: int)
    ensures c in Periodic(w, h, recs) <==> 1 <= c <= |recs| && PublishesAt(w, h, c, recs[c - 1])
  {
    if recs != [] {
      var n := |recs| - 1;
      PeriodicMembers(w, h, recs[..n], c);
      if c <= n && 1 <= c {
        assert recs[..n][c - 1] == recs[c - 1];
      }
    }
  }

  /** Periodic publishes come in strictly increasing order of count. */
  lemma {:induction false} PeriodicIncreasing(w: int, h: int, recs: seq<SampleRecord>)
    ensures forall i :: 0 <= i < |Periodic(w, h, recs)| ==> 1 <= Periodic(w, h, recs)[i] <= |recs|
    ensures forall i, j :: 0 <= i < j < |Periodic(w, h, recs)| ==> Periodic(w, h, recs)[i] < Periodic(w, h, recs)[j]
  {
    if recs != [] {
      PeriodicIncreasing(w, h, recs[..|recs| - 1]);
    }
  }

  /** A pending deposit came after the last periodic publish. */
  lemma PendingAfterPeriodic(w: int, h: int, recs: seq<SampleRecord>)
    requires Pending(w, h, recs)
    ensures Periodic(w, h, recs) == [] || Periodic(w, h, recs)[|Periodic(w, h, recs)| - 1] < |recs|
  {
    var n := |recs| - 1;
    PeriodicIncreasing(w, h, recs[..n]);
  }

  /**
   * Every setExposure of the loop happens at a distinct count within the
   * stream, in increasing order: the end-of-stream publish never repeats the
   * last periodic one.
   */
  lemma PublicationsIncreasing(w: int, h: int, recs: seq<SampleRecord>)
    ensures forall i :: 0 <= i < |Publications(w, h, recs)| ==> 1 <= Publications(w, h, recs)[i] <= |recs|
    ensures forall i, j :: 0 <= i < j < |Publications(w, h, recs)| ==>
              Publications(w, h, recs)[i] < Publications(w, h, recs)[j]
  {
    var p := Periodic(w, h, recs);
    PeriodicIncreasing(w, h, recs);
    if Pending(w, h, recs) {
      PendingAfterPeriodic(w, h, recs);
      var q := p + [|recs|];
      assert Publications(w, h, recs) == q;
      forall i | 0 <= i < |q|
        ensures 1 <= q[i] <= |recs|
      {
        if i < |p| { assert q[i] == p[i]; }
      }
      forall i, j | 0 <= i < j < |q|
        ensures q[i] < q[j]
      {
        assert q[i] == p[i];
        if j < |p| {
          assert q[j] == p[j];
        } else if i < |p| - 1 {
          assert p[i] < p[|p| - 1];
        }
      }
    } else {
      assert Publications(w, h, recs) == p;
    }
  }

  /**
   * needsRecalc is set exactly when some deposited record has not been
   * followed (or itself accompanied) by a periodic publish.
   */
  lemma {:induction false} PendingIff(w: int, h: int, recs: seq<SampleRecord>)
    ensures Pending(w, h, recs) <==>
              exists k :: 0 <= k < |recs| && Lands(w, h, recs[k]) && UnpublishedFrom(w, h, recs, k)
  {
    if recs != [] {
      var n := |recs| - 1;
      var pre := recs[..n];
      PendingIff(w, h, pre);
      if Lands(w, h, recs[n]) {
        if PublishesAt(w, h, n + 1, recs[n]) {
          forall k | 0 <= k < |recs| && Lands(w, h, recs[k])
            ensures !UnpublishedFrom(w, h, recs, k)
          {
            assert !PublishesAt(w, h, n + 1, recs[n]) == false;
          }
        } else {
          assert UnpublishedFrom(w, h, recs, n);
        }
      } else {
        if Pending(w, h, pre) {
          var k :| 0 <= k < n && Lands(w, h, pre[k]) && UnpublishedFrom(w, h, pre, k);
          assert recs[k] == pre[k];
          forall j | k <= j < |recs|
            ensures !PublishesAt(w, h, j + 1, recs[j])
          {
            if j < n { assert recs[j] == pre[j]; }
          }
        } else {
          forall k | 0 <= k < |recs| && Lands(w, h, recs[k])
            ensures !UnpublishedFrom(w, h, recs, k)
          {
            assert k < n;
            assert pre[k] == recs[k];
            assert !UnpublishedFrom(w, h, pre, k);
            var j :| k <= j < n && PublishesAt(w, h, j + 1, pre[j]);
            assert recs[j] == pre[j];
          }
        }
      }
    }
  }

  /**
   * Nothing deposited is left undisplayed: after the stream ends, the last
   * publish comes after every record that was deposited.
   */
  lemma {:induction false} EveryDepositPublished(w: int, h: int, recs: seq<SampleRecord>, k: int)
    requires 0 <= k < |recs|
    ensures Lands(w, h, recs[k]) ==>
              |Publications(w, h, recs)| > 0 &&
              Publications(w, h, recs)[|Publications(w, h, recs)| - 1] > k
  {
    var n := |recs| - 1;
    var pre := recs[..n];
    if Lands(w, h, recs[k]) && !Lands(w, h, recs[n]) {
      assert k < n && pre[k] == recs[k];
      EveryDepositPublished(w, h, pre, k);
      assert Periodic(w, h, recs) == Periodic(w, h, pre);
    }
  }

  /** A stream whose records all miss the frame changes nothing and publishes nothing. */
  lemma {:induction false} AllDropped(x: Exposure, recs: seq<SampleRecord>)
    requires x.Valid()
    requires forall k :: 0 <= k < |recs| ==> !Lands(x.width, x.height, recs[k])
    ensures DepositAll(x, recs) == x
    ensures Publications(x.width, x.height, recs) == []
  {
    if recs != [] {
      var n := |recs| - 1;
      AllDropped(x, recs[..n]);
    }
  }

  /** The channels of an accumulator and the matching amounts of a record. */
  datatype Channel = Red | Green | Blue | Weight

  function Plane(x: Exposure, c: Channel): seq<real> {
    match c
    case Red => x.r
    case Green => x.g
    case Blue => x.b
    case Weight => x.e
  }

  function Amount(s: SampleRecord, c: Channel): real {
    match c
    case Red => s.red
    case Green => s.green
    case Blue => s.blue
    case Weight => s.exposure
  }

  /** The total of a channel over the records that land in the frame. */
  function Landed(w: int, h: int, recs: seq<SampleRecord>, c: Channel): real {
    if recs == [] then 0.0
    else Landed(w, h, recs[..|recs| - 1], c) +
         (if Lands(w, h, recs[|recs| - 1]) then Amount(recs[|recs| - 1], c) else 0.0)
  }

  /** Depositing conserves energy: each channel gains exactly what landed. */
  lemma {:induction false} DepositAllConserves(x: Exposure, recs: seq<SampleRecord>, c: Channel)
    requires x.Valid()
    ensures Total(Plane(DepositAll(x, recs), c)) == Total(Plane(x, c)) + Landed(x.width, x.height, recs, c)
  {
    if recs != [] {
      var n := |recs| - 1;
      var y := DepositAll(x, recs[..n]);
      DepositAllConserves(x, recs[..n], c);
      var s := recs[n];
      DepositTotals(y, PixelX(y.width, s), PixelY(y.height, s), s.red, s.green, s.blue, s.exposure);
    }
  }

  /** One step of the loop, as the prefix functions see it. */
  lemma PrefixStep(x: Exposure, recs: seq<SampleRecord>, n: int)
    requires x.Valid() && 0 <= n < |recs|
    ensures DepositAll(x, recs[..n + 1]) == DepositRecord(DepositAll(x, recs[..n]), recs[n])
    ensures Periodic(x.width, x.height, recs[..n + 1]) ==
              Periodic(x.width, x.height, recs[..n]) +
              (if PublishesAt(x.width, x.height, n + 1, recs[n]) then [n + 1] else [])
    ensures Pending(x.width, x.height, recs[..n + 1]) ==
              if Lands(x.width, x.height, recs[n]) then !PublishesAt(x.width, x.height, n + 1, recs[n])
              else Pending(x.width, x.height, recs[..n])
  {
    assert recs[..n + 1][..n] == recs[..n];
  }

  /** The four += of one deposit, into the pixel's row-major index. */
  method DepositPixel(sum: HDRExposure, px: int, py: int, red: real, green: real, blue: real, weight: real)
    requires sum.Valid() && InFrame(sum.width, sum.height, px, py)
    modifies sum.Arrays()
    ensures sum.Snapshot() == Deposit(old(sum.Snapshot()), px, py, red, green, blue, weight)
  {
    PixelIndexInRange(sum.width, sum.height, px, py);
    var idx := sum.width * py + px;
    sum.r[idx] := sum.r[idx] + red;
    sum.g[idx] := sum.g[idx] + green;
    sum.b[idx] := sum.b[idx] + blue;
    sum.e[idx] := sum.e[idx] + weight;
  }

  /**
   * One pass of the loop body for record n: the pixel of a landing record is
   * deposited, and a publish follows when the count is a multiple of the
   * frame size; a dropped record is only counted.
   */
  method FollowRecord(sum: HDRExposure, ghost x0: Exposure, records: seq<SampleRecord>, n: nat,
                      pending: bool, published: seq<nat>, adj: Adjuster)
      returns (pending': bool, published': seq<nat>)
    requires sum.Valid() && adj.Valid() && x0.Valid() && n < |records|
    requires x0.width == sum.width && x0.height == sum.height
    requires sum.Snapshot() == DepositAll(x0, records[..n])
    requires pending == Pending(sum.width, sum.height, records[..n])
    requires published == Periodic(sum.width, sum.height, records[..n])
    modifies sum.Arrays(), adj`hdrExposure, adj`needsRecalculation
    ensures adj.Valid()
    ensures sum.Snapshot() == DepositAll(x0, records[..n + 1])
    ensures pending' == Pending(sum.width, sum.height, records[..n + 1])
    ensures published' == Periodic(sum.width, sum.height, records[..n + 1])
    ensures published' == published || published' == published + [n + 1]
    ensures published' != published ==> adj.hdrExposure == sum && adj.needsRecalculation
    ensures published' == published ==>
              adj.hdrExposure == old(adj.hdrExposure) && adj.needsRecalculation == old(adj.needsRecalculation)
  {
    var s := records[n];
    PrefixStep(x0, records, n);
    pending', published' := pending, published;
    var px := PixelX(sum.width, s);
    var py := PixelY(sum.height, s);
    if px < 0 || px >= sum.width || py < 0 || py >= sum.height {
      return;
    }
    DepositPixel(sum, px, py, s.red, s.green, s.blue, s.exposure);
    pending' := true;
    if (n + 1) % (sum.height * sum.width) == 0 {
      adj.SetExposure(sum);
      pending' := false;
      published' := published + [n + 1];
    }
  }

  /**
   * The loop itself, over the already decoded records.  Returns the number
   * of samples read and the sample count at each setExposure call.
   */
  method FollowTraceDump(sum: HDRExposure, records: seq<SampleRecord>, adj: Adjuster)
      returns (samplesRead: nat, publications: seq<nat>)
    requires sum.Valid() && adj.Valid()
    modifies sum.Arrays(), adj`hdrExposure, adj`needsRecalculation
    ensures adj.Valid()
    ensures sum.Snapshot() == DepositAll(old(sum.Snapshot()), records)
    ensures samplesRead == |records|
    ensures publications == Publications(sum.width, sum.height, records)
    ensures publications != [] ==> adj.hdrExposure == sum && adj.needsRecalculation
    ensures publications == [] ==>
              adj.hdrExposure == old(adj.hdrExposure) && adj.needsRecalculation == old(adj.needsRecalculation)
  {
    ghost var x0 := sum.Snapshot();
    samplesRead := 0;
    var needsRecalc := false;
    publications := [];
    while samplesRead < |records|
      invariant 0 <= samplesRead <= |records|
      invariant sum.Snapshot() == DepositAll(x0, records[..samplesRead])
      invariant needsRecalc == Pending(sum.width, sum.height, records[..samplesRead])
      invariant publications == Periodic(sum.width, sum.height, records[..samplesRead])
      invariant adj.Valid()
      invariant publications != [] ==> adj.hdrExposure == sum && adj.needsRecalculation
      invariant publications == [] ==>
                  adj.hdrExposure == old(adj.hdrExposure) && adj.needsRecalculation == old(adj.needsRecalculation)
    {
      needsRecalc, publications := FollowRecord(sum, x0, records, samplesRead, needsRecalc, publications, adj);
      samplesRead := samplesRead + 1;
    }
    assert records[..samplesRead] == records;
    ghost var periodic := publications;
    assert Publications(sum.width, sum.height, records) ==
             periodic + (if needsRecalc then [samplesRead] else []);
    if needsRecalc {
      adj.SetExposure(sum);
      needsRecalc := false;
      publications := publications + [samplesRead];
    }
  }
}
