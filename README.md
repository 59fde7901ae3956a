# AdjusterUI core, modelled in Dafny

HDRUtil's `AdjusterUI` is a viewer for high-dynamic-range renders. It sums
radiance samples into an accumulator (`HDRExposure`). It merges accumulators
of different resolution. A background thread turns the accumulator into a
displayable image whenever it or the settings change. This project models
the integer-level, sequential rules of `src/togos/hdrutil/AdjusterUI.java`:

- the merge of two accumulators (`addScaleyAndDestructively`);
- the follow-trace-dump loop, which deposits streamed samples and publishes
  the accumulator with `setExposure`;
- the letterbox arithmetic of `paint`: the largest whole magnification, and
  centring with Java's truncating division;
- the recalculation thread as atomic transitions over explicit state: the
  dirty flag and its gate, reallocation of buffers only on a size change, and
  the ping-pong swap of the two float images after a bleed pass;
- the key handler (gamma/exposure steps, dither and bleed toggles, the F1
  overlay cycle) and export's choice of the first unused file index.

Modules, one file each:

- `Wrappers`: `Option` and `Result`.
- `Exposures`: the accumulator as a value. Element-wise add, deposit, channel
  totals, and the aspect-ratio test.
- `HDR`: the mutable `HDRExposure` class (four channel arrays) and `HDRImage`.
- `Merge`: the merge, on values and in place.
- `Letterbox`: paint's scale and offsets.
- `AdjusterUI`: the `Adjuster` class, which merges the canvas with its inner
  `RecalculationThread`. The inner class's one field, `needsRecalculation`,
  becomes a field of `Adjuster`; which lock guards what is not modelled.
- `TraceDump`: the sample loop of `main`.

Each in-place method is proved against a function on values: `Snapshot()`
of an `HDRExposure`, `DepositAll`, `Publications`, `MergeValues`. The
lemmas state the properties of those functions.

Decisions:

- Java floats are modelled as Dafny `real`s, so float rounding is not modelled.
- `ExposureScaler.aspectRatioPreserved`, whose body is not part of this
  model, is taken to be exact cross-multiplication, `w1*h2 == w2*h1`.
  For non-zero widths that is equality of the height-to-width ratios.
- `ExposureScaler.scaleTo` is a function parameter of the merge on values.
  It is taken to return a new accumulator of the requested size (`IsScaler`)
  and to leave its argument unchanged (`HDR.HDRExposure.FromValues` builds
  the fresh result from the argument's values), so the result shares no
  array with either operand.
- `HDRExposure.add` is modelled as the element-wise sum of all four channels,
  for operands of equal size.
- The pixel of a streamed sample is found with Java's `(int)` cast, which
  truncates toward zero rather than flooring (`TraceDump.Truncate`).
  `TruncateIsNotFloor` shows the difference: a sample whose `psX*width`
  lies in (-1, 0) is deposited into column 0 rather than dropped.

## Model

| member | source | states |
|---|---|---|
| Exposures.Blank | src/togos/hdrutil/AdjusterUI.java:368 | a new accumulator has the requested size and every channel is zero |
| Exposures.Add | src/togos/hdrutil/AdjusterUI.java:279 | `add` keeps the size, and each of the four channels becomes the pixel-wise sum of the operands |
| Exposures.AddCommutes | src/togos/hdrutil/AdjusterUI.java:279 | adding b into a gives the same values as adding a into b |
| Exposures.AddAssociates | src/togos/hdrutil/AdjusterUI.java:279 | successive merges of equal-size accumulators can be grouped either way |
| Exposures.AddBlank | src/togos/hdrutil/AdjusterUI.java:279 | adding a zero accumulator changes nothing |
| Exposures.TotalOfSum | src/togos/hdrutil/AdjusterUI.java:279 | a channel's total after `add` is the sum of the two totals |
| Exposures.PixelIndexInRange | src/togos/hdrutil/AdjusterUI.java:419 | for an in-frame pixel, `width*py+px` is a valid index into the channel arrays |
| Exposures.Deposit | src/togos/hdrutil/AdjusterUI.java:414-423 | an out-of-frame pixel leaves the accumulator unchanged; otherwise only index `width*py+px` changes, in each channel by red, green, blue and exposure |
| Exposures.DepositTotals | src/togos/hdrutil/AdjusterUI.java:414-423 | one deposit raises each channel's total by exactly the deposited amount when the pixel is in frame, and by nothing otherwise |
| Exposures.AspectRatioExamples | src/togos/hdrutil/AdjusterUI.java:283 | 4x3 and 8x6 have the same aspect ratio; 4x3 and 8x5 do not |
| Exposures.WiderIsTaller | src/togos/hdrutil/AdjusterUI.java:283-293 | of two sizes with the same aspect ratio, the wider is at least as tall |
| Exposures.AspectRatioPreserved | src/togos/hdrutil/AdjusterUI.java:283 | for non-zero widths, the aspect test passes exactly when the two height-to-width ratios are equal |
| HDR.HDRExposure.constructor | src/togos/hdrutil/AdjusterUI.java:368 | `new HDRExposure(w,h)` gives fresh zeroed arrays of w*h pixels |
| HDR.HDRImage.constructor | src/togos/hdrutil/AdjusterUI.java:91 | `new HDRImage(w, h)` has the requested width and height |
| HDR.HDRExposure.FromValues | src/togos/hdrutil/AdjusterUI.java:293 | the accumulator returned by `scaleTo` is fresh and holds the resampled values |
| HDR.HDRExposure.Add | src/togos/hdrutil/AdjusterUI.java:279 | in-place `add`: the new values are `Exposures.Add` of the old values; the other operand is untouched unless it is the same object |
| HDR.AddInto | src/togos/hdrutil/AdjusterUI.java:279 | one channel, summed in place pixel by pixel, also when both arguments are the same array |
| Merge.MergeValues | src/togos/hdrutil/AdjusterUI.java:275-295 | equal sizes: first operand plus second. Aspect mismatch: the error. Otherwise the wider operand plus the other resampled to its size. A successful result is well-formed |
| Merge.MergeFailsIff | src/togos/hdrutil/AdjusterUI.java:278-285 | the merge fails exactly when the sizes differ and the aspect ratios differ, and the error reports both sizes |
| Merge.MergeSize | src/togos/hdrutil/AdjusterUI.java:287-294 | the result is as wide as the wider operand. When the widths differ it is as tall as the taller one, so resampling only enlarges |
| Merge.MergeSymmetric | src/togos/hdrutil/AdjusterUI.java:278-294 | for sizes other than equal widths with different heights, swapping the operands gives the same outcome and the same sum. When the widths differ the same accumulator (the wider) holds it; with equal widths the first argument always holds the sum |
| Merge.AddScaleyAndDestructively | src/togos/hdrutil/AdjusterUI.java:275-295 | returns the accumulator `MergeValues` names as target, now holding the merged values. The other operand is unchanged. On an aspect mismatch it raises before touching either input |
| Letterbox.JavaDiv | src/togos/hdrutil/AdjusterUI.java:225-226 | Java's `/` on int truncates toward zero: `q*d` falls short of a non-negative dividend by less than d, and exceeds a negative one by less than d |
| Letterbox.Offset | src/togos/hdrutil/AdjusterUI.java:225-226 | the leading border halves the spare room, truncating toward zero: when the image fits, the trailing border is the same or one pixel larger; when it overhangs, the same or one pixel more negative |
| Letterbox.NotFitsBeyond | src/togos/hdrutil/AdjusterUI.java:220 | once a magnification does not fit the canvas, no larger one does |
| Letterbox.BestScaleUnique | src/togos/hdrutil/AdjusterUI.java:219-223 | at most one scale is the largest that fits (or 1) |
| Letterbox.ClosedFormIsBest | src/togos/hdrutil/AdjusterUI.java:219-223 | the closed form `max(1, min(W/w, H/h))` is that scale |
| Letterbox.Magnification | src/togos/hdrutil/AdjusterUI.java:219-223 | the result is at least 1. Above 1 the image fits at that scale, and no larger scale fits. It equals the closed form |
| Letterbox.Place | src/togos/hdrutil/AdjusterUI.java:225-228 | `right-left` is w*scale and `bottom-top` is h*scale |
| Letterbox.CentredWhenFits | src/togos/hdrutil/AdjusterUI.java:225-228 | when the scaled image fits an axis, the leading border is non-negative and the trailing one at most one pixel larger |
| Letterbox.SplitWhenTooLarge | src/togos/hdrutil/AdjusterUI.java:225-228 | when the image overhangs an axis, both borders are non-positive; because the division truncates, the leading overhang is the smaller by at most one pixel |
| Letterbox.TruncationMatters | src/togos/hdrutil/AdjusterUI.java:225 | a 5-pixel image on a 2-pixel canvas starts at -1, where floor division would give -2 |
| Letterbox.PlacementProperties | src/togos/hdrutil/AdjusterUI.java:219-228 | at paint's chosen scale, each axis is centred when it fits and overhangs only at scale 1 |
| AdjusterUI.Neg | src/togos/hdrutil/AdjusterUI.java:130-132 | with shift, the factor is the reciprocal; without shift, the factor itself; a positive step stays positive |
| AdjusterUI.StepFactor | src/togos/hdrutil/AdjusterUI.java:139-143 | the gamma and exposure step (1.125 with control, 1.5 without) is above 1, so a plain press raises the setting and a shifted press lowers it |
| AdjusterUI.PressThenShiftPressRestores | src/togos/hdrutil/AdjusterUI.java:138-144 | a G (or E) press followed by the shifted press restores the setting, in exact arithmetic |
| AdjusterUI.NextOverlayMode | src/togos/hdrutil/AdjusterUI.java:164-165 | F1 advances the overlay mode modulo 3 and wraps 2 back to 0 |
| AdjusterUI.OverlayModeCycles | src/togos/hdrutil/AdjusterUI.java:163-166 | three F1 presses return to the starting mode, and each press changes it |
| AdjusterUI.NewOutputIndex | src/togos/hdrutil/AdjusterUI.java:173-177 | the index chosen is unused and every smaller index is used |
| AdjusterUI.Adjuster.constructor | src/togos/hdrutil/AdjusterUI.java:35-59 | initial state: overlay mode 1, exposure 1, gamma 2.2, dither on, bleed off, dirty, no exposure or buffers |
| AdjusterUI.Raster.constructor | src/togos/hdrutil/AdjusterUI.java:79 | the new `BufferedImage` has the exposure's width and height |
| AdjusterUI.NeedsRealloc | src/togos/hdrutil/AdjusterUI.java:77-91 | the buffers are kept only when an image exists and its size matches, so the kept pixel buffer has the required pixel count |
| AdjusterUI.Adjuster.SettingsUpdated | src/togos/hdrutil/AdjusterUI.java:61-64 | always leaves the dirty flag set |
| AdjusterUI.Adjuster.SetExposure | src/togos/hdrutil/AdjusterUI.java:201-212 | installs the accumulator and sets the dirty flag |
| AdjusterUI.Adjuster.KeyPressed | src/togos/hdrutil/AdjusterUI.java:134-169 | G and E scale gamma or exposure by 1.5 or 1.125, or by its reciprocal with shift. D and B toggle dither and bleed. F1 cycles the overlay. G, E, D and B set the dirty flag; nothing else changes |
| AdjusterUI.Adjuster.BeginPass | src/togos/hdrutil/AdjusterUI.java:69-75 | a pass starts exactly when an exposure is present, the flag is dirty and the canvas is showing, and starting clears the flag; otherwise nothing changes |
| AdjusterUI.Adjuster.PrepareBuffers | src/togos/hdrutil/AdjusterUI.java:77-83 | the float image, ARGB buffer and BufferedImage are replaced, with fresh ones of the exposure's size, only when the image is absent or of another size; otherwise they are kept |
| AdjusterUI.Adjuster.BleedAndSwap | src/togos/hdrutil/AdjusterUI.java:89-98 | the scratch image is reallocated only when absent or of another size. Afterwards the two images have traded places, have equal sizes and are distinct |
| AdjusterUI.Adjuster.RunPass | src/togos/hdrutil/AdjusterUI.java:77-101 | after a pass the image has the exposure's size. Buffers are reused when the size is unchanged. With bleed on, the two images have swapped; settings and the dirty flag are untouched |
| AdjusterUI.Adjuster.Recalculate | src/togos/hdrutil/AdjusterUI.java:66-103 | one worker turn runs a pass exactly when the gate opens; otherwise nothing changes. After a pass the flag is clear, the image and the ARGB buffer match the exposure's size, the settings and overlay mode are unchanged, the raster and ARGB buffer are kept when the size did not change, and after a bleed pass the two images have traded places (each reused unless reallocated) and have equal sizes; without bleed the second image is untouched, and the float image is kept when the size did not change |
| AdjusterUI.Adjuster.Layout | src/togos/hdrutil/AdjusterUI.java:214-228 | nothing is placed before the first pass; afterwards the placement uses the best magnification, centred |
| AdjusterUI.Adjuster.ExportImage | src/togos/hdrutil/AdjusterUI.java:187-192 | export fails with NoCurrentImage exactly when no image has been computed; otherwise it picks the first unused index |
| AdjusterUI.CoalescedSettingsChanges | src/togos/hdrutil/AdjusterUI.java:61-75 | three changes in a row lead to one pass; the next worker turn finds nothing to do |
| TraceDump.Truncate | src/togos/hdrutil/AdjusterUI.java:412-413 | the `(int)` cast truncates toward zero: never moves away from zero, and by less than 1 |
| TraceDump.TruncateIsNotFloor | src/togos/hdrutil/AdjusterUI.java:412-413 | -0.5 truncates to 0 where floor gives -1 |
| TraceDump.LandsIff | src/togos/hdrutil/AdjusterUI.java:412-417 | `PixelX` and `PixelY` are the truncated scaled positions. `Lands` (the record is not skipped) holds exactly when both scaled positions lie strictly between -1 and the frame size |
| TraceDump.PublishesAt | src/togos/hdrutil/AdjusterUI.java:414-426 | a periodic publish needs a landed record, and then the frame is at least 1x1, so the skip at 414-417 keeps the modulus by `height*width` from dividing by zero |
| TraceDump.DepositRecord | src/togos/hdrutil/AdjusterUI.java:412-423 | depositing one record keeps the accumulator's size |
| TraceDump.DepositAll | src/togos/hdrutil/AdjusterUI.java:400-424 | depositing a stream keeps the accumulator's size |
| TraceDump.PrefixStep | src/togos/hdrutil/AdjusterUI.java:410-430 | one more record extends the deposits, the periodic publishes and the pending flag as the loop body does |
| TraceDump.PeriodicMembers | src/togos/hdrutil/AdjusterUI.java:410-430 | `Periodic`: a periodic publish happens at count c exactly when the c-th record was deposited and c is a multiple of width*height; dropped records are counted but never publish |
| TraceDump.PeriodicIncreasing | src/togos/hdrutil/AdjusterUI.java:410-430 | periodic publishes are at counts between 1 and the number read, in strictly increasing order |
| TraceDump.PendingIff | src/togos/hdrutil/AdjusterUI.java:424-430 | `Pending`: `needsRecalc` is set exactly when some deposit has not been followed or accompanied by a periodic publish |
| TraceDump.PendingAfterPeriodic | src/togos/hdrutil/AdjusterUI.java:424-430 | while a deposit is pending, the last periodic publish came before the current count |
| TraceDump.PublicationsIncreasing | src/togos/hdrutil/AdjusterUI.java:426-436 | every `setExposure` of the loop (`Publications`) happens at a count between 1 and the number read, in strictly increasing order, so the end-of-stream publish never repeats a periodic one |
| TraceDump.EveryDepositPublished | src/togos/hdrutil/AdjusterUI.java:426-436 | after end of stream, the last publish comes at or after every deposited record |
| TraceDump.AllDropped | src/togos/hdrutil/AdjusterUI.java:414-417 | a stream of only out-of-frame records changes nothing and publishes nothing |
| TraceDump.DepositAllConserves | src/togos/hdrutil/AdjusterUI.java:419-423 | each channel's total grows by exactly the sum of that channel over the records that land in the frame |
| TraceDump.DepositPixel | src/togos/hdrutil/AdjusterUI.java:419-423 | the four in-place `+=` are `Exposures.Deposit` on the accumulator's values |
| TraceDump.FollowRecord | src/togos/hdrutil/AdjusterUI.java:410-430 | one pass of the loop body moves the accumulator, the pending flag and the periodic publishes from the first n records to the first n+1, publishing at most once, at count n+1 |
| TraceDump.FollowTraceDump | src/togos/hdrutil/AdjusterUI.java:395-439 | the loop reads every record and leaves the accumulator equal to `DepositAll`. It publishes at exactly the counts `Publications` gives: the periodic ones, plus the end of stream if a deposit is pending. After any publish the UI holds the accumulator and is dirty |

## Left out

- Threads: `kick`, `start`, `interrupt`, `wait` and `notifyAll`, and interleavings within a pass. A pass is modelled as atomic steps (`BeginPass`, then `RunPass`). Torn reads of an accumulator that is still being written are not modelled.
- AdjusterUI.Adjuster.RunPass: line 82 writes back `hdrExposure = exp`. Under concurrency this could undo a `setExposure` made after the gate. The model performs the assignment but does not explore that interleaving.
- Tone mapping: `HDRImage.load`, `multiply`, `exponentiate`, `toArgb`, `Bleed.bleedXY` and `BufferedImage.setRGB`. Their bodies are not part of this model and are float-heavy. Only the sizes and identities of the buffers are modelled.
- Drawing and AWT: `fillRect`, `drawImage`, `drawString` and the status and help overlay text; `repaint`; `setPreferredSize`; the component, hierarchy, key and window listeners as such (key handling is `KeyPressed`).
- Float arithmetic: settings and pixel sums are reals, so Java float rounding, NaN and infinities are not modelled.
- The `(int)` cast's saturation at the int range is not modelled. It does not change which samples are dropped while width and height fit in an int.
- Java's 32-bit int and 64-bit long overflow, in `width*py+px`, `w*scale` and `samplesRead`, is not modelled.
- Stream decoding: `DataInputStream.readFloat`, skipping the seven ignored floats, and `EOFException`. Records arrive as an already decoded sequence, and the end of the sequence plays the part of EOF.
- `main`'s argument parsing, dump and RGBE loading (`ChunkyDump`, `RGBE`), `exp.multiply(weight)`, the `avgSpp` bookkeeping and the frame set-up are I/O and are not modelled. Neither is `exportImage`'s `mkParentDirs` or `ImageIO.write`; `ExportImage` returns the chosen index.
- AdjusterUI.NewOutputIndex: which files exist is given as the finite set of used indices. The file name built from the prefix, the exposure and gamma strings and the suffix is not modelled.
- Merge.AddScaleyAndDestructively: `ExposureScaler.scaleTo` is not part of this model. It is a parameter taken to return a new accumulator of the requested size and to leave its argument unchanged (`HDR.HDRExposure.FromValues` builds the fresh result from the argument's values); the ensures that the other operand is unchanged rests on both. Conservation of radiance under resampling is not stated.
- Letterbox.Magnification: requires an image at least 1x1. The source's loop would never end for a 0x0 image. It does end for an image 0 wide and of positive height (or the reverse), and that case is excluded too. The default accumulator is 240x160; a loaded accumulator of zero width or height is not considered (paint would loop forever on 0x0).
- AdjusterUI.Adjuster.Layout: requires a non-empty image, for the same reason as `Magnification`, so it also excludes an image that is 0 wide with positive height, or the reverse, on which the source's loop ends.
- `HDRExposure.getImage` (line 81) is not part of this model. It is taken to return a new image of the exposure's size (`HDR.HDRImage.constructor`).
- Diagnostic logging to `System.err` is not modelled: "Failed to export" and the stack trace (lines 159-160), the export messages (lines 193 and 196), the periodic "samples read; updating" message (line 427) and the end-of-dump message (line 437).
