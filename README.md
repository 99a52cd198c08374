# pypher make_psf_kernel: PSF alignment, OTF centering, resampling size and pixel-scale lookup

pypher builds a homogenization kernel that turns an image taken with one
point spread function (PSF) into an image as if taken with another. Before
any Fourier work, `make_psf_kernel.py` does several steps on indices and
shapes, and this project models them in Dafny:

- `trim` center-crops a 2-D array to a target shape.
- `zero_pad` embeds an array in a larger zero array, either at the top-left
  corner or at the center.
- The driver aligns the source PSF to the target PSF's shape. It trims when
  the source is larger on either axis and center-pads otherwise.
- `psf2otf`, before the FFT, corner-pads the PSF to the output shape. It then
  rolls each axis back by half of the PSF's own size, so that the PSF's
  central sample lands at index (0, 0). An all-zero PSF short-circuits to
  zeros of its own shape.
- `imresample` computes the resampled side length and zoom ratio, and refuses
  a side above 10000 samples.
- `get_pixscale` reads the pixel scale from the first FITS keyword present in
  a fixed priority list, converting degrees to arcseconds.

Images are values `Image(height, width, px)` over `real`. `zero_pad` is a
method that fills a fresh `array2<real>` with nested loops. The roll step of
`psf2otf` is a method with a `for axis` loop, and `get_pixscale` is a method
with a `for` loop that breaks. Each method is proved equal to a function
(`Padded`, `CenteredPsf`, `PixelScaleOf`), and the promised properties are
proved about those functions.

Files:

- `images.dfy`: images, shapes, errors and `Result`, plus the "centered"
  predicates.
- `alignment.dfy`: `trim`, `zero_pad` and the driver's trim-or-pad step.
- `otf.dfy`: `np.roll` and the pad-and-roll step of `psf2otf`.
- `resample.dfy`: the `imresample` size rule.
- `pixscale.dfy`: `get_pixscale`.

## Model

| member | source | states |
|---|---|---|
| Alignment.Trim | make_psf_kernel.py:238-273 | Identity when the shapes match. Succeeds iff the shapes match, or the target is positive, no larger than the image and of the same parity on both axes. Each error (non-positive shape, target larger, parity mismatch) is raised exactly under its own condition, checked in the source's order. On success the result has the target shape and sits centered in the image: `out[i][j] == image[i + dx/2][j + dy/2]`. |
| Alignment.PadOffset | make_psf_kernel.py:316-322 | The block offset is (0, 0) at the corner. At the center, when the size difference is even, the margins on both sides of each axis are equal. |
| Alignment.Padded | make_psf_kernel.py:276-326 | Identity when the shapes match. Succeeds iff the target is positive and no smaller than the image on both axes, with a parity requirement only for the center anchor. Each error is raised exactly under its own condition. On success the result has the target shape and is the image embedded at offset (0, 0) for the corner, or at half the size difference for the center. At the center the image is centered on a frame of zeros. |
| Alignment.Embed | make_psf_kernel.py:312-324 | Every source sample lands at its index plus the offset, and every cell outside that window is 0. |
| Alignment.EmbedAtCenter | make_psf_kernel.py:316-322 | Embedding at the center offset of a same-parity target centers the image in the array, with zeros everywhere outside it. |
| Alignment.CopyBlock | make_psf_kernel.py:324 | Writing the block into a zero array leaves each cell holding the source sample inside the window and 0 outside it. |
| Alignment.SnapshotOfBlock | make_psf_kernel.py:312-326 | The array left by the block copy, read as an image, is exactly the embedded image. |
| Alignment.ZeroPad | make_psf_kernel.py:276-326 | The allocate-and-copy implementation returns exactly `Padded`, including every error case. |
| Alignment.Align | make_psf_kernel.py:690-694 | Succeeds iff the shapes are alignable. On success the result has the target's shape. When the source is larger on some axis, the result is the centered window of the source. Otherwise the source sits centered on zeros in the result. |
| Alignment.TrimRecoversCentered | make_psf_kernel.py:238-273 | Trimming an array to the shape of a non-empty image centered in it returns that image. |
| Alignment.TrimUndoesCenterPad | make_psf_kernel.py:238-326 | Round trip: for a non-empty X and a larger target of the same parity, center-padding succeeds and trimming back to X's shape returns X. |
| Alignment.EmptyImageRoundTripFails | make_psf_kernel.py:257-258 | The round trip needs a non-empty image: a 0-row image pads fine, but trimming back to its shape fails with the non-positive-shape error. |
| Images.SameCentered | make_psf_kernel.py:263-273 | Two images of the same shape centered in the same array are equal, so a centered window is unique. |
| Images.Zeros | make_psf_kernel.py:312 | `np.zeros(shape)` (and `np.zeros_like(psf)` at line 379): a valid array of the given shape with every sample 0. |
| Images.AllZero | make_psf_kernel.py:378 | `np.all(psf == 0)`: every sample is 0, vacuously true for an array with an empty axis. It is a definition with no contract of its own; `Images.AllZeroIsZeros` states its meaning. |
| Images.AllZeroIsZeros | make_psf_kernel.py:378-379 | `np.all(psf == 0)` holds exactly when the array equals `np.zeros_like(psf)`, so the array the short-circuit returns equals the PSF itself. |
| Otf.RollAt | make_psf_kernel.py:388 | A roll reads output index `t` of the rolled axis from input index `(t - shift) mod n`, and leaves the other axis alone. |
| Otf.Roll | make_psf_kernel.py:388 | `np.roll` along one axis. Its contract states only that the result is a valid array of the same shape; `Otf.RollAt` and `Otf.RollMovesSample` give the contents. |
| Otf.ShiftToOrigin | make_psf_kernel.py:387-388 | Both axes rolled back by half of the PSF's own size. Its contract states only the shape; `Otf.ShiftToOriginAt` gives the contents. |
| Otf.RolledAxes | make_psf_kernel.py:387-388 | The array after the first `k` passes of the `for axis` loop. Its contract states only the shape; it is the loop invariant of `Otf.CenterPsf`. |
| Otf.AllAxesRolled | make_psf_kernel.py:387-388 | After both passes of the loop, the array is the shift to the origin. |
| Otf.RollMovesSample | make_psf_kernel.py:388 | A roll moves the sample at index `t` of the rolled axis to `(t + shift) mod n`, and leaves the other index alone. |
| Otf.RollInverse | make_psf_kernel.py:388 | Rolling by the opposite shift undoes a roll. |
| Otf.ShiftToOriginAt | make_psf_kernel.py:387-388 | After both axis rolls, output `(i, j)` is the padded sample at `((i + h/2) mod H, (j + w/2) mod W)`. |
| Otf.CornerPadAt | make_psf_kernel.py:383 | The corner-padded PSF holds the PSF in its top-left block and 0 elsewhere. |
| Otf.CenteredPsf | make_psf_kernel.py:378-388 | An all-zero PSF gives zeros of the PSF's own shape, whatever shape was asked for. Otherwise the step succeeds iff corner padding does, fails with zero_pad's error, and on success has the requested shape. |
| Otf.CenteredPsfAt | make_psf_kernel.py:378-388 | Output `(i, j)` is the PSF sample at `((i + h/2) mod H, (j + w/2) mod W)` when that index is inside the PSF, and 0 otherwise. |
| Otf.PsfSampleLands | make_psf_kernel.py:378-388 | Every PSF sample `(a, b)` lands at `((a - h/2) mod H, (b - w/2) mod W)`. |
| Otf.CenterLandsAtOrigin | make_psf_kernel.py:385-388 | A nonzero PSF has no empty axis, and its central sample `(h/2, w/2)` lands at `(0, 0)`. |
| Otf.DiracCentersAtOrigin | make_psf_kernel.py:378-388 | A unit impulse at the PSF's center becomes a unit impulse at `(0, 0)` of the requested shape, with zeros everywhere else. |
| Otf.CenterPsf | make_psf_kernel.py:378-388 | The implementation (zero short-circuit, corner `zero_pad`, then the `for axis` loop of rolls by `-int(axis_size / 2)`) returns exactly `CenteredPsf`. |
| Resample.RoundHalfEven | make_psf_kernel.py:230 | Python 3 `round`: the result is within one half of `x`, and it is even when `x` is exactly halfway between two integers. |
| Resample.RoundHalfEvenUnique | make_psf_kernel.py:230 | Those two properties determine the rounded value uniquely. |
| Resample.ResampleSize | make_psf_kernel.py:228-233 | Division by zero iff the target scale is 0 or the first axis is empty. The size-cap error iff the rounded size exceeds 10000. Success iff neither applies, and then the new size is exactly `RoundHalfEven(old_size * src / tgt)` (Python 3 `round`, ties to even). It is at most 10000, and `ratio * old_size == new_size`. |
| Resample.CapIsInclusive | make_psf_kernel.py:232-233 | A size of exactly 10000 is accepted and 10001 is refused. |
| Resample.ResampleExamples | make_psf_kernel.py:228-233 | 200 samples scaled by 100 exceed the cap, and 42 samples doubled become 84 with ratio 2. |
| Resample.TiesRoundToEven | make_psf_kernel.py:230-231 | Raw sizes 2.5 and 3.5 round to 2 and 4, and the ratio is taken from the rounded size. |
| PixelScale.FirstPresent | make_psf_kernel.py:131-134 | Returns the first keyword at or after `from` that the header holds, or reports that there is none. |
| PixelScale.PixelScaleOf | make_psf_kernel.py:125-142 | Fails with "pixel size not found" iff no listed keyword is in the header. Otherwise the scale is non-negative. |
| PixelScale.FirstKeyDecides | make_psf_kernel.py:129-142 | The first listed keyword present decides the result: the absolute value of its entry, times 3600 exactly for CDELT1, CDELT2 and CD1_1. |
| PixelScale.LaterKeysIgnored | make_psf_kernel.py:131-134 | Two headers that agree up to and including the first keyword found give the same scale, whatever later keywords hold. |
| PixelScale.GetPixelScale | make_psf_kernel.py:125-142 | The loop-with-break implementation returns exactly `PixelScaleOf`. |

## Left out

- The FFT and its tail are not modelled: `udft2`, `uidft2`, the `fft2` call, the operation count and `real_if_close` in `psf2otf` (make_psf_kernel.py:334-343, 391-398). These are complex floating-point numerics over a library FFT. `Otf.CenteredPsf` models the array handed to the FFT.
- Otf.CenteredPsf: in the all-zero case the source returns `zeros_like(psf)` as the OTF itself, with no FFT. The model returns the same zeros as the array of that branch.
- `deconv_wiener`, `homogenization_kernel` and `deconv_unsup_wiener` are left out as Fourier-domain floating-point numerics and a random Gibbs sampler. The `clip(-1, 1)` in `homogenization_kernel` discards its result and changes nothing.
- The `zoom` call and the division by `ratio**2` in `imresample`, and all of `imrotate`, are spline interpolation in a foreign library. Only the size arithmetic and the cap are modelled.
- Resample.ResampleSize: only the first axis is sized, as in the source; the sample values are not modelled. Arithmetic is over exact reals, not IEEE doubles, so a raw size that is a tie only in exact arithmetic (or only in floating point) may round differently. Python 2's `round` (half away from zero) is not modelled; the model follows Python 3.
- PixelScale.PixelScaleOf: the header is a map from keyword to real. FITS keyword case-insensitivity, non-numeric values and reading the file are not modelled.
- Alignment.Trim and Alignment.Padded: when the shapes match the source returns the same array object. The model returns an equal value, so aliasing is not captured.
- Alignment.Padded: `position` is a string in the source. Every string other than 'center' behaves as the corner, so the model uses a two-valued `Anchor`.
- Images are 2-D, matching the two-element shapes of the driver. Numpy's handling of shapes of other lengths is not modelled.
- Argument parsing, logging, FITS reading and writing, normalisation, header formatting, `sys.exit` and the rest of `main` are left out as I/O.
- `pypher/fitsutils.py` and `setup.py` are left out as FITS I/O and packaging.
- Alignment.TrimUndoesCenterPad: the round trip is stated for non-empty images only, because `trim` rejects a target with a zero dimension (see `Alignment.EmptyImageRoundTripFails`).
- `test_resample_odd` in the tests expects 99 samples from 49 doubled. The rule at make_psf_kernel.py:229-231 gives 98, so that test concerns a different version of `imresample`, which is not part of this model.
