# Image fusion: the integer per-pixel fusion step

This project models the integer core of `fuseImages` in `server/fusion.js`:
the common size both input images are resized to, the dispatch on the method
name, and the loops that allocate the fused grayscale buffer and fill it index
by index from the two co-located input samples `a = data1[i]` and
`b = data2[i]`.

- `pixel_ops.dfy`, module `PixelOps`: the sample type `Byte` (one entry of a
  raw 8-bit buffer), the operators as the datatype `Rule`, the method name
  dispatch `ParseMethod`, the per-pixel formulas `FusePixel`, the byte-buffer
  store `ToUint8`, and lemmas about the operators (range, laplace selection,
  the average aliases, symmetry, self-fusion, ordering, identities).
- `fusion.dfy`, module `Fusion`: `TargetSize`, the specification of the fused
  buffer (`StoredPixel`, `FusedPrefix`, `Fused`), the imperative `Fuse`
  method that allocates a zero-filled array and fills it in a `while` loop,
  and lemmas about the whole buffer (per-index contents, locality, symmetry,
  fusing a buffer with itself).

Arithmetic notes. Every division in the operators has divisor 2 or 255 and a
non-negative dividend; for a positive divisor Dafny's `/` is the floor of the
quotient, which is what `Math.floor(x / d)` computes. Storing a number into a
byte buffer reduces it modulo 2^8 (`ToUint8`); the model proves that no
operator ever produces a value that this reduction changes.

Reading past the end of the second buffer gives `undefined` in the source;
every operator then yields NaN or `undefined` (laplace returns `data2[i]`
itself), and a byte buffer stores either as 0. The
model keeps that behaviour (`StoredPixel`) instead of requiring equal
lengths, since the source does not check them. The output is always exactly
as long as the first buffer.

The code raises no dimension or decode errors of its own (a shorter second
buffer yields zeros, as above), and among the per-pixel operators the only
clamp is the `min(255, …)` in multiply, which never takes effect (`PixelOps.MultiplyNeverClamps`).

## Model

| member | source | states |
|---|---|---|
| `PixelOps.ParseMethod` | server/fusion.js:34-99 | `'pca'` selects the PCA branch, `'laplace'` the laplace loop, `'avg'` and `'average'` the average case, each of `'min'`, `'max'`, `'absdiff'`, `'multiply'`, `'screen'` its own case, and exactly the names outside the recognised set reach the `default` arm |
| `PixelOps.FusePixel` | server/fusion.js:37-99 | every operator, for samples in [0,255], yields a value in [0,255] |
| `PixelOps.ScaledProductInRange` | server/fusion.js:93-96 | `x*y/255` lies between 0 and the smaller of the two samples, so multiply and screen stay in range |
| `PixelOps.ToUint8` | server/fusion.js:81-99 | the byte store leaves a value in [0,255] unchanged and otherwise keeps it modulo 256 |
| `PixelOps.StoreNeverWraps` | server/fusion.js:36-101 | storing an operator's result into the byte buffer never changes it |
| `PixelOps.LaplaceSelects` | server/fusion.js:37 | laplace returns one of its inputs: `a` when `a` is strictly farther from 128, otherwise `b`; the result has the larger contrast of the two |
| `PixelOps.LaplaceNotSymmetric` | server/fusion.js:37 | on a contrast tie (100 and 156) laplace keeps the second input, so swapping inputs changes the result |
| `PixelOps.AverageAliases` | server/fusion.js:79-99 | `'avg'`, `'average'` and any unrecognised name all fuse to `floor((a+b)/2)` |
| `PixelOps.Symmetric` | server/fusion.js:81-96 | average, min, max, absdiff, multiply, screen and the fallback are symmetric in `a` and `b` |
| `PixelOps.SelfFusion` | server/fusion.js:37-90 | fusing a sample with itself gives it back under average, min, max, laplace and the fallback, and 0 under absdiff |
| `PixelOps.MultiplyDarkens` | server/fusion.js:84-93 | multiply is never brighter than min, so its `min(255, …)` never clips |
| `PixelOps.MultiplyNeverClamps` | server/fusion.js:93 | multiply's `min(255, …)` never clips: the result is `floor(a*b/255)` |
| `PixelOps.ScreenLightens` | server/fusion.js:87-96 | screen is never darker than max |
| `PixelOps.BetweenMinAndMax` | server/fusion.js:37-87 | average and laplace each lie between min and max |
| `PixelOps.Identities` | server/fusion.js:93-96 | 255 is the identity of multiply and 0 that of screen; 0 absorbs multiply and 255 absorbs screen |
| `Fusion.TargetSize` | server/fusion.js:14-15 | target width and height are each no greater than either input's and equal to one of them |
| `Fusion.TargetSizeProperties` | server/fusion.js:14-15 | the target size is independent of input order and is the smaller image's size when one fits inside the other |
| `Fusion.StoredPixel` | server/fusion.js:77-101 | the stored value at index `i` is the operator on `data1[i]` and `data2[i]`, or 0 past the end of `data2` |
| `Fusion.FusedPrefix` | server/fusion.js:36-101 | after `n` iterations exactly `n` entries have been written |
| `Fusion.Fused` | server/fusion.js:32 | the fused buffer is exactly as long as the first input |
| `Fusion.FusedPrefixAt` | server/fusion.js:77-101 | entry `k` of any prefix is the stored value computed from index `k` |
| `Fusion.FusedAt` | server/fusion.js:36-101 | every entry of the fused buffer is the operator on the inputs at the same index |
| `Fusion.Locality` | server/fusion.js:77-101 | output entry `k` depends only on input entries `k`: inputs agreeing there give outputs agreeing there |
| `Fusion.FusedLaplace` | server/fusion.js:34-39 | at every index inside both inputs, laplace keeps the sample farther from mid-gray, the second one on a tie |
| `Fusion.FusedSymmetric` | server/fusion.js:76-102 | swapping two equally long inputs leaves the output of every non-laplace operator unchanged |
| `Fusion.FusedWithItself` | server/fusion.js:79-90 | fusing a buffer with itself returns it under average, min, max, laplace and the fallback, and all zeros under absdiff |
| `Fusion.Fuse` | server/fusion.js:32-102 | returns a fresh array as long as `data1` whose contents are exactly `Fused(rule, data1, data2)` |
| `Fusion.FuseByName` | server/fusion.js:76-101 | for a non-PCA name, a fresh buffer equal to `Fused` under the operator the name selects; for `'avg'`, `'average'` and unrecognised names every index inside both inputs holds `floor((a+b)/2)` |

## Left out

- Image decoding, resizing, grayscale conversion and PNG encoding (server/fusion.js:11-27, 104-110) are calls into the `sharp` image library; the model starts from the two raw grayscale buffers and stops at the fused buffer. That the buffer length equals width times height is the library's concern.
- The PCA branch (server/fusion.js:41-74) is floating-point and delegates the eigen-decomposition to `ml-matrix`; `ParseMethod` routes `'pca'` to it, but `Fuse` and `FuseByName` cover only the per-pixel operators.
- The metrics (mean, variance, standard deviation, skewness; server/fusion.js:113-134) are floating-point and mostly delegated to `simple-statistics`.
- `generatePDFReport` (server/fusion.js:146-327) is file-system and PDF rendering work.
- server/app.js (HTTP routing, uploads, file storage, the cached last result) and client/script.js (page handling and requests) are not part of this model.
- A method value that is not a string (the source compares with `===`) is not modelled; it would reach the `default` arm like any unrecognised name.
