# Panorama core in Dafny

This project models the exact, discrete core of a two-image panorama program
(`Panorama_Initial/Panorama.cpp`). The program estimates a homography H from
clicked point correspondences. It then stitches the two images onto one canvas.
The model covers three parts:

- **Homography estimation** (`getHomography`), in module `Homography`.
  - The number of correspondences used is `n = min(|pts1|, |pts2|)`.
  - With `n < 4` the result is the identity.
  - Otherwise a `2n × 8` integer matrix A and a `2n` vector B are filled
    entry by entry (`AssembleSystem`).
  - The solver's 8-vector h becomes `H = [[h0,h1,h2],[h3,h4,h5],[h6,h7,1]]`.
  - The sanity check computes, for every correspondence, the cross product of
    `H·[x1,y1,1]` with `[x2,y2,1]`.
  - The key lemma, `ExactIffZeroResiduals`, proves that h solves `A·h = B`
    exactly over the reals if and only if every one of these residuals is
    the zero vector.
- **Bounding box** (`growTo` and its use in `panorama`), in module `BoundingBox`.
  - `GrowTo` moves each bound outward just enough to take in a point. The
    result is the least box around the old box and the point.
  - `CanvasBounds` starts from image 2's frame `(0, 0, w2, h2)` and grows it
    by the four corners of image 1 mapped through H.
  - The result is the least box that covers both (`IsCanvasBox`). With
    `H = identity` it is exactly the union of the two frames.
- **Canvas fill and blend** (the pixel loop of `panorama`), in module
  `Compositing`.
  - A white canvas of `int(x1-x0) × int(y1-y0)` pixels is filled by a nested
    loop over `int(x0) ≤ x < int(x1)` and `int(y0) ≤ y < int(y1)`.
  - Each pixel takes one of four outcomes:
    - the byte-wise blend `c1/2 + c2/2`, which never exceeds 254;
    - image 1's sample alone;
    - image 2's sample alone;
    - nothing, so the pixel stays white.
  - `Fill` and `Panorama` state the colour of every canvas pixel afterwards.
  - The loop writes `int(x1) - int(x0)` columns of a canvas `int(x1 - x0)`
    wide. `CanvasSlack` proves the canvas is at most one column wider. It is
    exactly one wider when the fractional parts of `x1` and `-x0` add up to
    at least 1, and then the last column stays white. The same holds for
    rows. `FractionalEdgesLeaveWhiteColumn` shows one such box:
    `x0 = -0.5`, `x1 = 10.5`.

Module `Geometry` holds the 3-vectors, 3×3 matrices, the matrix-vector product
and the cross product that these parts share. Floats are modelled as `real`.
The C++ conversion `int(...)` is `Trunc`, which rounds toward zero. Coordinates
are `int`. Colours are triples of a `byte` newtype.

Behaviour of the program worth knowing:

- With fewer than four correspondences it returns the identity matrix rather
  than an error.
- The canvas is `int(x1 - x0)` wide.
- The blend truncates each channel (`c1/2 + c2/2`).

## Model

| member | source | states |
|---|---|---|
| Homography.Count | Panorama_Initial/Panorama.cpp:54 | the number of pairs used is the length of the shorter list: at most both lengths and equal to one of them |
| Homography.AssembleSystem | Panorama_Initial/Panorama.cpp:60-101 | A has exactly 2n rows and 8 columns and B has 2n entries; every entry of A is written, row 2i is `[x1, y1, 1, 0, 0, 0, -x1*x2, -x2*y1]` and row 2i+1 is `[0, 0, 0, x1, y1, 1, -x1*y2, -y2*y1]`, with `B[2i] = x2`, `B[2i+1] = y2` for pair i |
| Homography.WriteXRow | Panorama_Initial/Panorama.cpp:81-88 | writes the eight entries of an x-equation row and leaves every other row unchanged |
| Homography.WriteYRow | Panorama_Initial/Panorama.cpp:90-97 | writes the eight entries of a y-equation row and leaves every other row unchanged |
| Homography.FirstPairsOnly | Panorama_Initial/Panorama.cpp:54-79 | only the first n pairs are read: truncating both lists to n changes neither A nor B |
| Homography.IdentityMatrix | Panorama_Initial/Panorama.cpp:55-58 | with too few correspondences H is the 3×3 identity |
| Homography.LayOut | Panorama_Initial/Panorama.cpp:104-107 | H is the solver's 8-vector laid out row-major with `H[2][2] = 1` |
| Homography.SanityCheck | Panorama_Initial/Panorama.cpp:109-119 | returns one residual per used pair, in order: `H·[x1,y1,1]` crossed with `[x2,y2,1]` |
| Homography.CorrespondenceResidual | Panorama_Initial/Panorama.cpp:81-119 | the two equations of one pair hold at h exactly when that pair's sanity-check residual is zero |
| Homography.ExactIffZeroResiduals | Panorama_Initial/Panorama.cpp:103-119 | h solves `A·h = B` exactly over the reals if and only if every residual of the sanity check is the zero vector |
| Homography.GetHomography | Panorama_Initial/Panorama.cpp:52-121 | H is a new 3×3 array with `H[2][2] = 1`; with n < 4 it is the identity and no residuals are returned; otherwise it is h laid out row-major, the residuals are those of every used pair, and they all vanish exactly when the solver's answer is exact |
| Geometry.Cross | Panorama_Initial/Panorama.cpp:116-118 | the residual vector is orthogonal to both of its factors |
| Geometry.CrossZeroIffProportional | Panorama_Initial/Panorama.cpp:116-118 | a vector crossed with `[x, y, 1]` is zero exactly when it is that pixel scaled by its third component |
| BoundingBox.GrowTo | Panorama_Initial/Panorama.cpp:124-129 | afterwards the point lies inside; every bound only moves outward; the result is the least box around the old box and the point; a point already inside changes nothing, so the call is idempotent |
| BoundingBox.ProjectPoint | Panorama_Initial/Panorama.cpp:137-138 | `v = H*v; v /= v[2]` yields the dehomogenised image of the pixel under H, given a nonzero third component |
| BoundingBox.CanvasBounds | Panorama_Initial/Panorama.cpp:134-151 | the box is the least one enclosing image 2's frame and the four projected corners of image 1; in particular `x0 <= 0`, `y0 <= 0`, `x1 >= w2`, `y1 >= h2` |
| BoundingBox.CanvasBoxUnique | Panorama_Initial/Panorama.cpp:134-151 | the canvas box is determined by H and the two image sizes |
| BoundingBox.IdentityCanvasIsUnion | Panorama_Initial/Panorama.cpp:134-151 | with H the identity the canvas box is exactly the union of the two images' frames |
| Compositing.Trunc | Panorama_Initial/Panorama.cpp:186-187 | `int(r)` is the integer part of r, rounding toward zero on both sides of 0 |
| Compositing.CanvasOffset | Panorama_Initial/Panorama.cpp:196 | the write position `int(x - x0)` equals `x - int(x0)` for the pixels the loop visits |
| Compositing.LoopFitsCanvas | Panorama_Initial/Panorama.cpp:155-169 | the loop range `int(x0) .. int(x1)` is no wider than the canvas `int(x1 - x0)`, so every write is in bounds |
| Compositing.CanvasSlack | Panorama_Initial/Panorama.cpp:155-169 | the canvas `int(x1 - x0)` exceeds the loop range `int(x1) - int(x0)` by 0 or 1, and by 1 exactly when the cut-off fractional parts of `x1` and `-x0` sum to at least 1 |
| Compositing.FractionalEdgesLeaveWhiteColumn | Panorama_Initial/Panorama.cpp:155-169 | for the box from `x0 = -0.5` to `x1 = 10.5` the canvas is 11 columns wide, the loop writes 10, and column 10 stays white |
| Compositing.HalfSum | Panorama_Initial/Panorama.cpp:196 | one channel of `c1/2 + c2/2` never wraps, is at most 254, and is the channel mean rounded down or one below it |
| Compositing.Average | Panorama_Initial/Panorama.cpp:196 | each channel of the blended colour is at most 254 |
| Compositing.Sample | Panorama_Initial/Panorama.cpp:175-192 | a sample exists exactly when `0 <= x < width` and `0 <= y < height`, and then it is the image's colour there |
| Compositing.Blend | Panorama_Initial/Panorama.cpp:195-201 | two valid samples give their average; with one valid image its sample passes through unchanged; nothing is written exactly when neither image is valid |
| Compositing.CompositePixel | Panorama_Initial/Panorama.cpp:171-201 | one iteration writes the blend, the single sample or nothing at `(x - int(x0), y - int(y0))` and touches no other canvas pixel |
| Compositing.Fill | Panorama_Initial/Panorama.cpp:157-203 | on a white canvas, the nested loop leaves every pixel equal to `CanvasPixel` of its position: the outcome of its source pixel, or white where nothing was written |
| Compositing.Panorama | Panorama_Initial/Panorama.cpp:132-205 | the box is the least cover of both images, the canvas is `int(x1-x0) × int(y1-y0)` and every pixel is as `Fill` states |
| Compositing.Image2OnCanvas | Panorama_Initial/Panorama.cpp:167-201 | every pixel of image 2 lands inside the canvas and ends as its own colour, or blended with image 1's sample where the back-mapped position is in image 1 |
| Compositing.SameFrameAverages | Panorama_Initial/Panorama.cpp:194-196 | when the back-mapping leaves a pixel in place and it lies in both images, its canvas colour is the average of the two |

## Left out

- `getClicks` (lines 18-49) is not modelled. It is the interactive mouse loop, so the click lists are parameters.
- `main` (lines 208-246) is not modelled. It loads files, opens windows and prints.
- `openWindow`, `display` and the `cout` diagnostics are output only. The printed residuals are returned as a sequence instead.
- `linSolve` is not part of this model. It is the parameter `solve`, and its 8-entry result is a precondition. Least-squares behaviour for n > 4 is not modelled: `ExactIffZeroResiduals` covers whatever h the solver returns.
- `inverse(H)`, the division by `v[2]` and the truncation `int(v[0])`, `int(v[1])` at lines 184-187 are not part of this model. Together they are the parameter `backMap: (int, int) -> (int, int)`. The back-mapping's own division by zero is therefore not modelled.
- GetHomography: `H` is a `Matrix<float>` filled from doubles in the source. The model keeps the solver's values exactly and does not model float or double rounding.
- AssembleSystem: the products `-x1*x2` and so on are 32-bit `int` products in the source. The model uses unbounded integers, because clicked pixel coordinates are far below the overflow range.
- CanvasBounds: the source does not guard the division by `v[2]` at lines 138-150. The model requires the four corners' third components to be nonzero.
- Corner projection: float rounding of the projected corners is not modelled. The growth itself uses only comparisons and assignments, so it is exact.
