# Binary morphology engine of vispyx

This project models the hand-written binary morphology of `vispyx/morphology.py` and proves
its properties in Dafny. It has three parts:

- `vpx_pad_image` pads by half the kernel size. It uses NumPy's `mode='reflect'`: the mirror
  is taken about the edge sample, and the edge sample is not repeated.
- `vpx_erode` binarizes the input and applies `iterations` erosion passes. Each pass
  pads the image, allocates a zero output and runs a double loop over the pixels that sets
  an output pixel to 1 when the erosion test holds for its window. The result is scaled to 0/255.
- `vpx_dilate` is the same with the dilation test.

The code is modelled at two levels:

- `Images`, `Padding` and `Morphology` are pure: images are `Grid` values, `Pad` is the
  reflect-index map, and `ErodeStep`/`DilateStep`/`ErodeN`/`DilateN`/`ErodeImage`/`DilateImage`
  say what one pass, `n` passes and the whole call compute.
- `Engine` is imperative: images and kernels are `array2<int>`, a kernel of `None` is a null
  `array2?<int>`, and each pass fills a fresh zero array in nested `for` loops whose invariants
  describe the cells written so far. Every `Engine` method is proved to produce exactly the
  value the pure level gives. No `Engine` method has a `modifies` clause, so the caller's image
  and kernel are never written.
- `Properties` proves what the operators promise about that pure level:
  - the degenerate kernels;
  - erosion only shrinks and dilation only grows the foreground when the kernel centre is set,
    per pass and over iterations;
  - erosion of the complement is the complement of dilation;
  - the all-foreground and all-background images are fixed points.

Two details of the code that the model follows exactly:

- The input is binarized with `image > 0`: positive samples become foreground, and zero and
  negative samples become background.
- The erosion test is `np.array_equal(region[kernel == 1], np.ones(np.sum(kernel)))`. The model
  (`Morphology.AllMatch`) reads it as: the mask's length (`Morphology.MaskCount`, the number of
  kernel cells equal to 1) equals the kernel's sum (`Morphology.CellSum`), and every padded sample
  under a kernel cell equal to 1 is 1. For a 0/1 kernel the two lengths always agree. A kernel
  holding other values behaves differently:
  - if its sum is non-negative and differs from the number of cells equal to 1, every pixel is
    eroded to 0;
  - if its sum is negative, NumPy raises `ValueError` at the first window. `Engine.Erode`
    returns `NegativeDimensions` for this case.

## Model

| member | source | states |
|---|---|---|
| `Padding.ReflectIndex` | vispyx/morphology.py:9 | the input index read by a padded index is in range, and is the index shifted back by the pad width inside the interior |
| `Padding.Pad` | vispyx/morphology.py:3-9 | the padded image has H+2·(kh//2) rows and W+2·(kw//2) columns, and its interior block at offset (kh//2, kw//2) is the input exactly |
| `Padding.PadReflectsRows` | vispyx/morphology.py:9 | padded row ph-d equals padded row ph+d, which is input row d, and padded row ph+H-1+d equals ph+H-1-d, which is input row H-1-d; the edge row is not duplicated |
| `Padding.PadReflectsColumns` | vispyx/morphology.py:9 | the same mirror identity about the left and right edge columns |
| `Padding.PadRowExample` | vispyx/morphology.py:9 | the row 10 20 30 padded by one column is 20 10 20 30 20 |
| `Padding.PadComplement` | vispyx/morphology.py:9 | reflect padding commutes with complement, cell by cell |
| `Images.Binarize` | vispyx/morphology.py:17 | the binarized image has the input's shape, is 0/1, and is 1 exactly where the input is positive |
| `Images.Scale` | vispyx/morphology.py:30 | the scaled image has the same shape, is 0/255, and is 255 exactly where the binary image is 1 |
| `Images.BinarizeScale` | vispyx/morphology.py:30 | binarizing a 0/255 result gives back the binary image it came from |
| `Morphology.DefaultKernel` | vispyx/morphology.py:16 | the kernel used when none is given is 3×3 (its cells are all 1, see `Properties.DefaultKernelShape`) |
| `Morphology.CellSum` | vispyx/morphology.py:26 | `np.sum(kernel)`; for a kernel whose cells are all 0 or 1 it equals the number of cells equal to 1, the length of `region[kernel == 1]` |
| `Morphology.MaskCountZero` | vispyx/morphology.py:26 | `MaskCount`, the length of `region[kernel == 1]`, is 0 exactly when no kernel cell equals 1 |
| `Morphology.AllMatch` | vispyx/morphology.py:26 | the erosion test `np.array_equal(region[kernel == 1], np.ones(np.sum(kernel)))`, read as "MaskCount equals CellSum and every padded sample under a kernel cell equal to 1 is 1"; it can hold only for a non-negative kernel sum, and holds at every window for a kernel with sum 0 and no cell equal to 1 |
| `Morphology.AnyMatch` | vispyx/morphology.py:48 | the dilation test `np.any(region[kernel == 1])`: some padded sample under a kernel cell equal to 1 is nonzero; it can hold only when some kernel cell equals 1 |
| `Morphology.PadFor` | vispyx/morphology.py:19 | the padded image a pass reads is `vpx_pad_image` of the current image, with kh//2 extra rows and kw//2 extra columns on each side, so every kh×kw window whose top-left corner is a pixel fits inside it |
| `Morphology.ErodeStep` | vispyx/morphology.py:19-29 | one erosion pass keeps the image's shape and yields a 0/1 image; its pixels are given by `ErodeStepAt` |
| `Morphology.DilateStep` | vispyx/morphology.py:41-51 | one dilation pass keeps the image's shape and yields a 0/1 image; its pixels are given by `DilateStepAt` |
| `Morphology.ErodeStepAt` | vispyx/morphology.py:23-27 | output pixel (i, j) of an erosion pass is 1 exactly when the kernel's sum equals its number of cells equal to 1 and every padded sample under such a cell in the window at (i, j) is 1 |
| `Morphology.DilateStepAt` | vispyx/morphology.py:45-49 | output pixel (i, j) of a dilation pass is 1 exactly when some padded sample under a kernel cell equal to 1 in the window at (i, j) is nonzero |
| `Morphology.ErodeN` | vispyx/morphology.py:18-29 | iterated erosion keeps the shape, and its result is 0/1 after at least one pass or when the start is 0/1 |
| `Morphology.DilateN` | vispyx/morphology.py:40-51 | iterated dilation keeps the shape, and its result is 0/1 after at least one pass or when the start is 0/1 |
| `Morphology.ErodeImage` | vispyx/morphology.py:17-30 | the erosion result has the input's H×W shape and every pixel is 0 or 255 |
| `Morphology.DilateImage` | vispyx/morphology.py:39-52 | the dilation result has the input's H×W shape and every pixel is 0 or 255 |
| `Engine.DefaultKernelArray` | vispyx/morphology.py:16 | the default kernel is a fresh 3×3 array of ones |
| `Engine.ResolveKernel` | vispyx/morphology.py:15-16 | the caller's kernel is used as it is, and a missing kernel becomes a fresh 3×3 array of ones |
| `Engine.BinarizeArray` | vispyx/morphology.py:17 | a fresh array holding the binarized input |
| `Engine.ScaleArray` | vispyx/morphology.py:30 | a fresh array holding the binary image scaled to 0/255 |
| `Engine.Sweep` | vispyx/morphology.py:20-27 | the double loop leaves a fresh H×W array that is 1 exactly at the pixels whose window passes the test and 0 elsewhere |
| `Engine.ErodePass` | vispyx/morphology.py:19-29 | one erosion pass writes a fresh array equal to `ErodeStep` of the current image |
| `Engine.DilatePass` | vispyx/morphology.py:41-51 | one dilation pass writes a fresh array equal to `DilateStep` of the current image |
| `Engine.ErodeIterations` | vispyx/morphology.py:18-29 | the outer loop leaves the image after `iterations` erosion passes, none when `iterations <= 0` |
| `Engine.DilateIterations` | vispyx/morphology.py:40-51 | the outer loop leaves the image after `iterations` dilation passes, none when `iterations <= 0` |
| `Engine.Erode` | vispyx/morphology.py:11-30 | fails exactly when a pass runs with a kernel of negative sum; otherwise returns a fresh array equal to 255 × (`iterations` erosion passes of the binarized input), using the default kernel when none is given |
| `Engine.Dilate` | vispyx/morphology.py:32-52 | returns a fresh array equal to 255 × (`iterations` dilation passes of the binarized input), using the default kernel when none is given |
| `Properties.DefaultKernelShape` | vispyx/morphology.py:37 | the default kernel is 0/1 with its centre set, and its sum and mask size are both 9 |
| `Properties.ErodeEmptyMask` | vispyx/morphology.py:23-27 | a kernel with no cell equal to 1 and sum 0 erodes every pixel to 1 |
| `Properties.ErodeSumMismatch` | vispyx/morphology.py:26 | a kernel with a non-negative sum that differs from its number of cells equal to 1 erodes every pixel to 0 |
| `Properties.DilateEmptyMask` | vispyx/morphology.py:45-49 | a kernel with no cell equal to 1 dilates every pixel to 0 |
| `Properties.ErodeStepAntiExtensive` | vispyx/morphology.py:12-13 | with the kernel centre set, an erosion pass's foreground is contained in its input's |
| `Properties.DilateStepExtensive` | vispyx/morphology.py:33-34 | with the kernel centre set, a dilation pass's foreground contains its input's |
| `Properties.ErodeNAntiExtensive` | vispyx/morphology.py:18-29 | with the centre set, any number of erosion passes keeps the foreground within the start's |
| `Properties.DilateNExtensive` | vispyx/morphology.py:40-51 | with the centre set, any number of dilation passes keeps the start's foreground |
| `Properties.ErodeNShrinks` | vispyx/morphology.py:29 | with the centre set, each further erosion pass's foreground is within the previous one's |
| `Properties.DilateNGrows` | vispyx/morphology.py:51 | with the centre set, each further dilation pass's foreground contains the previous one's |
| `Properties.ErodeImageShrinks` | vispyx/morphology.py:11-30 | with the centre set, a pixel of the erosion result is 255 only where the input is positive |
| `Properties.DilateImageGrows` | vispyx/morphology.py:32-52 | with the centre set, every positive input pixel is 255 in the dilation result |
| `Properties.ErodeDilateDuality` | vispyx/morphology.py:48 | for a binary image and a 0/1 kernel, an erosion pass of the complement is the complement of a dilation pass |
| `Properties.ErodeDilateDualityN` | vispyx/morphology.py:40-51 | the duality holds for any number of passes |
| `Properties.DilateErodeDuality` | vispyx/morphology.py:26 | for a binary image and a 0/1 kernel, a dilation pass of the complement is the complement of an erosion pass |
| `Properties.DilateErodeDualityN` | vispyx/morphology.py:18-29 | the converse duality holds for any number of passes |
| `Properties.ErodeKeepsFull` | vispyx/morphology.py:26 | for a 0/1 kernel, the all-foreground image is a fixed point of an erosion pass |
| `Properties.DilateKeepsEmpty` | vispyx/morphology.py:47-49 | the all-background image is a fixed point of a dilation pass |
| `Properties.ErodeNKeepsFull` | vispyx/morphology.py:18-27 | the all-foreground image stays all-foreground under any number of erosion passes |
| `Properties.DilateNKeepsEmpty` | vispyx/morphology.py:40-49 | the all-background image stays all-background under any number of dilation passes |

## Left out

- Reflect padding is modelled for a single reflection only: the pad width must be less than the
  axis length (`kh//2 < H`, `kw//2 < W`). NumPy's repeated reflection for wider pads and its
  special case for length-1 axes are excluded by precondition, and so are pads of an empty image.
- `Morphology.ErodeStep` is defined for every kernel. With a negative kernel sum it gives an
  all-0 image, but the source raises `ValueError` at the first window of such a pass. Only
  `Engine.Erode` models the error (as `NegativeDimensions`). `Properties.ErodeStepAntiExtensive`
  and `Properties.ErodeNAntiExtensive` also cover kernels with a negative sum, where they speak
  of that all-0 image rather than of an image the source returns.
- NumPy dtypes are not modelled: samples and kernel cells are unbounded integers. There is no
  `uint8` wrap-around, which cannot change the 0/1 and 0/255 images these functions produce.
  Floating-point kernels and images are left out.
- `Engine.Sweep` is the double loop of both passes, written once: the erosion and the dilation
  pass give it their own window test.
- Dilation has no error outcome, because a kernel with a negative sum makes no difference to
  the dilation test.
- Open, close and gradient are not in `vispyx/morphology.py`. They exist only as scipy wrappers
  in `morph_scipy.py`, whose border handling and iteration semantics live in scipy, so they are
  not part of this model.
- The command-line tool, image file I/O and plotting, CLAHE preprocessing, Otsu segmentation
  and the packaging script are not part of this model: they are I/O or calls into OpenCV,
  scikit-image and matplotlib.
