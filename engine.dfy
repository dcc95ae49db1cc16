/** `vpx_erode` and `vpx_dilate` as they run: NumPy arrays are `array2<int>`, each pass
    allocates a zero output buffer and fills it in a double loop over the pixels, and the
    result of one pass is the input of the next. Neither method has a `modifies` clause, so
    the caller's image and kernel are never written. */
module Engine {
  import opened Images
  import opened Morphology

  /** The samples of a 2-D array, as a grid. */
  function Contents(a: array2<int>): (g: Grid)
    reads a
    ensures g.Valid() && g.height == a.Length0 && g.width == a.Length1
    ensures forall i, j :: 0 <= i < a.Length0 && 0 <= j < a.Length1 ==> g.cells[i][j] == a[i, j]
  {
    Grid(a.Length0, a.Length1,
      seq(a.Length0, i requires 0 <= i < a.Length0 reads a =>
        seq(a.Length1, j requires 0 <= j < a.Length1 reads a => a[i, j])))
  }

  /** The kernel a call uses: the caller's, or the 3x3 kernel of ones when `kernel is None`. */
  ghost function KernelOf(kernel: array2?<int>): (k: Grid)
    reads kernel
    ensures k.Valid()
  {
    if kernel == null then DefaultKernel() else Contents(kernel)
  }

  /** How `vpx_erode` can end: with the 0/255 image, or with the `ValueError` NumPy raises for
      `np.ones` of a negative length, at the first window of the first pass, when the kernel's
      sum is negative. */
  datatype Outcome = Done(image: array2<int>) | NegativeDimensions

  /** `kernel = np.ones((3, 3))`. */
  method DefaultKernelArray() returns (kernel: array2<int>)
    ensures fresh(kernel) && Contents(kernel) == DefaultKernel()
  {
    kernel := new int[3, 3]((_, _) => 1);
    var k := DefaultKernel();
    assert forall i, j :: 0 <= i < 3 && 0 <= j < 3 ==> k.cells[i][j] == 1 by {
      assert k.cells == [[1, 1, 1], [1, 1, 1], [1, 1, 1]];
    }
    Extensionality(Contents(kernel), k);
  }

  /** `if kernel is None: kernel = np.ones((3, 3))`. */
  method ResolveKernel(kernel: array2?<int>) returns (k: array2<int>)
    ensures kernel != null ==> k == kernel
    ensures kernel == null ==> fresh(k)
    ensures Contents(k) == KernelOf(kernel)
  {
    if kernel == null {
      k := DefaultKernelArray();
    } else {
      k := kernel;
    }
  }

  /** `(image > 0).astype(np.uint8)`, into a fresh array. */
  method BinarizeArray(image: array2<int>) returns (img: array2<int>)
    ensures fresh(img) && Contents(img) == Binarize(Contents(image))
  {
    var h, w := image.Length0, image.Length1;
    img := new int[h, w]((i, j) reads image requires 0 <= i < h && 0 <= j < w =>
      if image[i, j] > 0 then 1 else 0);
    Extensionality(Contents(img), Binarize(Contents(image)));
  }

  /** `img * 255`, into a fresh array. */
  method ScaleArray(img: array2<int>) returns (out: array2<int>)
    requires Contents(img).IsBinary()
    ensures fresh(out) && Contents(out) == Scale(Contents(img))
  {
    var h, w := img.Length0, img.Length1;
    out := new int[h, w]((i, j) reads img requires 0 <= i < h && 0 <= j < w => img[i, j] * 255);
    Extensionality(Contents(out), Scale(Contents(img)));
  }

  /** The double loop of a pass: allocate `np.zeros_like(img)` and set `output[i, j] = 1` for
      every pixel whose window passes the pass's test `hit`. */
  method Sweep(h: nat, w: nat, hit: (nat, nat) --> bool) returns (output: array2<int>)
    requires forall i: nat, j: nat :: i < h && j < w ==> hit.requires(i, j)
    ensures fresh(output) && output.Length0 == h && output.Length1 == w
    ensures forall i, j :: 0 <= i < h && 0 <= j < w ==> output[i, j] == if hit(i, j) then 1 else 0
  {
    output := new int[h, w]((_, _) => 0);
    for i := 0 to h
      invariant forall r, c :: 0 <= r < i && 0 <= c < w ==> output[r, c] == if hit(r, c) then 1 else 0
      invariant forall r, c :: i <= r < h && 0 <= c < w ==> output[r, c] == 0
    {
      for j := 0 to w
        invariant forall r, c :: 0 <= r < i && 0 <= c < w ==> output[r, c] == if hit(r, c) then 1 else 0
        invariant forall c :: 0 <= c < j ==> output[i, c] == if hit(i, c) then 1 else 0
        invariant forall r, c :: i <= r < h && 0 <= c < w && (r > i || c >= j) ==> output[r, c] == 0
      {
        if hit(i, j) {
          output[i, j] := 1;
        }
      }
    }
  }

  /** One erosion pass: pad, allocate `np.zeros_like(img)`, and set `output[i, j] = 1` where
      the erosion test holds for the window with top-left corner (i, j). */
  method ErodePass(img: array2<int>, kernel: array2<int>) returns (output: array2<int>)
    requires Fits(Contents(img), Contents(kernel))
    ensures fresh(output)
    ensures Contents(output) == ErodeStep(Contents(img), Contents(kernel))
  {
    ghost var src := Contents(img);
    var k := Contents(kernel);
    var padded := PadFor(Contents(img), k);
    var h, w := img.Length0, img.Length1;
    output := Sweep(h, w, (i: nat, j: nat) requires i < h && j < w => AllMatch(padded, k, i, j));
    ghost var want := ErodeStep(src, k);
    forall r, c | 0 <= r < h && 0 <= c < w
      ensures output[r, c] == want.cells[r][c]
    {
      ErodeStepAt(src, k, r, c);
    }
    Extensionality(Contents(output), want);
  }

  /** One dilation pass, with the dilation test. */
  method DilatePass(img: array2<int>, kernel: array2<int>) returns (output: array2<int>)
    requires Fits(Contents(img), Contents(kernel))
    ensures fresh(output)
    ensures Contents(output) == DilateStep(Contents(img), Contents(kernel))
  {
    ghost var src := Contents(img);
    var k := Contents(kernel);
    var padded := PadFor(Contents(img), k);
    var h, w := img.Length0, img.Length1;
    output := Sweep(h, w, (i: nat, j: nat) requires i < h && j < w => AnyMatch(padded, k, i, j));
    ghost var want := DilateStep(src, k);
    forall r, c | 0 <= r < h && 0 <= c < w
      ensures output[r, c] == want.cells[r][c]
    {
      DilateStepAt(src, k, r, c);
    }
    Extensionality(Contents(output), want);
  }

  /** The `for _ in range(iterations)` loop of `vpx_erode`: each pass reads the previous
      pass's output; with `iterations <= 0` the image is returned as it is. */
  method ErodeIterations(image: array2<int>, kernel: array2<int>, iterations: int) returns (img: array2<int>)
    requires iterations >= 1 ==> Fits(Contents(image), Contents(kernel))
    ensures img == image || fresh(img)
    ensures Contents(img) == ErodeN(Contents(image), Contents(kernel), iterations)
  {
    ghost var start, k := Contents(image), Contents(kernel);
    img := image;
    var t := 0;
    while t < iterations
      invariant 0 <= t && (t == 0 || t <= iterations)
      invariant Contents(image) == start && Contents(kernel) == k
      invariant img == image || fresh(img)
      invariant Contents(img) == ErodeN(start, k, t)
    {
      img := ErodePass(img, kernel);
      t := t + 1;
    }
    assert ErodeN(start, k, t) == ErodeN(start, k, iterations);
  }

  /** The `for _ in range(iterations)` loop of `vpx_dilate`. */
  method DilateIterations(image: array2<int>, kernel: array2<int>, iterations: int) returns (img: array2<int>)
    requires iterations >= 1 ==> Fits(Contents(image), Contents(kernel))
    ensures img == image || fresh(img)
    ensures Contents(img) == DilateN(Contents(image), Contents(kernel), iterations)
  {
    ghost var start, k := Contents(image), Contents(kernel);
    img := image;
    var t := 0;
    while t < iterations
      invariant 0 <= t && (t == 0 || t <= iterations)
      invariant Contents(image) == start && Contents(kernel) == k
      invariant img == image || fresh(img)
      invariant Contents(img) == DilateN(start, k, t)
    {
      img := DilatePass(img, kernel);
      t := t + 1;
    }
    assert DilateN(start, k, t) == DilateN(start, k, iterations);
  }

  /** `vpx_erode(image, kernel, iterations)`. */
  method Erode(image: array2<int>, kernel: array2?<int>, iterations: int) returns (result: Outcome)
    requires iterations >= 1 ==> Fits(Contents(image), KernelOf(kernel))
    ensures result.NegativeDimensions? <==> iterations >= 1 && CellSum(KernelOf(kernel).cells) < 0
    ensures result.Done? ==> fresh(result.image)
    ensures result.Done? ==> Contents(result.image) == ErodeImage(Contents(image), KernelOf(kernel), iterations)
  {
    var k := ResolveKernel(kernel);
    if iterations >= 1 && CellSum(Contents(k).cells) < 0 {
      return NegativeDimensions;
    }
    var img := BinarizeArray(image);
    img := ErodeIterations(img, k, iterations);
    var out := ScaleArray(img);
    return Done(out);
  }

  /** `vpx_dilate(image, kernel, iterations)`. */
  method Dilate(image: array2<int>, kernel: array2?<int>, iterations: int) returns (result: array2<int>)
    requires iterations >= 1 ==> Fits(Contents(image), KernelOf(kernel))
    ensures fresh(result)
    ensures Contents(result) == DilateImage(Contents(image), KernelOf(kernel), iterations)
  {
    var k := ResolveKernel(kernel);
    var img := BinarizeArray(image);
    img := DilateIterations(img, k, iterations);
    result := ScaleArray(img);
  }
}
