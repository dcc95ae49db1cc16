/** Properties of the erosion and dilation of module Morphology: the degenerate kernels,
    anti-extensivity and extensivity when the kernel centre is set, shrinking and growing over
    iterations, duality under complement and the constant fixed points. */
module Properties {
  import opened Images
  import opened Padding
  import opened Morphology

  // ---------------------------------------------------------------------------------------
  // Kernel sums

  /** The default kernel is 3x3 of ones: binary, with its centre set and a sum of 9. */
  lemma DefaultKernelShape()
    ensures DefaultKernel().IsBinary() && CentreSet(DefaultKernel())
    ensures CellSum(DefaultKernel().cells) == MaskCount(DefaultKernel().cells) == 9
  {
    var k := DefaultKernel();
    assert RowOnes([1, 1, 1]) == 3 by {
      assert [1, 1, 1][1..] == [1, 1] && [1, 1][1..] == [1] && [1][1..] == [];
    }
    assert k.cells[1..] == [[1, 1, 1], [1, 1, 1]] && k.cells[1..][1..] == [[1, 1, 1]] && k.cells[1..][1..][1..] == [];
  }

  // ---------------------------------------------------------------------------------------
  // Degenerate kernels

  /** A kernel with no cell equal to 1 whose sum is 0 (an all-zero kernel, say) erodes every
      pixel to foreground: the test compares two empty arrays. */
  lemma ErodeEmptyMask(g: Grid, k: Grid)
    requires Fits(g, k) && MaskCount(k.cells) == 0 && CellSum(k.cells) == 0
    ensures ErodeStep(g, k) == Constant(g.height, g.width, 1)
  {
    forall i, j | 0 <= i < g.height && 0 <= j < g.width
      ensures ErodeStep(g, k).cells[i][j] == 1
    {
      ErodeStepAt(g, k, i, j);
    }
    Extensionality(ErodeStep(g, k), Constant(g.height, g.width, 1));
  }

  /** A kernel with a non-negative sum that differs from its number of cells equal to 1 (it
      holds a value other than 0 and 1) erodes every pixel to background: the compared arrays
      differ in length. (With a negative sum `np.ones` raises instead; see `Engine.Erode`.) */
  lemma ErodeSumMismatch(g: Grid, k: Grid)
    requires Fits(g, k) && CellSum(k.cells) >= 0 && MaskCount(k.cells) != CellSum(k.cells)
    ensures ErodeStep(g, k) == Constant(g.height, g.width, 0)
  {
    forall i, j | 0 <= i < g.height && 0 <= j < g.width
      ensures ErodeStep(g, k).cells[i][j] == 0
    {
      ErodeStepAt(g, k, i, j);
    }
    Extensionality(ErodeStep(g, k), Constant(g.height, g.width, 0));
  }

  /** A kernel with no cell equal to 1 dilates every pixel to background. */
  lemma DilateEmptyMask(g: Grid, k: Grid)
    requires Fits(g, k) && MaskCount(k.cells) == 0
    ensures DilateStep(g, k) == Constant(g.height, g.width, 0)
  {
    forall i, j | 0 <= i < g.height && 0 <= j < g.width
      ensures DilateStep(g, k).cells[i][j] == 0
    {
      DilateStepAt(g, k, i, j);
    }
    Extensionality(DilateStep(g, k), Constant(g.height, g.width, 0));
  }

  // ---------------------------------------------------------------------------------------
  // Anti-extensivity and extensivity

  /** With the centre cell set, a pass of erosion never turns background into foreground:
      the centre of the window at (i, j) is input pixel (i, j). */
  lemma ErodeStepAntiExtensive(g: Grid, k: Grid)
    requires Fits(g, k) && CentreSet(k)
    ensures Within(ErodeStep(g, k), g)
  {
    var p := PadFor(g, k);
    forall i, j | 0 <= i < g.height && 0 <= j < g.width && IsForeground(ErodeStep(g, k), i, j)
      ensures IsForeground(g, i, j)
    {
      ErodeStepAt(g, k, i, j);
      assert p.cells[i + k.height / 2][j + k.width / 2] == g.cells[i][j];
    }
  }

  /** With the centre cell set, a pass of dilation never turns foreground into background. */
  lemma DilateStepExtensive(g: Grid, k: Grid)
    requires Fits(g, k) && CentreSet(k)
    ensures Within(g, DilateStep(g, k))
  {
    var p := PadFor(g, k);
    forall i, j | 0 <= i < g.height && 0 <= j < g.width && IsForeground(g, i, j)
      ensures IsForeground(DilateStep(g, k), i, j)
    {
      var a, b := k.height / 2, k.width / 2;
      assert p.cells[i + a][j + b] == g.cells[i][j];
      assert k.cells[a][b] == 1;
      DilateStepAt(g, k, i, j);
    }
  }

  /** Erosion with the centre set never grows the foreground, over any number of iterations. */
  lemma {:induction false} ErodeNAntiExtensive(g: Grid, k: Grid, n: int)
    requires g.Valid() && k.Valid() && CentreSet(k) && (n >= 1 ==> Fits(g, k))
    ensures Within(ErodeN(g, k, n), g)
    decreases n
  {
    if n >= 1 {
      ErodeNAntiExtensive(g, k, n - 1);
      ErodeNInduct(g, k, n);
    } else {
      assert ErodeN(g, k, n) == g;
      WithinReflexive(g);
    }
  }

  lemma ErodeNInduct(g: Grid, k: Grid, n: int)
    requires Fits(g, k) && CentreSet(k) && n >= 1 && Within(ErodeN(g, k, n - 1), g)
    ensures Within(ErodeN(g, k, n), g)
  {
    ErodeNShrinks(g, k, n - 1);
    WithinTransitive(ErodeN(g, k, n), ErodeN(g, k, n - 1), g);
  }

  /** Dilation with the centre set never shrinks the foreground, over any number of iterations. */
  lemma {:induction false} DilateNExtensive(g: Grid, k: Grid, n: int)
    requires g.Valid() && k.Valid() && CentreSet(k) && (n >= 1 ==> Fits(g, k))
    ensures Within(g, DilateN(g, k, n))
    decreases n
  {
    if n >= 1 {
      DilateNExtensive(g, k, n - 1);
      DilateNInduct(g, k, n);
    } else {
      assert DilateN(g, k, n) == g;
      WithinReflexive(g);
    }
  }

  lemma DilateNInduct(g: Grid, k: Grid, n: int)
    requires Fits(g, k) && CentreSet(k) && n >= 1 && Within(g, DilateN(g, k, n - 1))
    ensures Within(g, DilateN(g, k, n))
  {
    DilateNGrows(g, k, n - 1);
    WithinTransitive(g, DilateN(g, k, n - 1), DilateN(g, k, n));
  }

  /** One more erosion pass never adds foreground. */
  lemma ErodeNShrinks(g: Grid, k: Grid, n: int)
    requires Fits(g, k) && CentreSet(k)
    ensures Within(ErodeN(g, k, n + 1), ErodeN(g, k, n))
  {
    if n >= 0 {
      ErodeStepAntiExtensive(ErodeN(g, k, n), k);
    }
  }

  /** One more dilation pass never removes foreground. */
  lemma DilateNGrows(g: Grid, k: Grid, n: int)
    requires Fits(g, k) && CentreSet(k)
    ensures Within(DilateN(g, k, n), DilateN(g, k, n + 1))
  {
    if n >= 0 {
      DilateStepExtensive(DilateN(g, k, n), k);
    }
  }

  /** `vpx_erode` with the centre set: a pixel is 255 in the result only where the input is
      positive ("reduce objetos blancos"). */
  lemma ErodeImageShrinks(image: Grid, k: Grid, iterations: int)
    requires image.Valid() && k.Valid() && CentreSet(k) && (iterations >= 1 ==> Fits(image, k))
    ensures forall i, j :: 0 <= i < image.height && 0 <= j < image.width && ErodeImage(image, k, iterations).cells[i][j] == 255 ==>
      image.cells[i][j] > 0
  {
    var b := Binarize(image);
    var e := ErodeN(b, k, iterations);
    ErodeNAntiExtensive(b, k, iterations);
    forall i, j | 0 <= i < image.height && 0 <= j < image.width && ErodeImage(image, k, iterations).cells[i][j] == 255
      ensures image.cells[i][j] > 0
    {
      assert IsForeground(e, i, j);
      assert IsForeground(b, i, j);
    }
  }

  /** `vpx_dilate` with the centre set: every positive input pixel is 255 in the result
      ("expande objetos blancos"). */
  lemma DilateImageGrows(image: Grid, k: Grid, iterations: int)
    requires image.Valid() && k.Valid() && CentreSet(k) && (iterations >= 1 ==> Fits(image, k))
    ensures forall i, j :: 0 <= i < image.height && 0 <= j < image.width && image.cells[i][j] > 0 ==>
      DilateImage(image, k, iterations).cells[i][j] == 255
  {
    var b := Binarize(image);
    var e := DilateN(b, k, iterations);
    DilateNExtensive(b, k, iterations);
    forall i, j | 0 <= i < image.height && 0 <= j < image.width && image.cells[i][j] > 0
      ensures DilateImage(image, k, iterations).cells[i][j] == 255
    {
      assert IsForeground(b, i, j);
      assert IsForeground(e, i, j);
    }
  }

  // ---------------------------------------------------------------------------------------
  // Duality and fixed points

  /** For a 0/1 kernel, one erosion pass of the complement is the complement of one dilation
      pass: reflect padding commutes with complement, and "every masked sample is 1" of the
      complement is "no masked sample is nonzero" of the image. */
  lemma ErodeDilateDuality(g: Grid, k: Grid)
    requires Fits(g, k) && g.IsBinary() && k.IsBinary()
    ensures ErodeStep(Complement(g), k) == Complement(DilateStep(g, k))
  {
    var c := Complement(g);
    var ph, pw := k.height / 2, k.width / 2;
    PadComplement(g, ph, pw);
    var pc, pg := PadFor(c, k), PadFor(g, k);
    forall i, j | 0 <= i < g.height && 0 <= j < g.width
      ensures ErodeStep(c, k).cells[i][j] == Complement(DilateStep(g, k)).cells[i][j]
    {
      ErodeStepAt(c, k, i, j);
      DilateStepAt(g, k, i, j);
    }
    Extensionality(ErodeStep(c, k), Complement(DilateStep(g, k)));
  }

  /** Duality carries over to any number of iterations. */
  lemma {:induction false} ErodeDilateDualityN(g: Grid, k: Grid, n: int)
    requires Fits(g, k) && g.IsBinary() && k.IsBinary()
    ensures ErodeN(Complement(g), k, n) == Complement(DilateN(g, k, n))
    decreases n
  {
    if n >= 1 {
      ErodeDilateDualityN(g, k, n - 1);
      ErodeDilateDuality(DilateN(g, k, n - 1), k);
    }
  }

  /** The converse duality: one dilation pass of the complement is the complement of one
      erosion pass, since complement is an involution. */
  lemma DilateErodeDuality(g: Grid, k: Grid)
    requires Fits(g, k) && g.IsBinary() && k.IsBinary()
    ensures DilateStep(Complement(g), k) == Complement(ErodeStep(g, k))
  {
    var c := Complement(g);
    ErodeDilateDuality(c, k);
    ComplementComplement(g);
    ComplementComplement(DilateStep(c, k));
  }

  /** The converse duality over any number of iterations. */
  lemma DilateErodeDualityN(g: Grid, k: Grid, n: int)
    requires Fits(g, k) && g.IsBinary() && k.IsBinary()
    ensures DilateN(Complement(g), k, n) == Complement(ErodeN(g, k, n))
  {
    var c := Complement(g);
    ErodeDilateDualityN(c, k, n);
    ComplementComplement(g);
    ComplementComplement(DilateN(c, k, n));
  }

  /** For a 0/1 kernel, an all-foreground image is a fixed point of an erosion pass: reflect
      padding brings in no background. */
  lemma ErodeKeepsFull(k: Grid, height: nat, width: nat)
    requires Fits(Constant(height, width, 1), k) && k.IsBinary()
    ensures ErodeStep(Constant(height, width, 1), k) == Constant(height, width, 1)
  {
    var g := Constant(height, width, 1);
    var p := PadFor(g, k);
    forall x, y | 0 <= x < p.height && 0 <= y < p.width
      ensures p.cells[x][y] == 1
    {
      assert p.cells[x][y] == g.cells[ReflectIndex(x, k.height / 2, height)][ReflectIndex(y, k.width / 2, width)];
    }
    forall i, j | 0 <= i < height && 0 <= j < width
      ensures ErodeStep(g, k).cells[i][j] == 1
    {
      ErodeStepAt(g, k, i, j);
    }
    Extensionality(ErodeStep(g, k), g);
  }

  /** An all-background image is a fixed point of a dilation pass. */
  lemma DilateKeepsEmpty(k: Grid, height: nat, width: nat)
    requires Fits(Constant(height, width, 0), k)
    ensures DilateStep(Constant(height, width, 0), k) == Constant(height, width, 0)
  {
    var g := Constant(height, width, 0);
    var p := PadFor(g, k);
    forall x, y | 0 <= x < p.height && 0 <= y < p.width
      ensures p.cells[x][y] == 0
    {
      assert p.cells[x][y] == g.cells[ReflectIndex(x, k.height / 2, height)][ReflectIndex(y, k.width / 2, width)];
    }
    forall i, j | 0 <= i < height && 0 <= j < width
      ensures DilateStep(g, k).cells[i][j] == 0
    {
      DilateStepAt(g, k, i, j);
    }
    Extensionality(DilateStep(g, k), g);
  }

  /** All-foreground stays all-foreground under any number of erosion passes. */
  lemma {:induction false} ErodeNKeepsFull(k: Grid, height: nat, width: nat, n: int)
    requires Fits(Constant(height, width, 1), k) && k.IsBinary()
    ensures ErodeN(Constant(height, width, 1), k, n) == Constant(height, width, 1)
    decreases n
  {
    if n >= 1 {
      ErodeNKeepsFull(k, height, width, n - 1);
      ErodeKeepsFull(k, height, width);
    }
  }

  /** All-background stays all-background under any number of dilation passes. */
  lemma {:induction false} DilateNKeepsEmpty(k: Grid, height: nat, width: nat, n: int)
    requires Fits(Constant(height, width, 0), k)
    ensures DilateN(Constant(height, width, 0), k, n) == Constant(height, width, 0)
    decreases n
  {
    if n >= 1 {
      DilateNKeepsEmpty(k, height, width, n - 1);
      DilateKeepsEmpty(k, height, width);
    }
  }
}
