/** What one pass and what `iterations` passes of `vpx_erode` and `vpx_dilate` compute, as
    functions on grids, and the properties of binary erosion and dilation proved of them. */
module Morphology {
  import opened Images
  import opened Padding

  // ---------------------------------------------------------------------------------------
  // Kernels

  /** `np.ones((3, 3))`, the kernel used when none is given. */
  function DefaultKernel(): (k: Grid)
    ensures k.Valid() && k.height == 3 && k.width == 3
  {
    Grid(3, 3, [[1, 1, 1], [1, 1, 1], [1, 1, 1]])
  }

  /** The kernel cell at the window centre, (kh//2, kw//2), is set. */
  predicate CentreSet(k: Grid)
    requires k.Valid()
  {
    0 < k.height && 0 < k.width && k.cells[k.height / 2][k.width / 2] == 1
  }

  /** The sum of a row; for a 0/1 row, the number of its cells equal to 1. */
  function RowSum(row: seq<int>): (r: int)
    ensures (forall b :: 0 <= b < |row| ==> row[b] == 0 || row[b] == 1) ==> r == RowOnes(row)
  {
    if row == [] then 0
    else
      assert forall b :: 1 <= b < |row| ==> row[1..][b - 1] == row[b];
      row[0] + RowSum(row[1..])
  }

  /** `np.sum(kernel)`: the sum of all kernel cells. For a 0/1 kernel it is the number of cells
      the mask `kernel == 1` selects, so the two arrays the erosion test compares have the same
      length. */
  function CellSum(cells: seq<seq<int>>): (r: int)
    ensures (forall a, b :: 0 <= a < |cells| && 0 <= b < |cells[a]| ==> cells[a][b] == 0 || cells[a][b] == 1) ==>
      r == MaskCount(cells)
  {
    if cells == [] then 0
    else
      assert forall a :: 1 <= a < |cells| ==> cells[1..][a - 1] == cells[a];
      RowSum(cells[0]) + CellSum(cells[1..])
  }

  function RowOnes(row: seq<int>): nat
  {
    if row == [] then 0 else (if row[0] == 1 then 1 else 0) + RowOnes(row[1..])
  }

  /** The length of `region[kernel == 1]`: the number of kernel cells equal to 1. */
  function MaskCount(cells: seq<seq<int>>): nat
  {
    if cells == [] then 0 else RowOnes(cells[0]) + MaskCount(cells[1..])
  }

  lemma {:induction false} RowOnesZero(row: seq<int>)
    ensures RowOnes(row) == 0 <==> forall b :: 0 <= b < |row| ==> row[b] != 1
  {
    if row != [] {
      RowOnesZero(row[1..]);
      assert forall b :: 1 <= b < |row| ==> row[b] == row[1..][b - 1];
    }
  }

  /** The mask `kernel == 1` selects nothing exactly when no kernel cell equals 1. */
  lemma {:induction false} MaskCountZero(cells: seq<seq<int>>, w: nat)
    requires forall a :: 0 <= a < |cells| ==> |cells[a]| == w
    ensures MaskCount(cells) == 0 <==> forall a, b :: 0 <= a < |cells| && 0 <= b < w ==> cells[a][b] != 1
  {
    if cells != [] {
      RowOnesZero(cells[0]);
      MaskCountZero(cells[1..], w);
      assert forall a :: 1 <= a < |cells| ==> cells[a] == cells[1..][a - 1];
    }
  }

  /** The image is large enough for one reflection of the padding a kernel needs. */
  predicate Fits(g: Grid, k: Grid)
  {
    g.Valid() && k.Valid() && k.height / 2 < g.height && k.width / 2 < g.width
  }

  // ---------------------------------------------------------------------------------------
  // One pass

  /** The erosion test at window (i, j) of the padded image:
      `np.array_equal(region[kernel == 1], np.ones(np.sum(kernel)))`. The two arrays are equal
      when they have the same length (the number of cells equal to 1 is the kernel's sum) and
      every padded sample under a cell equal to 1 is 1. */
  predicate AllMatch(p: Grid, k: Grid, i: nat, j: nat)
    requires p.Valid() && k.Valid() && i + k.height <= p.height && j + k.width <= p.width
    ensures AllMatch(p, k, i, j) ==> CellSum(k.cells) >= 0
    ensures MaskCount(k.cells) == 0 && CellSum(k.cells) == 0 ==> AllMatch(p, k, i, j)
  {
    MaskCountZero(k.cells, k.width);
    MaskCount(k.cells) == CellSum(k.cells) &&
    forall a, b :: 0 <= a < k.height && 0 <= b < k.width && k.cells[a][b] == 1 ==> p.cells[i + a][j + b] == 1
  }

  /** The dilation test at window (i, j): `np.any(region[kernel == 1])`, some padded sample
      under a kernel cell equal to 1 is nonzero. */
  predicate AnyMatch(p: Grid, k: Grid, i: nat, j: nat)
    requires p.Valid() && k.Valid() && i + k.height <= p.height && j + k.width <= p.width
    ensures AnyMatch(p, k, i, j) ==> MaskCount(k.cells) > 0
  {
    MaskCountZero(k.cells, k.width);
    exists a, b :: 0 <= a < k.height && 0 <= b < k.width && k.cells[a][b] == 1 && p.cells[i + a][j + b] != 0
  }

  /** The padded image one pass reads. */
  function PadFor(g: Grid, k: Grid): (p: Grid)
    requires Fits(g, k)
    ensures p.Valid() && p.height == g.height + 2 * (k.height / 2) && p.width == g.width + 2 * (k.width / 2)
    ensures g.height + k.height <= p.height + 1 && g.width + k.width <= p.width + 1
  {
    Pad(g, k.height / 2, k.width / 2)
  }

  /** One erosion pass: output pixel (i, j) is 1 exactly when the erosion test holds for the
      kh x kw window whose top-left corner is (i, j) in the padded image. */
  function ErodeStep(g: Grid, k: Grid): (r: Grid)
    requires Fits(g, k)
    ensures r.Valid() && r.SameShape(g) && r.IsBinary()
  {
    var p := PadFor(g, k);
    Grid(g.height, g.width,
      seq(g.height, i requires 0 <= i < g.height =>
        seq(g.width, j requires 0 <= j < g.width => if AllMatch(p, k, i, j) then 1 else 0)))
  }

  /** One dilation pass, with the dilation test in place of the erosion test. */
  function DilateStep(g: Grid, k: Grid): (r: Grid)
    requires Fits(g, k)
    ensures r.Valid() && r.SameShape(g) && r.IsBinary()
  {
    var p := PadFor(g, k);
    Grid(g.height, g.width,
      seq(g.height, i requires 0 <= i < g.height =>
        seq(g.width, j requires 0 <= j < g.width => if AnyMatch(p, k, i, j) then 1 else 0)))
  }

  lemma ErodeStepAt(g: Grid, k: Grid, i: nat, j: nat)
    requires Fits(g, k) && i < g.height && j < g.width
    ensures ErodeStep(g, k).cells[i][j] == 1 <==> AllMatch(PadFor(g, k), k, i, j)
  {
  }

  lemma DilateStepAt(g: Grid, k: Grid, i: nat, j: nat)
    requires Fits(g, k) && i < g.height && j < g.width
    ensures DilateStep(g, k).cells[i][j] == 1 <==> AnyMatch(PadFor(g, k), k, i, j)
  {
  }

  // ---------------------------------------------------------------------------------------
  // Iterated passes and the whole operators

  /** `iterations` erosion passes, each applied to the previous pass's output; none when
      `iterations <= 0` (as `range(iterations)` is then empty). */
  function ErodeN(g: Grid, k: Grid, n: int): (r: Grid)
    requires g.Valid() && k.Valid() && (n >= 1 ==> Fits(g, k))
    ensures r.Valid() && r.SameShape(g)
    ensures n >= 1 || g.IsBinary() ==> r.IsBinary()
    decreases n
  {
    if n <= 0 then g else ErodeStep(ErodeN(g, k, n - 1), k)
  }

  /** `iterations` dilation passes. */
  function DilateN(g: Grid, k: Grid, n: int): (r: Grid)
    requires g.Valid() && k.Valid() && (n >= 1 ==> Fits(g, k))
    ensures r.Valid() && r.SameShape(g)
    ensures n >= 1 || g.IsBinary() ==> r.IsBinary()
    decreases n
  {
    if n <= 0 then g else DilateStep(DilateN(g, k, n - 1), k)
  }

  /** The value `vpx_erode` returns (when it returns): the binarized input eroded `iterations`
      times, scaled to 0/255. */
  function ErodeImage(image: Grid, k: Grid, iterations: int): (r: Grid)
    requires image.Valid() && k.Valid() && (iterations >= 1 ==> Fits(image, k))
    ensures r.Valid() && r.SameShape(image) && r.IsByteBinary()
  {
    Scale(ErodeN(Binarize(image), k, iterations))
  }

  /** The value `vpx_dilate` returns. */
  function DilateImage(image: Grid, k: Grid, iterations: int): (r: Grid)
    requires image.Valid() && k.Valid() && (iterations >= 1 ==> Fits(image, k))
    ensures r.Valid() && r.SameShape(image) && r.IsByteBinary()
  {
    Scale(DilateN(Binarize(image), k, iterations))
  }
}
