/** Two-dimensional sample grids (the NumPy 2-D arrays of vispyx/morphology.py) as values,
    and the pixel-wise maps the morphology engine applies to them: binarization on input,
    scaling to 0/255 on output. */
module Images {

  /** A grid of integer samples with its shape. The shape is kept apart from the cells so that
      a grid with no rows still has a width, as a NumPy array of shape (0, w) does. */
  datatype Grid = Grid(height: nat, width: nat, cells: seq<seq<int>>)
  {
    /** The cells form a height x width rectangle. */
    predicate Valid() {
      |cells| == height && forall i :: 0 <= i < height ==> |cells[i]| == width
    }

    predicate SameShape(other: Grid) {
      height == other.height && width == other.width
    }

    /** Every sample is 0 (background) or 1 (foreground). */
    predicate IsBinary()
      requires Valid()
    {
      forall i, j :: 0 <= i < height && 0 <= j < width ==> cells[i][j] == 0 || cells[i][j] == 1
    }

    /** Every sample is 0 or 255, the interchange form of a binary image. */
    predicate IsByteBinary()
      requires Valid()
    {
      forall i, j :: 0 <= i < height && 0 <= j < width ==> cells[i][j] == 0 || cells[i][j] == 255
    }
  }

  /** Pixel (i, j) of `g` is foreground (nonzero). */
  predicate IsForeground(g: Grid, i: int, j: int)
    requires g.Valid() && 0 <= i < g.height && 0 <= j < g.width
  {
    g.cells[i][j] != 0
  }

  /** The foreground of `g` is contained in that of `h`. */
  predicate Within(g: Grid, h: Grid)
    requires g.Valid() && h.Valid()
  {
    g.SameShape(h) &&
    forall i, j :: 0 <= i < g.height && 0 <= j < g.width && IsForeground(g, i, j) ==> IsForeground(h, i, j)
  }

  lemma WithinReflexive(g: Grid)
    requires g.Valid()
    ensures Within(g, g)
  {
  }

  lemma WithinTransitive(a: Grid, b: Grid, c: Grid)
    requires a.Valid() && b.Valid() && c.Valid() && Within(a, b) && Within(b, c)
    ensures Within(a, c)
  {
  }

  /** The grid of the given shape whose every sample is `v`. */
  function Constant(height: nat, width: nat, v: int): (r: Grid)
    ensures r.Valid() && r.height == height && r.width == width
    ensures forall i, j :: 0 <= i < height && 0 <= j < width ==> r.cells[i][j] == v
  {
    Grid(height, width, seq(height, _ => seq(width, _ => v)))
  }

  /** `(image > 0).astype(np.uint8)`: positive samples become 1, all others 0. */
  function Binarize(g: Grid): (r: Grid)
    requires g.Valid()
    ensures r.Valid() && r.SameShape(g) && r.IsBinary()
    ensures forall i, j :: 0 <= i < g.height && 0 <= j < g.width ==> (r.cells[i][j] == 1 <==> g.cells[i][j] > 0)
  {
    Grid(g.height, g.width,
      seq(g.height, i requires 0 <= i < g.height =>
        seq(g.width, j requires 0 <= j < g.width => if g.cells[i][j] > 0 then 1 else 0)))
  }

  /** `img * 255` on a binary image: foreground becomes 255, background stays 0. */
  function Scale(g: Grid): (r: Grid)
    requires g.Valid() && g.IsBinary()
    ensures r.Valid() && r.SameShape(g) && r.IsByteBinary()
    ensures forall i, j :: 0 <= i < g.height && 0 <= j < g.width ==> (r.cells[i][j] == 255 <==> g.cells[i][j] == 1)
  {
    Grid(g.height, g.width,
      seq(g.height, i requires 0 <= i < g.height =>
        seq(g.width, j requires 0 <= j < g.width => g.cells[i][j] * 255)))
  }

  /** Foreground/background swap of a binary image. */
  function Complement(g: Grid): (r: Grid)
    requires g.Valid() && g.IsBinary()
    ensures r.Valid() && r.SameShape(g) && r.IsBinary()
    ensures forall i, j :: 0 <= i < g.height && 0 <= j < g.width ==> (r.cells[i][j] == 1 <==> g.cells[i][j] == 0)
  {
    Grid(g.height, g.width,
      seq(g.height, i requires 0 <= i < g.height =>
        seq(g.width, j requires 0 <= j < g.width => 1 - g.cells[i][j])))
  }

  /** Two valid grids of one shape with equal samples are the same grid. */
  lemma Extensionality(g: Grid, h: Grid)
    requires g.Valid() && h.Valid() && g.SameShape(h)
    requires forall i, j :: 0 <= i < g.height && 0 <= j < g.width ==> g.cells[i][j] == h.cells[i][j]
    ensures g == h
  {
    forall i | 0 <= i < g.height
      ensures g.cells[i] == h.cells[i]
    {
      assert forall j :: 0 <= j < g.width ==> g.cells[i][j] == h.cells[i][j];
    }
  }

  /** Binarizing the 0/255 output gives back the binary image it was scaled from. */
  lemma BinarizeScale(g: Grid)
    requires g.Valid() && g.IsBinary()
    ensures Binarize(Scale(g)) == g
  {
    Extensionality(Binarize(Scale(g)), g);
  }

  /** Complement is an involution. */
  lemma ComplementComplement(g: Grid)
    requires g.Valid() && g.IsBinary()
    ensures Complement(Complement(g)) == g
  {
    Extensionality(Complement(Complement(g)), g);
  }
}
