/** `vpx_pad_image`: reflect padding of an image by half the kernel size on each side,
    with NumPy's `mode='reflect'` (mirror about the edge sample, which is not repeated). */
module Padding {
  import opened Images

  /** The input index that padded index `p` reads along an axis of length `n` padded by `pad`
      on each side, when one reflection suffices (`pad < n`). */
  function ReflectIndex(p: int, pad: nat, n: nat): (r: nat)
    requires pad < n && 0 <= p < n + 2 * pad
    ensures r < n
    ensures pad <= p < pad + n ==> r == p - pad
  {
    var q := p - pad;
    if q < 0 then -q else if q < n then q else 2 * (n - 1) - q
  }

  /** The padded image: `ph` extra rows above and below, `pw` extra columns left and right,
      with the input unchanged in the interior block at offset (ph, pw). */
  function Pad(g: Grid, ph: nat, pw: nat): (r: Grid)
    requires g.Valid() && ph < g.height && pw < g.width
    ensures r.Valid() && r.height == g.height + 2 * ph && r.width == g.width + 2 * pw
    ensures forall p, q :: ph <= p < ph + g.height && pw <= q < pw + g.width ==>
      r.cells[p][q] == g.cells[p - ph][q - pw]
  {
    var r := Grid(g.height + 2 * ph, g.width + 2 * pw,
      seq(g.height + 2 * ph, p requires 0 <= p < g.height + 2 * ph =>
        seq(g.width + 2 * pw, q requires 0 <= q < g.width + 2 * pw =>
          g.cells[ReflectIndex(p, ph, g.height)][ReflectIndex(q, pw, g.width)])));
    assert forall p, q :: 0 <= p < r.height && 0 <= q < r.width ==>
      r.cells[p][q] == g.cells[ReflectIndex(p, ph, g.height)][ReflectIndex(q, pw, g.width)];
    r
  }

  /** The border is the mirror image of the interior about the edge rows: the padded row `d`
      steps above the first input row equals the padded row `d` steps below it, which is input
      row `d`, so the edge row itself is not duplicated; likewise at the bottom, where it is
      input row H-1-d. */
  lemma PadReflectsRows(g: Grid, ph: nat, pw: nat, d: nat, c: nat)
    requires g.Valid() && ph < g.height && pw < g.width
    requires 1 <= d <= ph && c < g.width + 2 * pw
    ensures Pad(g, ph, pw).cells[ph - d][c] == Pad(g, ph, pw).cells[ph + d][c]
    ensures Pad(g, ph, pw).cells[ph + g.height - 1 + d][c] == Pad(g, ph, pw).cells[ph + g.height - 1 - d][c]
    ensures pw <= c < pw + g.width ==>
      Pad(g, ph, pw).cells[ph - d][c] == g.cells[d][c - pw] &&
      Pad(g, ph, pw).cells[ph + g.height - 1 + d][c] == g.cells[g.height - 1 - d][c - pw]
  {
    var r := Pad(g, ph, pw);
    assert ReflectIndex(ph - d, ph, g.height) == d == ReflectIndex(ph + d, ph, g.height);
    assert ReflectIndex(ph + g.height - 1 + d, ph, g.height) == g.height - 1 - d
        == ReflectIndex(ph + g.height - 1 - d, ph, g.height);
  }

  /** The same mirror property at the left and right edge columns. */
  lemma PadReflectsColumns(g: Grid, ph: nat, pw: nat, d: nat, p: nat)
    requires g.Valid() && ph < g.height && pw < g.width
    requires 1 <= d <= pw && p < g.height + 2 * ph
    ensures Pad(g, ph, pw).cells[p][pw - d] == Pad(g, ph, pw).cells[p][pw + d]
    ensures Pad(g, ph, pw).cells[p][pw + g.width - 1 + d] == Pad(g, ph, pw).cells[p][pw + g.width - 1 - d]
    ensures ph <= p < ph + g.height ==>
      Pad(g, ph, pw).cells[p][pw - d] == g.cells[p - ph][d] &&
      Pad(g, ph, pw).cells[p][pw + g.width - 1 + d] == g.cells[p - ph][g.width - 1 - d]
  {
    var r := Pad(g, ph, pw);
    assert ReflectIndex(pw - d, pw, g.width) == d == ReflectIndex(pw + d, pw, g.width);
    assert ReflectIndex(pw + g.width - 1 + d, pw, g.width) == g.width - 1 - d
        == ReflectIndex(pw + g.width - 1 - d, pw, g.width);
  }

  /** The mirror excludes the edge sample: padding the row 10 20 30 by one column on each side
      gives 20 10 20 30 20, not 10 10 20 30 30. */
  lemma PadRowExample()
    ensures Pad(Grid(1, 3, [[10, 20, 30]]), 0, 1).cells == [[20, 10, 20, 30, 20]]
  {
    var r := Pad(Grid(1, 3, [[10, 20, 30]]), 0, 1);
    assert ReflectIndex(0, 1, 3) == 1 && ReflectIndex(4, 1, 3) == 1;
    assert r.cells[0] == [20, 10, 20, 30, 20];
  }

  /** Padding commutes with complement: every padded sample of the complemented image is the
      complement of the corresponding padded sample. */
  lemma PadComplement(g: Grid, ph: nat, pw: nat)
    requires g.Valid() && g.IsBinary() && ph < g.height && pw < g.width
    ensures Pad(Complement(g), ph, pw).SameShape(Pad(g, ph, pw))
    ensures forall p, q :: 0 <= p < g.height + 2 * ph && 0 <= q < g.width + 2 * pw ==>
      Pad(Complement(g), ph, pw).cells[p][q] == 1 - Pad(g, ph, pw).cells[p][q]
  {
    var c := Complement(g);
    forall p, q | 0 <= p < g.height + 2 * ph && 0 <= q < g.width + 2 * pw
      ensures Pad(c, ph, pw).cells[p][q] == 1 - Pad(g, ph, pw).cells[p][q]
    {
      var x, y := ReflectIndex(p, ph, g.height), ReflectIndex(q, pw, g.width);
      assert Pad(c, ph, pw).cells[p][q] == c.cells[x][y];
      assert Pad(g, ph, pw).cells[p][q] == g.cells[x][y];
    }
  }
}
