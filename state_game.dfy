/**
 * The standalone `ColorBias` question of src/state.ts: the same biased-pair
 * construction as src/index.ts with its own decay constants and its own
 * `hsv`, and the same rendering.
 */
module StateGame {
  import opened Wrappers
  import Color
  import ChromaHsv
  import Bias
  import Grid

  /** One question: its level, grid, target cell, the two colours and the palette. */
  datatype ColorBias = ColorBias(
    level: nat, size: nat, line: nat, row: nat,
    base: string, biased: string, bgColor: string, fgColor: string)

  /**
   * `cb` is what `new ColorBias(level)` builds from the draws `d` when the
   * three decay curves of `level` evaluate to `rg`.
   */
  ghost predicate Constructed(cb: ColorBias, level: nat, d: Bias.Draws, rg: Bias.Ranges)
    requires Bias.ValidDraws(d) && Bias.Within(rg, Bias.StateProfile)
  {
    Bias.ProfilesBounded(rg);
    var size := Grid.Size(level);
    var b := Bias.Base(d);
    var c := Bias.Biased(d, rg);
    && cb.level == level && cb.size == size
    && cb.line == Bias.RandomInt(d.line, size) && cb.row == Bias.RandomInt(d.row, size)
    && ChromaHsv.Hsv(b.h, b.s, b.v) == Some(cb.base)
    && ChromaHsv.Hsv(c.h, c.s, c.v) == Some(cb.biased)
    && (cb.bgColor, cb.fgColor) == Bias.Legibility(b.s, b.v)
  }

  /**
   * `new ColorBias(level)` (src/state.ts:44-87): the target cell lies inside
   * the grid, and both colours are defined `#rrggbb` strings because the
   * base hue is drawn from [0, 360) and the biased hue is wrapped back into
   * it. The palette is black on white.
   */
  method NewColorBias(level: nat, d: Bias.Draws, rg: Bias.Ranges) returns (cb: ColorBias)
    requires Bias.ValidDraws(d) && Bias.Within(rg, Bias.StateProfile)
    ensures Constructed(cb, level, d, rg)
    ensures cb.size == Grid.Size(level) && cb.line < cb.size && cb.row < cb.size
    ensures Color.ParseColor(cb.base).Some? && Color.ParseColor(cb.biased).Some?
    ensures cb.bgColor == Color.White && cb.fgColor == Color.Black
  {
    var size := Grid.Size(level);
    var line := Bias.RandomInt(d.line, size);
    var row := Bias.RandomInt(d.row, size);
    var b := Bias.Base(d);
    var h, s, v := b.h, b.s, b.v;
    ChromaHsv.HsvSpans(h, s, v);
    var base := ChromaHsv.Hsv(h, s, v).value;

    Bias.ProfilesBounded(rg);
    var f := Bias.Factors(d);
    var c := Bias.Generate(b, f, rg, d.signS, d.signV, d.signH);
    ChromaHsv.HsvSpans(c.h, c.s, c.v);
    var biased := ChromaHsv.Hsv(c.h, c.s, c.v).value;

    var palette := Bias.Legibility(s, v);
    Bias.AlwaysBlackOnWhite(d);
    cb := ColorBias(level, size, line, row, base, biased, palette.0, palette.1);
  }

  /**
   * `ColorBias.render` (src/state.ts:89-122) without the canvas: the
   * palette, the labels `1..size` across the top and `A, B, ...` down the
   * side, and the cells, of which the one at row `line` and column `row` is
   * biased.
   */
  method Render(cb: ColorBias) returns (pic: Grid.Picture)
    requires cb.size + 64 < 0xD800
    ensures pic.background == cb.bgColor && pic.foreground == cb.fgColor
    ensures |pic.columnLabels| == cb.size && |pic.rowLabels| == cb.size
    ensures forall j | 0 <= j < cb.size :: pic.columnLabels[j] == Grid.ColumnLabel(j + 1)
    ensures forall i | 0 <= i < cb.size :: pic.rowLabels[i] == [(i + 65) as char]
    ensures Grid.Square(pic.cells, cb.size)
    ensures cb.line < cb.size && cb.row < cb.size ==> pic.cells[cb.line][cb.row] == cb.biased
    ensures forall i, j | 0 <= i < cb.size && 0 <= j < cb.size && (i != cb.line || j != cb.row) ::
      pic.cells[i][j] == cb.base
  {
    var columns, rows := Grid.DrawLabels(cb.size);
    var cells := Grid.DrawCells(cb.size, cb.line, cb.row, cb.base, cb.biased);
    pic := Grid.Picture(cb.bgColor, cb.fgColor, columns, rows, cells);
  }
}
