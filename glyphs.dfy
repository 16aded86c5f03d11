/**
 * The palette and box-drawing glyphs of `ProcTree` and the colour chosen
 * for each depth (`depth_color`), with Pastel reduced to a pure styling
 * function.
 */
module Glyphs {
  import opened Wrappers

  datatype Color = Red | Green | Yellow | BrightBlue | Magenta | Cyan | White

  /** `COLORS`, in the source's order. */
  const COLORS: seq<Color> := [Red, Green, Yellow, BrightBlue, Magenta, Cyan, White]

  const VERTICAL: char := '│'
  const HORIZONTAL_FIRST: char := '┌'
  const HORIZONTAL: char := '─'
  const HORIZONTAL_CHILDREN: char := '┬'
  const CONNECTOR: char := '├'
  const CONNECTOR_LAST: char := '└'

  /** One piece of a line's prefix: a glyph and the colour it is styled with, if any. */
  datatype Piece = Piece(color: Option<Color>, glyph: char)

  /** `pastel.send(color, glyph)`: styled when colour is enabled, the bare glyph otherwise. */
  function Style(color: Color, glyph: char, enabled: bool): (p: Piece)
    ensures p.glyph == glyph
    ensures p.color.Some? <==> enabled
    ensures p.color.Some? ==> p.color.value == color
  {
    Piece(if enabled then Some(color) else None, glyph)
  }

  /** `depth_color(depth)` */
  function DepthColor(depth: nat): (c: Color)
    ensures c in COLORS
  {
    COLORS[depth % |COLORS|]
  }

  /** Colours repeat with the palette's length: k whole turns later, the same colour. */
  lemma {:induction false} DepthColorCycles(depth: nat, k: nat)
    ensures DepthColor(depth + k * |COLORS|) == DepthColor(depth)
  {
    if k > 0 {
      DepthColorCycles(depth, k - 1);
      assert depth + k * |COLORS| == (depth + (k - 1) * |COLORS|) + |COLORS|;
    }
  }

  /** Two depths get the same colour exactly when they agree modulo the palette's length. */
  lemma DepthColorsAgree(d: nat, e: nat)
    ensures DepthColor(d) == DepthColor(e) <==> d % |COLORS| == e % |COLORS|
  {
    if d % |COLORS| != e % |COLORS| {
      var i, j := d % |COLORS|, e % |COLORS|;
      assert COLORS[i] != COLORS[j];
    }
  }
}
