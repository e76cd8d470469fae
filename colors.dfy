/**
  Pixels and the overlay colours. The overlay buffer is the byte view of a
  QImage in Format_ARGB32 taken in little-endian order, so a pixel is four
  bytes in the order blue, green, red, alpha; `Bgr` puts a colour into that
  order. `COLOR_TABLE` gives each mask code its colour, and `Render` is what
  writing the looked-up colours into a sub-rectangle of the overlay does.
*/
module Colors {
  import opened Grids
  import opened Labels

  type byte = b: int | 0 <= b < 256

  /** A photo pixel. Only the segmentation library reads photo pixels. */
  datatype Rgb = Rgb(r: byte, g: byte, b: byte)

  /** An overlay pixel as its bytes in memory order. */
  datatype Bgra = Bgra(b: byte, g: byte, r: byte, a: byte)

  /** A fully transparent pixel: the overlay buffer starts out zero-filled. */
  const TRANSPARENT := Bgra(0, 0, 0, 0)

  /** The colour (r, g, b) with opacity a, in memory order. */
  function Bgr(r: byte, g: byte, b: byte, a: byte): Bgra
  {
    Bgra(b, g, r, a)
  }

  /** The 32-bit word a little-endian machine reads from a pixel's four bytes. */
  function Word(p: Bgra): nat
  {
    p.b + 0x100 * p.g + 0x1_0000 * p.r + 0x100_0000 * p.a
  }

  /** The word QImage's Format_ARGB32 stores for colour (r, g, b) with opacity a: 0xAARRGGBB. */
  function Argb32(r: byte, g: byte, b: byte, a: byte): nat
  {
    0x100_0000 * a + 0x1_0000 * r + 0x100 * g + b
  }

  /** `Bgr` lays a colour out so that the display reads it back as that colour. */
  lemma BgrIsArgb32(r: byte, g: byte, b: byte, a: byte)
    ensures Word(Bgr(r, g, b, a)) == Argb32(r, g, b, a)
  {
  }

  const COLOR_OBJ_SURE := Bgr(40, 250, 10, 175)
  const COLOR_OBJ_GUESS := Bgr(200, 200, 20, 128)
  const COLOR_BGD_GUESS := Bgr(120, 40, 20, 128)
  const COLOR_BGD_SURE := Bgr(250, 40, 10, 175)

  /** Colours indexed by mask code: GC_BGD, GC_FGD, GC_PR_BGD, GC_PR_FGD. */
  const COLOR_TABLE: seq<Bgra> := [COLOR_BGD_SURE, COLOR_OBJ_SURE, COLOR_BGD_GUESS, COLOR_OBJ_GUESS]

  /** The ARGB32 word the display reads for each entry of the table: the
      colour given to `bgr`, red in the third byte and opacity in the top byte. */
  lemma ColorTableWords()
    ensures Word(COLOR_TABLE[GC_BGD]) == 0xAF_FA_28_0A == Argb32(250, 40, 10, 175)
    ensures Word(COLOR_TABLE[GC_FGD]) == 0xAF_28_FA_0A == Argb32(40, 250, 10, 175)
    ensures Word(COLOR_TABLE[GC_PR_BGD]) == 0x80_78_28_14 == Argb32(120, 40, 20, 128)
    ensures Word(COLOR_TABLE[GC_PR_FGD]) == 0x80_C8_C8_14 == Argb32(200, 200, 20, 128)
  {
    BgrIsArgb32(250, 40, 10, 175);
    BgrIsArgb32(40, 250, 10, 175);
    BgrIsArgb32(120, 40, 20, 128);
    BgrIsArgb32(200, 200, 20, 128);
  }

  /** `COLOR_TABLE[c]`. */
  function ColorOf(c: MaskCode): Bgra
  {
    COLOR_TABLE[c]
  }

  /** The table tells the four codes apart: background codes are redder than
      green, foreground codes at least as green as red, and sure codes more
      opaque than probable ones. */
  lemma ColorTableMeaning(c: MaskCode, d: MaskCode)
    ensures c != d ==> ColorOf(c) != ColorOf(d)
    ensures IsBackgroundClass(c) ==> ColorOf(c).r > ColorOf(c).g
    ensures !IsBackgroundClass(c) ==> ColorOf(c).g >= ColorOf(c).r
    ensures IsSure(c) ==> ColorOf(c).a == 175
    ensures !IsSure(c) ==> ColorOf(c).a == 128
  {
  }

  /** `COLOR_TABLE[codes]`: the colour of each code, in order. */
  function LookUp(codes: seq<MaskCode>): (px: seq<Bgra>)
    ensures |px| == |codes|
  {
    seq(|codes|, k requires 0 <= k < |codes| => ColorOf(codes[k]))
  }

  /** The colours of a `rows` by `cols` mask, row-major:
      `COLOR_TABLE[mask.reshape(-1)]`. */
  function MaskColors(m: Grid<MaskCode>, rows: nat, cols: nat): (px: seq<Bgra>)
    requires IsGrid(m, rows, cols)
    ensures |px| == rows * cols
  {
    RowMajorLength(m, rows, cols);
    LookUp(RowMajor(m))
  }

  /** The overlay pixel at row `i`, column `j` once the colours `flat` have
      been written row-major into the `rows` by `cols` view whose corner is
      (`top`, `left`). */
  function RenderedAt(o: Grid<Bgra>, flat: seq<Bgra>, top: nat, left: nat, rows: nat, cols: nat, i: nat, j: nat): Bgra
    requires |flat| == rows * cols && i < |o| && j < |o[i]|
  {
    if top <= i < top + rows && left <= j < left + cols
    then FlatAt(flat, rows, cols, i - top, j - left)
    else o[i][j]
  }

  /** The overlay after `overlay_crop[:] = flat.reshape(overlay_crop.shape)`
      for the view described as in `RenderedAt`. */
  function Render(o: Grid<Bgra>, flat: seq<Bgra>, top: nat, left: nat, rows: nat, cols: nat): (r: Grid<Bgra>)
    requires |flat| == rows * cols
    ensures |r| == |o| && forall i :: 0 <= i < |o| ==> |r[i]| == |o[i]|
  {
    seq(|o|, i requires 0 <= i < |o| =>
      seq(|o[i]|, j requires 0 <= j < |o[i]| => RenderedAt(o, flat, top, left, rows, cols, i, j)))
  }

  /** Rendering writes only the view: every pixel outside it keeps its value. */
  lemma RenderConfined(o: Grid<Bgra>, flat: seq<Bgra>, top: nat, left: nat, rows: nat, cols: nat, i: nat, j: nat)
    requires |flat| == rows * cols && i < |o| && j < |o[i]|
    requires !(top <= i < top + rows && left <= j < left + cols)
    ensures Render(o, flat, top, left, rows, cols)[i][j] == o[i][j]
  {
  }

  /** When the mask has the view's shape, every view pixel shows the colour
      of the mask cell under it. */
  lemma RenderShowsMask(o: Grid<Bgra>, m: Grid<MaskCode>, top: nat, left: nat, rows: nat, cols: nat, i: nat, j: nat)
    requires IsGrid(m, rows, cols) && i < |o| && j < |o[i]|
    requires top <= i < top + rows && left <= j < left + cols
    ensures Render(o, MaskColors(m, rows, cols), top, left, rows, cols)[i][j] == ColorOf(m[i - top][j - left])
  {
    RowMajorAt(m, rows, cols, i - top, j - left);
  }

  /** Drawing twice into one view leaves what the second drawing wrote: each
      redraw replaces the whole view. */
  lemma RenderLastWins(o: Grid<Bgra>, first: seq<Bgra>, second: seq<Bgra>, top: nat, left: nat, rows: nat, cols: nat)
    requires |first| == rows * cols && |second| == rows * cols
    ensures Render(Render(o, first, top, left, rows, cols), second, top, left, rows, cols)
         == Render(o, second, top, left, rows, cols)
  {
    var twice, once := Render(Render(o, first, top, left, rows, cols), second, top, left, rows, cols),
                       Render(o, second, top, left, rows, cols);
    forall i | 0 <= i < |o|
      ensures twice[i] == once[i]
    {
      assert forall j :: 0 <= j < |o[i]| ==> twice[i][j] == once[i][j];
    }
  }
}
