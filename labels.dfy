/**
  The GrabCut label mask as a value: its four codes, the scribble (a filled
  disk written with a sure code), and what OpenCV's `cv2.grabCut` does to the
  mask when it is seeded from a rectangle or from the mask itself.

  The segmentation itself (colour models, min-cut) is not modelled. Where the
  library decides a cell, the decision is a parameter: an `EngineRun` says
  whether the library refused its input, raised during its passes or
  finished, and for every probable cell whether the cut put it on the
  foreground side.
*/
module Labels {
  import opened Geometry
  import opened Grids

  /** A cell of the label mask, with OpenCV's codes. */
  type MaskCode = c: int | 0 <= c < 4

  const GC_BGD: MaskCode := 0
  const GC_FGD: MaskCode := 1
  const GC_PR_BGD: MaskCode := 2
  const GC_PR_FGD: MaskCode := 3

  /** Sure codes are hard constraints for the segmentation; probable codes may flip. */
  predicate IsSure(c: MaskCode)
  {
    c == GC_BGD || c == GC_FGD
  }

  /** The colour model a cell is sampled into: background for GC_BGD and GC_PR_BGD. */
  predicate IsBackgroundClass(c: MaskCode)
  {
    c == GC_BGD || c == GC_PR_BGD
  }

  datatype Option<T> = None | Some(value: T)

  /** Python's `s[k]` on a list: a negative index counts from the end, and an
      index out of range raises IndexError (None). */
  function PyIndex<T>(s: seq<T>, k: int): (r: Option<T>)
    ensures r.Some? <==> -|s| <= k < |s|
    ensures 0 <= k < |s| ==> r == Some(s[k])
    ensures -|s| <= k < 0 ==> r == Some(s[|s| + k])
  {
    if 0 <= k < |s| then Some(s[k])
    else if -|s| <= k < 0 then Some(s[|s| + k])
    else None
  }

  /** The sure code a scribble with label tag `tag` paints, `[GC_BGD, GC_FGD][tag]`. */
  function LabelCode(tag: int): (r: Option<MaskCode>)
    ensures r == Some(GC_BGD) <==> tag == 0 || tag == -2
    ensures r == Some(GC_FGD) <==> tag == 1 || tag == -1
    ensures r.None? <==> tag < -2 || 1 < tag
    ensures r.Some? ==> IsSure(r.value)
  {
    PyIndex([GC_BGD, GC_FGD], tag)
  }

  /** A `rows` by `cols` mask of zeros (GC_BGD), as `np.zeros` allocates it. */
  function Zeros(rows: nat, cols: nat): (g: Grid<MaskCode>)
    ensures IsGrid(g, rows, cols)
  {
    seq(rows, i => seq(cols, j => GC_BGD))
  }

  // ---------------------------------------------------------------------
  // Scribbles

  /** Radius of a scribble disk, in pixels. */
  const RADIUS := 5

  /** `cell` is within Euclidean distance RADIUS of `center`. This stands for
      the pixels `cv2.circle` fills for a radius-5 disk. */
  predicate InDisk(cell: Point, center: Point)
  {
    var d := cell.Minus(center);
    d.x * d.x + d.y * d.y <= RADIUS * RADIUS
  }

  /** A disk lies inside the square of side 2 * RADIUS + 1 around its centre. */
  lemma DiskInBox(cell: Point, center: Point)
    requires InDisk(cell, center)
    ensures center.x - RADIUS <= cell.x <= center.x + RADIUS
    ensures center.y - RADIUS <= cell.y <= center.y + RADIUS
  {
    var d := cell.Minus(center);
    SquareBound(d.x, d.y);
    SquareBound(d.y, d.x);
  }

  lemma SquareBound(a: int, b: int)
    requires a * a + b * b <= RADIUS * RADIUS
    ensures -RADIUS <= a <= RADIUS
  {
    assert b * b >= 0;
  }

  /** The mask after a filled disk of `code` centred on the crop-local point
      `center` (x column, y row); cells of the disk outside the mask are cut off. */
  function PaintDisk(g: Grid<MaskCode>, code: MaskCode, center: Point): (r: Grid<MaskCode>)
    ensures |r| == |g| && forall i :: 0 <= i < |g| ==> |r[i]| == |g[i]|
  {
    seq(|g|, i requires 0 <= i < |g| =>
      seq(|g[i]|, j requires 0 <= j < |g[i]| =>
        if InDisk(Point(j, i), center) then code else g[i][j]))
  }

  /** Painting writes `code` on every cell of the disk that lies in the mask,
      and nothing else. */
  lemma PaintWritesDiskOnly(g: Grid<MaskCode>, code: MaskCode, center: Point, i: nat, j: nat)
    requires i < |g| && j < |g[i]|
    ensures InDisk(Point(j, i), center) ==> PaintDisk(g, code, center)[i][j] == code
    ensures !InDisk(Point(j, i), center) ==> PaintDisk(g, code, center)[i][j] == g[i][j]
  {
  }

  /** A disk that misses every cell of the mask changes nothing: it is
      clipped away without error. */
  lemma PaintOffMaskIsNoop(g: Grid<MaskCode>, rows: nat, cols: nat, code: MaskCode, center: Point)
    requires IsGrid(g, rows, cols)
    requires forall i, j :: 0 <= i < rows && 0 <= j < cols ==> !InDisk(Point(j, i), center)
    ensures PaintDisk(g, code, center) == g
  {
    GridEq(PaintDisk(g, code, center), g, rows, cols);
  }

  /** In particular, a disk whose bounding square lies outside the mask changes nothing. */
  lemma PaintOffSquareIsNoop(g: Grid<MaskCode>, rows: nat, cols: nat, code: MaskCode, center: Point)
    requires IsGrid(g, rows, cols)
    requires center.x < -RADIUS || cols + RADIUS <= center.x || center.y < -RADIUS || rows + RADIUS <= center.y
    ensures PaintDisk(g, code, center) == g
  {
    forall i, j | 0 <= i < rows && 0 <= j < cols
      ensures !InDisk(Point(j, i), center)
    {
      if InDisk(Point(j, i), center) {
        DiskInBox(Point(j, i), center);
        assert false;
      }
    }
    PaintOffMaskIsNoop(g, rows, cols, code, center);
  }

  /** Scribbles are last-write-wins: painting at the same point twice leaves
      what the second scribble painted, whatever the first one was. */
  lemma PaintLastWins(g: Grid<MaskCode>, rows: nat, cols: nat, first: MaskCode, second: MaskCode, center: Point)
    requires IsGrid(g, rows, cols)
    ensures PaintDisk(PaintDisk(g, first, center), second, center) == PaintDisk(g, second, center)
  {
    var twice, once := PaintDisk(PaintDisk(g, first, center), second, center), PaintDisk(g, second, center);
    forall i, j | 0 <= i < rows && 0 <= j < cols
      ensures twice[i][j] == once[i][j]
    {
    }
    GridEq(twice, once, rows, cols);
  }

  // ---------------------------------------------------------------------
  // cv2.grabCut

  /** Cell (row `i`, column `j`) lies in the rectangle `(x, y, w, h) = (tl,
      br - tl)` after OpenCV clips it to a `rows` by `cols` mask: the corner is
      moved to at least 0 and the extent cut to what fits after the corner,
      without shortening it by the amount the corner was moved. A negative
      extent leaves no cell (OpenCV raises there; the mask is then all GC_BGD). */
  predicate InSeedRect(rows: nat, cols: nat, tl: Point, br: Point, i: int, j: int)
  {
    var x, y := Max(tl.x, 0), Max(tl.y, 0);
    var w, h := Min(br.x - tl.x, cols - x), Min(br.y - tl.y, rows - y);
    x <= j < x + w && y <= i < y + h
  }

  /** The seed of GC_INIT_WITH_RECT: every cell GC_BGD, then the clipped
      rectangle GC_PR_FGD. */
  function RectInit(rows: nat, cols: nat, tl: Point, br: Point): (g: Grid<MaskCode>)
    ensures IsGrid(g, rows, cols)
  {
    seq(rows, i requires 0 <= i < rows =>
      seq(cols, j requires 0 <= j < cols =>
        if InSeedRect(rows, cols, tl, br, i, j) then GC_PR_FGD else GC_BGD))
  }

  /** For a rectangle inside the mask the seed is exactly "probable foreground
      inside, sure background outside". */
  lemma RectInitInBounds(rows: nat, cols: nat, tl: Point, br: Point, i: nat, j: nat)
    requires 0 <= tl.x && 0 <= tl.y && br.x <= cols && br.y <= rows
    requires i < rows && j < cols
    ensures RectInit(rows, cols, tl, br)[i][j] ==
      if tl.y <= i < br.y && tl.x <= j < br.x then GC_PR_FGD else GC_BGD
  {
  }

  /** What the library's passes do to the mask: sure cells stay, and every
      probable cell becomes GC_PR_FGD or GC_PR_BGD as the cut decides. */
  function Relabel(g: Grid<MaskCode>, isFg: (int, int) -> bool): (r: Grid<MaskCode>)
    ensures |r| == |g| && forall i :: 0 <= i < |g| ==> |r[i]| == |g[i]|
  {
    seq(|g|, i requires 0 <= i < |g| =>
      seq(|g[i]|, j requires 0 <= j < |g[i]| =>
        if IsSure(g[i][j]) then g[i][j]
        else if isFg(i, j) then GC_PR_FGD else GC_PR_BGD))
  }

  /** The library can fit its two colour models: the mask has a cell for the
      background model and a cell for the foreground model (otherwise OpenCV
      raises before the first pass). An empty mask has neither. */
  predicate Seedable(g: Grid<MaskCode>)
  {
    && (exists i, j :: 0 <= i < |g| && 0 <= j < |g[i]| && IsBackgroundClass(g[i][j]))
    && (exists i, j :: 0 <= i < |g| && 0 <= j < |g[i]| && !IsBackgroundClass(g[i][j]))
  }

  /** How one call of the library ends; `isFg(i, j)` is the side of the cut on
      which the probable cell at row `i`, column `j` ends up. */
  datatype EngineRun =
    | Refused                               // raises before touching the mask (photo not 8-bit, 3-channel)
    | Raised(isFg: (int, int) -> bool)      // raises during its passes, after relabelling
    | Finished(isFg: (int, int) -> bool)    // returns normally after its passes

  /** The mask `cv2.grabCut` leaves and whether it returns normally, for a
      `rows` by `cols` mask `g`. With `seed` it runs in GC_INIT_WITH_RECT mode
      and first reseeds the mask from the rectangle; without, in
      GC_INIT_WITH_MASK mode from the mask as it is. */
  function GrabCutEffect(g: Grid<MaskCode>, rows: nat, cols: nat, seed: Option<Rect>, run: EngineRun): (r: (Grid<MaskCode>, bool))
    requires IsGrid(g, rows, cols)
    ensures IsGrid(r.0, rows, cols)
    ensures run.Refused? ==> r == (g, false)
    // it returns normally exactly when it runs to the end and can fit both colour models to its seed
    ensures r.1 <==> run.Finished? && Seedable(if seed.Some? then RectInit(rows, cols, seed.value.tl, seed.value.br) else g)
    // seeded from the mask, sure cells are hard constraints and probable cells stay probable
    ensures seed.None? ==> forall i, j :: 0 <= i < rows && 0 <= j < cols ==>
      (IsSure(g[i][j]) ==> r.0[i][j] == g[i][j]) && (!IsSure(g[i][j]) ==> !IsSure(r.0[i][j]))
    // seeded from a rectangle, everything outside it is sure background
    ensures seed.Some? && !run.Refused? ==> forall i, j :: 0 <= i < rows && 0 <= j < cols ==>
      (InSeedRect(rows, cols, seed.value.tl, seed.value.br, i, j) <==> r.0[i][j] != GC_BGD)
  {
    if run.Refused? then (g, false)
    else
      var s := if seed.Some? then RectInit(rows, cols, seed.value.tl, seed.value.br) else g;
      if !Seedable(s) then (s, false)
      else
        RelabelKeepsBackground(s, rows, cols, run.isFg);
        (Relabel(s, run.isFg), run.Finished?)
  }

  /** The passes keep a cell sure background exactly when it was. */
  lemma RelabelKeepsBackground(g: Grid<MaskCode>, rows: nat, cols: nat, isFg: (int, int) -> bool)
    requires IsGrid(g, rows, cols)
    ensures forall i, j :: 0 <= i < rows && 0 <= j < cols ==>
      (Relabel(g, isFg)[i][j] == GC_BGD <==> g[i][j] == GC_BGD)
  {
    var r := Relabel(g, isFg);
    forall i, j | 0 <= i < rows && 0 <= j < cols
      ensures r[i][j] == GC_BGD <==> g[i][j] == GC_BGD
    {
      assert r[i][j] == if IsSure(g[i][j]) then g[i][j] else if isFg(i, j) then GC_PR_FGD else GC_PR_BGD;
    }
  }

  /** A scribble survives the refinement that follows it: every cell of the
      disk keeps its sure code, however the library ends. */
  lemma ScribbleSurvivesUpdate(g: Grid<MaskCode>, rows: nat, cols: nat, code: MaskCode, center: Point, run: EngineRun)
    requires IsGrid(g, rows, cols) && IsSure(code)
    ensures forall i, j :: 0 <= i < rows && 0 <= j < cols && InDisk(Point(j, i), center) ==>
      GrabCutEffect(PaintDisk(g, code, center), rows, cols, None, run).0[i][j] == code
  {
  }

  /** Scribbles are last-write-wins across refinements: a background scribble
      over a foreground one leaves the centre sure background after the
      refinement that follows it, whatever the refinement between them did. */
  lemma BackgroundOverForeground(g: Grid<MaskCode>, rows: nat, cols: nat, center: Point, first: EngineRun, second: EngineRun)
    requires IsGrid(g, rows, cols) && 0 <= center.y < rows && 0 <= center.x < cols
    ensures var afterFg := GrabCutEffect(PaintDisk(g, GC_FGD, center), rows, cols, None, first).0;
      GrabCutEffect(PaintDisk(afterFg, GC_BGD, center), rows, cols, None, second).0[center.y][center.x] == GC_BGD
  {
    var afterFg := GrabCutEffect(PaintDisk(g, GC_FGD, center), rows, cols, None, first).0;
    ScribbleSurvivesUpdate(afterFg, rows, cols, GC_BGD, center, second);
  }

  /** The ROI covering the whole image seeds no background cell: the seed is
      GC_PR_FGD everywhere, so the library can never fit it. */
  lemma WholeImageNeverSeeds(resolution: Point)
    requires resolution.x >= 0 && resolution.y >= 0
    ensures var roi := Rect(Point(0, 0), resolution);
      var crop := CropRect(roi, resolution);
      var rows, cols := crop.br.y - crop.tl.y, crop.br.x - crop.tl.x;
      && rows == resolution.y && cols == resolution.x
      && !Seedable(RectInit(rows, cols, ToLocal(roi.tl, crop.tl), ToLocal(roi.br, crop.tl)))
  {
    var rows: nat, cols: nat := resolution.y, resolution.x;
    var g := RectInit(rows, cols, Point(0, 0), resolution);
    forall i, j | 0 <= i < rows && 0 <= j < cols
      ensures !IsBackgroundClass(g[i][j])
    {
      assert InSeedRect(rows, cols, Point(0, 0), resolution, i, j);
    }
  }

  /** An ROI with area, inside the image and not the whole image, seeds a mask
      the library can fit both colour models to: the margin leaves at least one
      background cell and the ROI gives at least one probable foreground cell. */
  lemma InBoundsRoiSeeds(roi: Rect, resolution: Point)
    requires InImage(roi, resolution)
    requires roi.tl.x < roi.br.x && roi.tl.y < roi.br.y
    requires roi != Rect(Point(0, 0), resolution)
    ensures var crop := CropRect(roi, resolution);
      var rows, cols := crop.br.y - crop.tl.y, crop.br.x - crop.tl.x;
      && rows >= 0 && cols >= 0
      && Seedable(RectInit(rows, cols, ToLocal(roi.tl, crop.tl), ToLocal(roi.br, crop.tl)))
  {
    var crop := CropRect(roi, resolution);
    var rows: nat, cols: nat := crop.br.y - crop.tl.y, crop.br.x - crop.tl.x;
    var tl, br := ToLocal(roi.tl, crop.tl), ToLocal(roi.br, crop.tl);
    var g := RectInit(rows, cols, tl, br);
    RectInitInBounds(rows, cols, tl, br, tl.y, tl.x);
    assert !IsBackgroundClass(g[tl.y][tl.x]);
    var bi: nat, bj: nat;
    if 0 < roi.tl.x {
      bi, bj := tl.y, 0;
    } else if 0 < roi.tl.y {
      bi, bj := 0, tl.x;
    } else if roi.br.x < resolution.x {
      bi, bj := tl.y, br.x;
    } else {
      bi, bj := br.y, tl.x;
    }
    RectInitInBounds(rows, cols, tl, br, bi, bj);
    assert IsBackgroundClass(g[bi][bj]);
  }
}
