/**
  One segmentation instance: the photo, the crop rectangle, the ROI in
  crop-local coordinates and the label mask over the crop. Scribbles and the
  segmentation library change the mask in place; `DrawOverlay` writes the
  mask's colours into the crop of the shared overlay buffer in place.
*/
module GrabCut {
  import opened Geometry
  import opened Grids
  import opened Labels
  import opened Colors

  class GrabCutInstance {
    const photo: array2<Rgb>
    /** The crop rectangle in full-image coordinates. */
    const cropTl: Point
    const cropBr: Point
    /** The ROI in crop-local coordinates. */
    const roiTl: Point
    const roiBr: Point
    /** The label mask; allocated by GrabCutInit. */
    var mask: array2?<MaskCode>

    /** Rows of `photo_crop`, the numpy view `photo[cropTl.y:cropBr.y, cropTl.x:cropBr.x]`. */
    function Rows(): nat
    {
      SliceLen(cropTl.y, cropBr.y, photo.Length0)
    }

    /** Columns of `photo_crop`. */
    function Cols(): nat
    {
      SliceLen(cropTl.x, cropBr.x, photo.Length1)
    }

    /** The mask exists and has the shape of the photo crop. */
    ghost predicate Valid()
      reads this
    {
      mask != null && mask.Length0 == Rows() && mask.Length1 == Cols()
    }

    /** Takes the crop rectangle and the full-image ROI; keeps the ROI relative
        to the crop's top-left corner. */
    constructor (photo: array2<Rgb>, crop: Rect, roi: Rect)
      ensures this.photo == photo && cropTl == crop.tl && cropBr == crop.br
      ensures roiTl == ToLocal(roi.tl, crop.tl) && roiBr == ToLocal(roi.br, crop.tl)
      ensures mask == null
    {
      this.photo := photo;
      cropTl, cropBr := crop.tl, crop.br;
      roiTl, roiBr := ToLocal(roi.tl, crop.tl), ToLocal(roi.br, crop.tl);
      mask := null;
    }

    /** Allocates a zero mask of the photo crop's shape and runs the library
        seeded from the ROI rectangle (GC_INIT_WITH_RECT). */
    method GrabCutInit(run: EngineRun) returns (ok: bool)
      modifies this
      ensures Valid() && fresh(mask)
      ensures (Cells(mask), ok) == GrabCutEffect(Zeros(Rows(), Cols()), Rows(), Cols(), Some(Rect(roiTl, roiBr)), run)
      ensures ok <==> run.Finished? && Seedable(RectInit(Rows(), Cols(), roiTl, roiBr))
    {
      mask := new MaskCode[Rows(), Cols()]((i, j) => GC_BGD);
      GridEq(Cells(mask), Zeros(Rows(), Cols()), Rows(), Cols());
      ok := RunGrabCut(Some(Rect(roiTl, roiBr)), run);
    }

    /** Runs the library again, seeded from the mask as it is (GC_INIT_WITH_MASK). */
    method GrabCutUpdate(run: EngineRun) returns (ok: bool)
      requires Valid()
      modifies mask
      ensures (Cells(mask), ok) == GrabCutEffect(old(Cells(mask)), Rows(), Cols(), None, run)
    {
      ok := RunGrabCut(None, run);
    }

    /** One call of `cv2.grabCut` on the photo crop and this mask, which it
        rewrites in place. */
    method RunGrabCut(seed: Option<Rect>, run: EngineRun) returns (ok: bool)
      requires Valid()
      modifies mask
      ensures (Cells(mask), ok) == GrabCutEffect(old(Cells(mask)), Rows(), Cols(), seed, run)
    {
      var (result, done) := GrabCutEffect(Cells(mask), Rows(), Cols(), seed, run);
      forall i, j | 0 <= i < mask.Length0 && 0 <= j < mask.Length1 {
        mask[i, j] := result[i][j];
      }
      GridEq(Cells(mask), result, Rows(), Cols());
      ok := done;
    }

    /** Paints a filled disk of radius RADIUS with the sure code of `tag` at
        the full-image point `center`, clipped to the mask. A tag that does
        not index `[GC_BGD, GC_FGD]` raises IndexError before anything changes. */
    method PaintCircle(tag: int, center: Point) returns (ok: bool)
      requires Valid()
      modifies mask
      ensures ok <==> LabelCode(tag).Some?
      ensures Cells(mask) == if ok then PaintDisk(old(Cells(mask)), LabelCode(tag).value, ToLocal(center, cropTl))
                             else old(Cells(mask))
    {
      var code := LabelCode(tag);
      if code.None? {
        return false;
      }
      var c := ToLocal(center, cropTl);
      ghost var before := Cells(mask);
      var y0, y1 := Max(c.y - RADIUS, 0), Min(c.y + RADIUS + 1, mask.Length0);
      var x0, x1 := Max(c.x - RADIUS, 0), Min(c.x + RADIUS + 1, mask.Length1);
      var y := y0;
      while y < y1
        invariant y0 <= y <= Max(y0, y1)
        invariant forall i, j :: 0 <= i < mask.Length0 && 0 <= j < mask.Length1 ==>
          mask[i, j] == if y0 <= i < y && x0 <= j < x1 && InDisk(Point(j, i), c) then code.value else before[i][j]
      {
        FillDiskRow(y, x0, x1, c, code.value);
        y := y + 1;
      }
      forall i, j | 0 <= i < mask.Length0 && 0 <= j < mask.Length1
        ensures mask[i, j] == PaintDisk(before, code.value, c)[i][j]
      {
        if InDisk(Point(j, i), c) {
          DiskInBox(Point(j, i), c);
        }
      }
      GridEq(Cells(mask), PaintDisk(before, code.value, c), Rows(), Cols());
      ok := true;
    }

    /** The part of one mask row, columns `x0` to `x1`, that a disk covers. */
    method FillDiskRow(y: nat, x0: nat, x1: int, c: Point, code: MaskCode)
      requires Valid() && y < mask.Length0 && x1 <= mask.Length1
      modifies mask
      ensures forall i, j :: 0 <= i < mask.Length0 && 0 <= j < mask.Length1 ==>
        mask[i, j] == if i == y && x0 <= j < x1 && InDisk(Point(j, i), c) then code else old(mask[i, j])
    {
      var x := x0;
      while x < x1
        invariant x0 <= x <= Max(x0, x1)
        invariant forall i, j :: 0 <= i < mask.Length0 && 0 <= j < mask.Length1 ==>
          mask[i, j] == if i == y && x0 <= j < x && InDisk(Point(j, i), c) then code else old(mask[i, j])
      {
        if InDisk(Point(x, y), c) {
          mask[y, x] := code;
        }
        x := x + 1;
      }
    }

    /** Corner and shape of the view `overlay[cropTl.y:cropBr.y, cropTl.x:cropBr.x]`. */
    function ViewTop(overlay: array2<Bgra>): nat { SliceBound(cropTl.y, overlay.Length0) }
    function ViewLeft(overlay: array2<Bgra>): nat { SliceBound(cropTl.x, overlay.Length1) }
    function ViewRows(overlay: array2<Bgra>): nat { SliceLen(cropTl.y, cropBr.y, overlay.Length0) }
    function ViewCols(overlay: array2<Bgra>): nat { SliceLen(cropTl.x, cropBr.x, overlay.Length1) }

    /** The overlay pixel at row `i`, column `j` lies in the crop's view. */
    predicate InView(overlay: array2<Bgra>, i: int, j: int)
    {
      ViewTop(overlay) <= i < ViewTop(overlay) + ViewRows(overlay) &&
      ViewLeft(overlay) <= j < ViewLeft(overlay) + ViewCols(overlay)
    }

    /** Writes the mask's colours into the crop's view of the overlay. numpy
        reshapes the looked-up colours to the view's shape, which raises
        ValueError (and writes nothing) when the cell counts differ. */
    method DrawOverlay(overlay: array2<Bgra>) returns (ok: bool)
      requires Valid()
      modifies overlay
      ensures ok <==> Rows() * Cols() == ViewRows(overlay) * ViewCols(overlay)
      ensures Cells(overlay) ==
        if ok then Render(old(Cells(overlay)), MaskColors(Cells(mask), Rows(), Cols()),
                          ViewTop(overlay), ViewLeft(overlay), ViewRows(overlay), ViewCols(overlay))
        else old(Cells(overlay))
      // when mask and view have one shape: the view shows the mask, the rest is untouched
      ensures ok && Rows() == ViewRows(overlay) && Cols() == ViewCols(overlay) ==>
        forall i, j :: 0 <= i < overlay.Length0 && 0 <= j < overlay.Length1 ==>
          overlay[i, j] == if InView(overlay, i, j) then ColorOf(mask[i - ViewTop(overlay), j - ViewLeft(overlay)])
                           else old(overlay[i, j])
    {
      var top, left := ViewTop(overlay), ViewLeft(overlay);
      var rows, cols := ViewRows(overlay), ViewCols(overlay);
      if mask.Length0 * mask.Length1 != rows * cols {
        return false;
      }
      var colors := MaskColors(Cells(mask), mask.Length0, mask.Length1);
      ghost var before := Cells(overlay);
      var i := 0;
      while i < rows
        invariant 0 <= i <= rows
        invariant forall r, s :: 0 <= r < overlay.Length0 && 0 <= s < overlay.Length1 ==>
          overlay[r, s] == if top <= r < top + i && left <= s < left + cols
                           then FlatAt(colors, rows, cols, r - top, s - left) else before[r][s]
      {
        CopyViewRow(overlay, colors, top, left, rows, cols, i);
        i := i + 1;
      }
      ok := true;
      var after := Render(before, colors, top, left, rows, cols);
      GridEq(Cells(overlay), after, overlay.Length0, overlay.Length1);
      if Rows() == rows && Cols() == cols {
        forall r, s | 0 <= r < overlay.Length0 && 0 <= s < overlay.Length1 && InView(overlay, r, s)
          ensures overlay[r, s] == ColorOf(mask[r - top, s - left])
        {
          RenderShowsMask(before, Cells(mask), top, left, rows, cols, r, s);
        }
      }
    }
  }

  /** Writes row `i` of the `rows` by `cols` colours `flat` (row-major) into
      row `top + i` of the view whose corner is (`top`, `left`). */
  method CopyViewRow(overlay: array2<Bgra>, flat: seq<Bgra>, top: nat, left: nat, rows: nat, cols: nat, i: nat)
    requires |flat| == rows * cols && i < rows
    requires top + rows <= overlay.Length0 && left + cols <= overlay.Length1
    modifies overlay
    ensures forall r, s :: 0 <= r < overlay.Length0 && 0 <= s < overlay.Length1 ==>
      overlay[r, s] == if r == top + i && left <= s < left + cols then FlatAt(flat, rows, cols, i, s - left)
                       else old(overlay[r, s])
  {
    var j := 0;
    while j < cols
      invariant 0 <= j <= cols
      invariant forall r, s :: 0 <= r < overlay.Length0 && 0 <= s < overlay.Length1 ==>
        overlay[r, s] == if r == top + i && left <= s < left + j then FlatAt(flat, rows, cols, i, s - left)
                         else old(overlay[r, s])
    {
      overlay[top + i, left + j] := FlatAt(flat, rows, cols, i, j);
      j := j + 1;
    }
  }
}
