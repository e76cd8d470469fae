/**
  Integer geometry of a labelling session: pixel positions, rectangles, the
  crop rectangle derived from a region of interest (ROI), the move into
  crop-local coordinates, and the rules numpy applies when an axis is sliced
  with `start:stop`.
*/
module Geometry {

  /** A pixel position; `x` is the column and `y` the row. */
  datatype Point = Point(x: int, y: int) {
    function Plus(o: Point): Point { Point(x + o.x, y + o.y) }
    function Minus(o: Point): Point { Point(x - o.x, y - o.y) }
  }

  /** A rectangle by its top-left and bottom-right corners; the bottom-right
      corner is exclusive, as it is when the pair is used to slice an array. */
  datatype Rect = Rect(tl: Point, br: Point)

  /** Pixels added to each side of the ROI to form the crop. */
  const MARGIN := 32

  function Max(a: int, b: int): int { if a < b then b else a }
  function Min(a: int, b: int): int { if a < b then a else b }

  /** The ROI is a (possibly empty) rectangle inside an image of the given
      resolution (width, height). */
  predicate InImage(roi: Rect, resolution: Point)
  {
    && 0 <= roi.tl.x <= roi.br.x <= resolution.x
    && 0 <= roi.tl.y <= roi.br.y <= resolution.y
  }

  /** The crop rectangle `set_roi` derives from an ROI: the ROI widened by
      MARGIN, and each side clamped on its own to `[0, resolution]`. */
  function CropRect(roi: Rect, resolution: Point): (crop: Rect)
    // the crop never starts left of or above the image, and never ends past it
    ensures 0 <= crop.tl.x && 0 <= crop.tl.y
    ensures crop.br.x <= resolution.x && crop.br.y <= resolution.y
    // each side keeps its full margin or stops at the image border, on its own
    ensures crop.tl.x == roi.tl.x - MARGIN || (crop.tl.x == 0 && roi.tl.x < MARGIN)
    ensures crop.tl.y == roi.tl.y - MARGIN || (crop.tl.y == 0 && roi.tl.y < MARGIN)
    ensures crop.br.x == roi.br.x + MARGIN || (crop.br.x == resolution.x && resolution.x < roi.br.x + MARGIN)
    ensures crop.br.y == roi.br.y + MARGIN || (crop.br.y == resolution.y && resolution.y < roi.br.y + MARGIN)
  {
    Rect(Point(Max(roi.tl.x - MARGIN, 0), Max(roi.tl.y - MARGIN, 0)),
         Point(Min(roi.br.x + MARGIN, resolution.x), Min(roi.br.y + MARGIN, resolution.y)))
  }

  /** An ROI inside the image lies inside its crop, and the crop inside the image. */
  lemma CropContainsRoi(roi: Rect, resolution: Point)
    requires InImage(roi, resolution)
    ensures var crop := CropRect(roi, resolution);
      && 0 <= crop.tl.x <= roi.tl.x && 0 <= crop.tl.y <= roi.tl.y
      && roi.br.x <= crop.br.x <= resolution.x && roi.br.y <= crop.br.y <= resolution.y
  {
  }

  /** A left side of the ROI within the margin of the border gives a crop
      left edge of 0, and the clamp does not shift the crop: its right edge
      still keeps the full margin when that fits in the image. */
  lemma CropClampsPerSide(roi: Rect, resolution: Point)
    requires roi.tl.x < MARGIN
    ensures CropRect(roi, resolution).tl.x == 0
    ensures roi.br.x + MARGIN <= resolution.x ==> CropRect(roi, resolution).br.x == roi.br.x + MARGIN
  {
  }

  /** Moves a full-image point into the coordinates of a crop whose top-left
      corner is `origin`. */
  function ToLocal(p: Point, origin: Point): Point
  {
    p.Minus(origin)
  }

  /** The crop-local ROI of an ROI inside the image starts at or after the
      crop's corner and ends at or before the crop's extent. */
  lemma LocalRoiInCrop(roi: Rect, resolution: Point)
    requires InImage(roi, resolution)
    ensures var crop := CropRect(roi, resolution);
      var tl, br := ToLocal(roi.tl, crop.tl), ToLocal(roi.br, crop.tl);
      && 0 <= tl.x && 0 <= tl.y
      && br.x <= crop.br.x - crop.tl.x && br.y <= crop.br.y - crop.tl.y
  {
  }

  /** Where numpy puts a slice bound `k` on an axis of length `n`: a negative
      bound counts from the end, then the bound is clamped to `[0, n]`. */
  function SliceBound(k: int, n: nat): (b: nat)
    ensures b <= n
    ensures 0 <= k <= n ==> b == k
    ensures n < k ==> b == n
    ensures k < 0 <= k + n ==> b == k + n
    ensures k + n < 0 ==> b == 0
  {
    if k < 0 then Max(k + n, 0) else Min(k, n)
  }

  /** The length of the numpy slice `start:stop` on an axis of length `n`. */
  function SliceLen(start: int, stop: int, n: nat): (len: nat)
    ensures SliceBound(start, n) + len <= n
    ensures 0 <= start <= stop <= n ==> len == stop - start
    ensures len > 0 ==> SliceBound(start, n) < SliceBound(stop, n)
  {
    var lo, hi := SliceBound(start, n), SliceBound(stop, n);
    if hi < lo then 0 else hi - lo
  }

  /** For an ROI inside the image, slicing the photo (rows `height`, columns
      `width`) with the crop gives exactly the crop's shape, starting at the
      crop's corner. */
  lemma CropSliceIsCrop(roi: Rect, resolution: Point)
    requires InImage(roi, resolution)
    ensures var crop := CropRect(roi, resolution);
      && resolution.x >= 0 && resolution.y >= 0
      && SliceBound(crop.tl.y, resolution.y) == crop.tl.y
      && SliceBound(crop.tl.x, resolution.x) == crop.tl.x
      && SliceLen(crop.tl.y, crop.br.y, resolution.y) == crop.br.y - crop.tl.y
      && SliceLen(crop.tl.x, crop.br.x, resolution.x) == crop.br.x - crop.tl.x
  {
  }
}
