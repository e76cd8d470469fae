/**
  The labelling session behind the user interface. It holds the photo, its
  resolution, the overlay buffer the display shows and the current
  segmentation instance. Setting the ROI and painting run to completion: a
  failure inside one (an exception in the source) stops it where it
  happens, is swallowed, and leaves whatever had already changed. `emitted`
  says whether the entry point reached its "overlay updated" notification.
*/
module Backend {
  import opened Geometry
  import opened Grids
  import opened Labels
  import opened Colors
  import opened GrabCut

  /** The crop of a photo of `resolution` has the crop rectangle's shape when
      the ROI lies inside the image, and then its rectangle seed can be fitted
      exactly when the ROI has area and is not the whole image (the whole
      image leaves no background cell). */
  lemma CropMaskSeeds(roi: Rect, resolution: Point, rows: nat, cols: nat)
    requires resolution.x >= 0 && resolution.y >= 0
    requires var crop := CropRect(roi, resolution);
      rows == SliceLen(crop.tl.y, crop.br.y, resolution.y) && cols == SliceLen(crop.tl.x, crop.br.x, resolution.x)
    ensures var crop := CropRect(roi, resolution);
      InImage(roi, resolution) ==> rows == crop.br.y - crop.tl.y && cols == crop.br.x - crop.tl.x
    ensures var crop := CropRect(roi, resolution);
      && InImage(roi, resolution) && roi.tl.x < roi.br.x && roi.tl.y < roi.br.y && roi != Rect(Point(0, 0), resolution)
      ==> Seedable(RectInit(rows, cols, ToLocal(roi.tl, crop.tl), ToLocal(roi.br, crop.tl)))
    ensures var crop := CropRect(roi, resolution);
      roi == Rect(Point(0, 0), resolution) ==> !Seedable(RectInit(rows, cols, ToLocal(roi.tl, crop.tl), ToLocal(roi.br, crop.tl)))
  {
    if InImage(roi, resolution) {
      CropSliceIsCrop(roi, resolution);
      if roi.tl.x < roi.br.x && roi.tl.y < roi.br.y && roi != Rect(Point(0, 0), resolution) {
        InBoundsRoiSeeds(roi, resolution);
      }
    }
    if roi == Rect(Point(0, 0), resolution) {
      CropSliceIsCrop(roi, resolution);
      WholeImageNeverSeeds(resolution);
    }
  }

  class LabelBackend {
    var photo: array2?<Rgb>
    /** (width, height) of the photo. */
    var resolution: Point
    /** The overlay buffer; allocated with the photo. */
    var overlay: array2?<Bgra>
    var instance: GrabCutInstance?

    /** Photo and overlay come together and have one shape; an instance
        exists only once a photo does, and its mask is allocated. */
    ghost predicate Valid()
      reads this, instance
    {
      && (photo == null <==> overlay == null)
      && (photo != null ==>
            && resolution == Point(photo.Length1, photo.Length0)
            && overlay.Length0 == photo.Length0 && overlay.Length1 == photo.Length1)
      && (instance != null ==> photo != null && instance.Valid())
    }

    /** The objects a scribble may change besides the overlay: the current mask. */
    ghost function MaskFrame(): set<object>
      reads this, instance
    {
      if instance != null && instance.mask != null then {instance.mask} else {}
    }

    /** A session with no photo, no overlay and no instance. */
    constructor ()
      ensures Valid() && photo == null && overlay == null && instance == null
    {
      photo, overlay, instance := null, null, null;
      resolution := Point(0, 0);
    }

    /** Installs a decoded photo: records its resolution and allocates a
        zero-filled (transparent) overlay of the same size. The current
        instance, if any, is kept. */
    method SetImage(p: array2<Rgb>) returns (emitted: bool)
      requires Valid()
      modifies this
      ensures Valid()
      ensures photo == p && resolution == Point(p.Length1, p.Length0)
      ensures fresh(overlay) && overlay.Length0 == p.Length0 && overlay.Length1 == p.Length1
      ensures forall i, j :: 0 <= i < overlay.Length0 && 0 <= j < overlay.Length1 ==> overlay[i, j] == TRANSPARENT
      ensures instance == old(instance)
      ensures emitted
    {
      photo := p;
      resolution := Point(p.Length1, p.Length0);
      overlay := new Bgra[p.Length0, p.Length1]((i, j) => TRANSPARENT);
      emitted := true;
    }

    /** Starts a new instance for `roi`: crop, instance, seeded segmentation,
        overlay. Before any photo, reading the resolution fails and nothing
        changes. Otherwise the new instance replaces the old one even when the
        segmentation then fails, and the overlay is drawn only when it succeeds. */
    method SetRoi(roi: Rect, run: EngineRun) returns (emitted: bool)
      requires Valid()
      modifies this, overlay
      ensures Valid()
      ensures photo == old(photo) && overlay == old(overlay) && resolution == old(resolution)
      ensures old(photo) == null ==> instance == old(instance) && !emitted
      // an ROI with area inside the image, short of the whole image, is drawn whenever the library runs to the end
      ensures && old(photo) != null && InImage(roi, resolution) && roi.tl.x < roi.br.x && roi.tl.y < roi.br.y
              && roi != Rect(Point(0, 0), resolution) && run.Finished?
              ==> emitted
      // the whole image as ROI is never drawn: its seed has no background cell
      ensures old(photo) != null && roi == Rect(Point(0, 0), resolution) ==> !emitted
      ensures old(photo) != null ==>
        var crop := CropRect(roi, resolution);
        && fresh(instance) && fresh(instance.mask)
        && instance.photo == photo && instance.cropTl == crop.tl && instance.cropBr == crop.br
        && instance.roiTl == ToLocal(roi.tl, crop.tl) && instance.roiBr == ToLocal(roi.br, crop.tl)
        && (InImage(roi, resolution) ==>
              instance.mask.Length0 == crop.br.y - crop.tl.y && instance.mask.Length1 == crop.br.x - crop.tl.x)
        && (Cells(instance.mask), emitted) ==
             GrabCutEffect(Zeros(instance.Rows(), instance.Cols()), instance.Rows(), instance.Cols(),
                           Some(Rect(instance.roiTl, instance.roiBr)), run)
        && Cells(overlay) ==
             if emitted then Render(old(Cells(overlay)), MaskColors(Cells(instance.mask), instance.Rows(), instance.Cols()),
                                    instance.ViewTop(overlay), instance.ViewLeft(overlay),
                                    instance.ViewRows(overlay), instance.ViewCols(overlay))
             else old(Cells(overlay))
    {
      if photo == null {
        return false;
      }
      var crop := CropRect(roi, resolution);
      var inst := new GrabCutInstance(photo, crop, roi);
      instance := inst;
      CropMaskSeeds(roi, resolution, inst.Rows(), inst.Cols());
      var ok := inst.GrabCutInit(run);
      if !ok {
        return false;
      }
      emitted := inst.DrawOverlay(overlay);
    }

    /** Applies a scribble with label tag `tag` at the full-image point
        `center`, refines the segmentation from the mask and redraws the
        overlay. Without an instance, reading it fails and nothing changes; a
        bad tag fails before the mask changes; a failed refinement leaves the
        scribbled mask and the overlay as it was. */
    method PaintCircle(tag: int, center: Point, run: EngineRun) returns (emitted: bool)
      requires Valid()
      modifies overlay, MaskFrame()
      ensures Valid()
      ensures instance == null ==> !emitted && (overlay != null ==> unchanged(overlay))
      ensures instance != null && LabelCode(tag).None? ==>
        !emitted && Cells(instance.mask) == old(Cells(instance.mask)) && Cells(overlay) == old(Cells(overlay))
      ensures instance != null && LabelCode(tag).Some? ==>
        var painted := PaintDisk(old(Cells(instance.mask)), LabelCode(tag).value, ToLocal(center, instance.cropTl));
        var refined := GrabCutEffect(painted, instance.Rows(), instance.Cols(), None, run);
        && Cells(instance.mask) == refined.0
        && emitted == (refined.1 && instance.Rows() * instance.Cols() == instance.ViewRows(overlay) * instance.ViewCols(overlay))
        && Cells(overlay) ==
             if emitted then Render(old(Cells(overlay)), MaskColors(refined.0, instance.Rows(), instance.Cols()),
                                    instance.ViewTop(overlay), instance.ViewLeft(overlay),
                                    instance.ViewRows(overlay), instance.ViewCols(overlay))
             else old(Cells(overlay))
    {
      if instance == null {
        return false;
      }
      var ok := instance.PaintCircle(tag, center);
      if !ok {
        return false;
      }
      ok := instance.GrabCutUpdate(run);
      if !ok {
        return false;
      }
      emitted := instance.DrawOverlay(overlay);
    }
  }
}
