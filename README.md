# GrabCut labelling backend, modelled in Dafny

This project models the core of the labelling backend of `label_grab`. That is an interactive tool in which the user marks a region of interest (ROI) on a photo. OpenCV's GrabCut then segments the ROI into object and background. The user corrects the result with foreground and background scribbles. Each change is drawn as a translucent colour overlay over the photo.

The model covers four parts of `label_grab/label_backend.py`:

- **Crop and ROI arithmetic** (`geometry.dfy`, module `Geometry`)
  - The crop rectangle is the ROI widened by a 32-pixel margin, with each side clamped to the image on its own.
  - Points move into crop-local coordinates.
  - The rules numpy applies when an axis is sliced with `start:stop` are spelled out: negative bounds count from the end, then the bound is clamped.
- **Label mask and scribbles** (`labels.dfy`, module `Labels`, on values)
  - The four mask codes.
  - The label tag is looked up with Python list indexing, so negative tags are accepted.
  - A scribble is a filled disk of radius 5, clipped to the mask.
  - `cv2.grabCut` is modelled by its effect on the mask:
    - In rectangle mode, the mask is reseeded from the clipped rectangle.
    - The call fails unless both colour models can be fitted.
    - The passes only relabel probable cells.
    - How the segmentation decides each probable cell is a parameter, `EngineRun`. It says whether the library refused its input, raised during its passes or finished, and on which side of the cut each probable cell fell.
- **Overlay rendering** (`colors.dfy`, module `Colors`)
  - `bgr` and the four-entry `COLOR_TABLE`, in the byte order of a little-endian `Format_ARGB32` image.
  - What `overlay_crop[:] = COLOR_TABLE[mask.reshape(-1)].reshape(overlay_crop.shape)` does. The colours are listed row-major and written row-major into the view. When the cell counts differ, numpy raises and nothing is written.
- **The session controller** (`grabcut.dfy` and `backend.dfy`, modules `GrabCut` and `Backend`)
  - `GrabCutInstance` is a class. Its mask is an `array2` that scribbles and the library rewrite in place.
  - `DrawOverlay` writes into the shared overlay `array2` with loops.
  - `LabelBackend` holds the photo, the resolution, the overlay and the current instance. `SetRoi` and `PaintCircle` catch every failure, as `set_roi` and `paint_circle` do: a failure stops the entry point where it happens, keeps what had already changed, and skips the "overlay updated" notification.

`grids.dfy` (module `Grids`) views an `array2` as a sequence of rows. It also proves where row-major flattening puts each cell. Each imperative method is proved against a function on these grids. The properties of the source are lemmas about those functions.

Exceptions become results: `ok` on an instance method, and `emitted` on a backend entry point. `emitted` is true exactly when the source reaches `OverlayUpdated.emit()`.

`set_image_path` does not reset `self.instance`, so the instance built for the previous photo stays current (`Backend.LabelBackend.SetImage` ensures `instance == old(instance)`). Consequences of keeping the old instance:

- It can hold a crop of the previous photo.
- Its next drawing fails when its cell count does not match the new overlay's view. `Backend.LabelBackend.PaintCircle` states this case.

## Model

| member | source | states |
|---|---|---|
| Geometry.CropRect | label_grab/label_backend.py:171-176 | The crop never starts left of or above the image and never ends past its right or bottom edge; its corners may still lie outside the image for an ROI outside it. Each side on its own either keeps the full 32-pixel margin or stops at the image border, and then only because the margin would cross it. |
| Geometry.CropContainsRoi | label_grab/label_backend.py:171-176 | For an ROI inside the image, `0 <= crop_tl <= roi_tl` and `roi_br <= crop_br <= resolution`. |
| Geometry.CropClampsPerSide | label_grab/label_backend.py:171-176 | An ROI whose left side lies within the margin of x = 0 (negative included) gives a crop left edge of 0. The clamp never shifts the crop: the right edge still keeps its full margin when that fits in the image. |
| Geometry.LocalRoiInCrop | label_grab/label_backend.py:52-53 | The crop-local ROI of an in-image ROI has non-negative corners. Its bottom-right corner is at most the crop's extent. |
| Geometry.SliceBound | label_grab/label_backend.py:55 | A numpy slice bound lies in `[0, n]`. It is the bound itself when in range, counts from the end when negative, and is clamped otherwise. |
| Geometry.SliceLen | label_grab/label_backend.py:55 | The length of a numpy slice fits after its start. It is `stop - start` for in-range bounds, and positive only when the clamped start precedes the clamped stop. |
| Geometry.CropSliceIsCrop | label_grab/label_backend.py:55-64 | For an in-image ROI, slicing the photo with the crop starts at the crop corner. The slice has exactly the crop rectangle's shape. |
| Grids.RowMajorLength | label_grab/label_backend.py:97 | `reshape(-1)` of a rows-by-cols grid lists rows*cols cells. |
| Grids.RowMajorAt | label_grab/label_backend.py:97 | `reshape(-1)` puts the cell at row i, column j at position i*cols + j. |
| Labels.PyIndex | label_grab/label_backend.py:88 | Python list indexing succeeds exactly for `-len <= k < len`, and a negative index counts from the end. |
| Labels.LabelCode | label_grab/label_backend.py:88 | `[GC_BGD, GC_FGD][label]` is GC_BGD exactly for tags 0 and -2 and GC_FGD exactly for 1 and -1. It fails for every other tag and always gives a sure code. |
| Labels.Zeros | label_grab/label_backend.py:64 | The freshly allocated mask has the requested shape. |
| Labels.DiskInBox | label_grab/label_backend.py:91 | Every cell of a radius-5 disk lies within 5 rows and 5 columns of the centre. |
| Labels.PaintDisk | label_grab/label_backend.py:86-91 | Painting keeps the mask's shape. |
| Labels.PaintWritesDiskOnly | label_grab/label_backend.py:86-91 | Painting writes the code on every in-mask cell within radius 5 of the centre and leaves every other cell unchanged. |
| Labels.PaintOffMaskIsNoop | label_grab/label_backend.py:91 | A disk that misses every cell of the mask is clipped away without error and changes nothing. |
| Labels.PaintOffSquareIsNoop | label_grab/label_backend.py:91 | In particular, a disk whose bounding square lies outside the mask changes nothing. |
| Labels.PaintLastWins | label_grab/label_backend.py:88-91 | Two scribbles at one point leave what the second one painted. |
| Labels.BackgroundOverForeground | label_grab/label_backend.py:149-150 | A background scribble after a foreground scribble at one point leaves that cell GC_BGD. This holds after the refinement that follows it, whatever happened in between. |
| Labels.RectInit | label_grab/label_backend.py:64-72 | The rectangle-mode seed has the mask's shape. |
| Labels.RectInitInBounds | label_grab/label_backend.py:64-72 | For a rectangle inside the mask, the seed is GC_PR_FGD inside the rectangle and GC_BGD outside it. |
| Labels.Relabel | label_grab/label_backend.py:76-83 | The library's passes keep the mask's shape. |
| Labels.RelabelKeepsBackground | label_grab/label_backend.py:76-83 | After the passes, a cell is GC_BGD exactly when it was before. |
| Labels.GrabCutEffect | label_grab/label_backend.py:65-83 | Describes one `cv2.grabCut` call. (1) The shape is kept. (2) A refused call changes nothing. (3) The call returns normally exactly when it finishes and its seed has both a background-class and a foreground-class cell. (4) In mask mode, sure cells are hard constraints and probable cells stay probable. (5) In rectangle mode, a cell is not GC_BGD exactly when it lies in the clipped rectangle. |
| Labels.ScribbleSurvivesUpdate | label_grab/label_backend.py:149-150 | Every cell of a scribble keeps its sure code through the refinement that follows, however the library ends. |
| Labels.WholeImageNeverSeeds | label_grab/label_backend.py:171-179 | The ROI covering the whole image makes the crop the whole image and seeds GC_PR_FGD everywhere. That seed has no background cell, so the library can never fit it. |
| Labels.InBoundsRoiSeeds | label_grab/label_backend.py:171-179 | An in-image ROI with area, other than the whole image, gives a rectangle seed that the library can fit both colour models to. |
| Colors.BgrIsArgb32 | label_grab/label_backend.py:33-34 | `bgr(r, g, b, a)` laid out in memory is read by a little-endian machine as the ARGB32 word 0xAARRGGBB of that colour. |
| Colors.ColorTableWords | label_grab/label_backend.py:39-44 | The display reads each `COLOR_TABLE` entry as the ARGB32 word of the colour given to `bgr` (for example 0xAFFA280A for sure background), with red in the third byte and opacity in the top byte. |
| Colors.ColorTableMeaning | label_grab/label_backend.py:39-44 | The four table entries are distinct. Background codes are redder than green. Foreground codes are at least as green as red. Sure codes have opacity 175 and probable codes 128. |
| Colors.LookUp | label_grab/label_backend.py:97 | `COLOR_TABLE[codes]` has one colour per code. |
| Colors.MaskColors | label_grab/label_backend.py:97 | The flattened colours of a rows-by-cols mask number rows*cols. |
| Colors.Render | label_grab/label_backend.py:97 | Writing into a view keeps the overlay's shape. |
| Colors.RenderConfined | label_grab/label_backend.py:94-97 | Every pixel outside the crop's view keeps its value. |
| Colors.RenderShowsMask | label_grab/label_backend.py:94-97 | When the mask has the view's shape, each view pixel is `COLOR_TABLE` of the mask cell under it. |
| Colors.RenderLastWins | label_grab/label_backend.py:94-97 | Drawing twice into one view leaves the second drawing. |
| GrabCut.GrabCutInstance.constructor | label_grab/label_backend.py:46-55 | The instance keeps the photo and the crop corners, with the ROI moved into crop-local coordinates. |
| GrabCut.GrabCutInstance.GrabCutInit | label_grab/label_backend.py:58-72 | Allocates a fresh mask of the photo crop's shape. Leaves it as the rectangle-mode call on a zero mask does. Succeeds exactly when the library finishes and the ROI seed can be fitted. |
| GrabCut.GrabCutInstance.GrabCutUpdate | label_grab/label_backend.py:75-83 | Leaves the mask and the outcome of a mask-mode call on the current mask. |
| GrabCut.GrabCutInstance.PaintCircle | label_grab/label_backend.py:86-91 | Fails, with the mask unchanged, exactly when the tag does not index `[GC_BGD, GC_FGD]`. Otherwise the mask becomes the old mask with the clipped disk painted around the crop-local centre. |
| GrabCut.GrabCutInstance.DrawOverlay | label_grab/label_backend.py:94-97 | Succeeds exactly when the mask and the crop's view have equal cell counts. It then writes the mask's colours row-major into the view and nothing else. When the shapes also match, every view pixel is `COLOR_TABLE` of its mask cell and every other pixel is unchanged. On failure nothing changes. |
| Backend.CropMaskSeeds | label_grab/label_backend.py:171-179 | For an in-image ROI, the crop of the photo has the crop rectangle's shape. Its seed can be fitted when the ROI has area and is not the whole image, and never when the ROI is the whole image. |
| Backend.LabelBackend.constructor | label_grab/label_backend.py:126-129 | A new session has no photo, overlay or instance. |
| Backend.LabelBackend.SetImage | label_grab/label_backend.py:132-139 | Records the photo and its (width, height). Allocates a transparent overlay of the photo's size, keeps the current instance, and notifies. |
| Backend.LabelBackend.SetRoi | label_grab/label_backend.py:160-186 | Without a photo, nothing changes and there is no notification. Otherwise: (1) a fresh instance replaces the old one, whatever follows; (2) the instance has the clamped crop and, for an in-image ROI, a mask of the crop's shape; (3) the mask holds the rectangle-mode result; (4) the overlay is redrawn and the UI notified exactly when segmentation succeeds; (5) an in-image ROI with area, short of the whole image, always succeeds when the library finishes; (6) the whole image as ROI never succeeds. |
| Backend.LabelBackend.PaintCircle | label_grab/label_backend.py:142-157 | Without an instance, the overlay is unchanged and there is no notification. A bad tag changes nothing. Otherwise the mask is the scribbled mask refined in mask mode. The overlay is redrawn and the UI notified exactly when the refinement succeeds and the view's cell count matches. |

## Left out

- `cv2.grabCut`'s segmentation (Gaussian mixture fitting, min-cut, the float64 model state of lines 59-62) is floating-point work in a foreign library. An `EngineRun` parameter stands for its decisions. The model keeps the parts that determine the mask: rectangle seeding and clipping, the check that both colour models have samples, and that sure cells are kept.
- The segmentation library's other reasons to fail, such as a photo that is not 8-bit with three channels, are not derived from the photo. `EngineRun.Refused` and `EngineRun.Raised` stand for them.
- `cv2.circle`'s rasterisation of a radius-5 filled circle is abstracted as the cells with dx*dx + dy*dy <= 25 (`Labels.InDisk`).
- `np.rint` rounding of the floating-point UI coordinates (lines 147, 169): the model takes integer points. Those lines also call `.astype(np.int)`. NumPy 1.24 removed the `np.int` alias, so with NumPy 1.24 or later every `paint_circle` and `set_roi` raises there, the handler swallows it, and nothing changes. The model assumes an older NumPy, where `np.int` is Python's `int`.
- Reading the photo file with `imageio` (line 133): `Backend.LabelBackend.SetImage` takes the decoded photo. `set_image_path` has no `try`, so a load failure reaches its caller; that path is not modelled.
- `LabelOverlayImageProvider` (lines 11-30): QImage allocation, the byte view and `requestImage` are Qt plumbing. Only the zero-filled overlay of the photo's size (line 26) is modelled, as the `overlay` array.
- Qt signal and slot wiring: `OverlayUpdated.emit()` is the `emitted` result.
- `print` and `traceback` logging.
- The commented-out timing experiment (lines 99-118).
- The width of numpy integers (int64 coordinates, the uint8 mask and overlay) is not modelled. Coordinates are unbounded integers; mask and overlay values are kept in range by their types.
