# ROI mask painter — Dafny model

This project models the logic of two small single-page tools that let a user
paint a binary region-of-interest (ROI) mask over an uploaded image and export
it as a grayscale PNG. The two tools are `app.py` and `annotation_app.py`.

- **`app.py`** (module `ScaledApp`) shows large uploads downscaled so that
  the longest side is at most 1024 pixels. It records each upload's original
  size in a process-wide dictionary under a key `img_<seconds>_<object id>`.
  The editor value carries that key. On save, the mask is brought back to the
  recorded size and written to `/tmp/mask_<seconds>.png`. The dictionary is
  the field `originalSizes` of the class `SizeRegistry`. `LoadImage` is a
  method that updates it; `SaveMask` reads it.
- **`annotation_app.py`** (module `AnnotationApp`) edits the upload at full
  size. It names the mask after the upload's file name, or after the time
  when that name is missing or looks like a temporary upload. Its `while` loop
  adds `_1`, `_2`, … until the name is not already on disk. That loop is the
  method `AllocateOutputPath`. The set of paths on disk is a parameter.
- Both tools turn the editor's first paint layer into the mask the same way:
  grayscale, then `255 if p > 20 else 0` when the layer is RGBA. With no
  editor value or no layers, the mask is all zero at the image's size. This
  logic is written once, as `Editor.MaskFromEditor`.

Supporting modules:

- `Raster`: a PIL image as a value (mode, size, luminance, file name).
  `Pixels` records known luminance values, or the output of a PIL
  resampling filter whose values are not computed. So `resize` is only known
  to give the requested size.
- `Decimal`: `str()` of non-negative integers, proved injective.
- `PathText`: `rfind`, POSIX `os.path.basename` and `os.path.splitext`,
  lower-casing, and the substring test.
- `Wrappers`: `Option`, standing for Python's `None`.

Two behaviours of the code worth stating:

- In `annotation_app.py` an exported mask made from a layer has the layer's
  size. Nothing brings it to the upload's size.
- `app.py` brings the mask to the original size with NEAREST resampling. The
  resampled values are not computed here, so the model does not claim that the
  upscaled mask is still binary.

## Model

| member | source | states |
|---|---|---|
| `ScaledApp.DisplaySize` | app.py:27-29 | A size whose longest side is at most 1024 is kept. A larger one becomes `floor(side * 1024 / longest)` on each side. Neither side grows, and the longest new side is at most 1024. |
| `ScaledApp.ResizeIfNeeded` | app.py:22-32 | `None` stays `None`. An image with longest side at most 1024 is returned unchanged. A larger one is resized with LANCZOS to `DisplaySize`, keeping its mode. Every result's longest side is at most 1024. |
| `ScaledApp.ResizeIfNeededIdempotent` | app.py:24-32 | Downscaling an image that is already downscaled changes nothing. |
| `ScaledApp.DisplaySizeCanCollapse` | app.py:28-29 | A 1x2048 upload is shown at 0x1024: rounding down can reach a zero side. |
| `ScaledApp.ImageKey` | app.py:42 | A registry key is `img_` followed only by digits and underscores. |
| `ScaledApp.ImageKeyInjective` | app.py:42 | Two registry keys are equal only when both the second and the object id are equal. |
| `ScaledApp.SizeRegistry.constructor` | app.py:19 | The registry starts empty. |
| `ScaledApp.SizeRegistry.LoadImage` | app.py:35-58 | On `None`: the error tuple, registry untouched. Otherwise it sets the new key's entry to the pre-resize size, overwriting an entry already under that key; other keys are unchanged. It returns the display copy, an editor value with no layers whose background and composite are that copy and whose `img_id` is the new key, and the status with the original size. |
| `ScaledApp.SizeRegistry.OriginalSize` | app.py:71-72 | The size registered under the editor value's `img_id` when there is one. Otherwise, or without an editor value, the display size. |
| `ScaledApp.FitToSize` | app.py:100-105 | The final mask has exactly the target size. It is the mask itself when the sizes already agree, else a NEAREST resampling of it. |
| `ScaledApp.MaskPath` | app.py:108-110 | The output path is `/tmp/mask_`, then decimal digits, then `.png`. |
| `ScaledApp.MaskPathInjective` | app.py:110 | Two saves share an output path only when they happen in the same second. |
| `ScaledApp.SizeRegistry.SaveMask` | app.py:65-117 | Without a display image: `(None, "load first")` and nothing written. Otherwise it writes `/tmp/mask_<t>.png`. The mask written is the derived mask fitted to `OriginalSize`, and the status reports that size. |
| `ScaledApp.SizeRegistry.LoadPaintSave` | app.py:41-105 | Loading an upload, painting any layers on the display copy and saving writes a mask at the upload's original size. With no layers it is the blank display-size mask fitted to that size. |
| `ScaledApp.ClearSketch` | app.py:126-139 | Without an image: `(None, "no image", None)`. Otherwise the layers are emptied, background and composite are the image, and `img_id` is the previous value's (an explicit `None` key when there was none). |
| `ScaledApp.ClearRestoresLoadedEditor` | app.py:130-138 | Clearing a painted editor value gives back exactly the value `load_image` built. |
| `ScaledApp.ClearKeepsExportSize` | app.py:130-137 | After clearing, saving writes the all-zero mask at the size the uncleared value would have used. |
| `ScaledApp.ResetAll` | app.py:142-143 | Image, editor, file and preview are `None`, with the ready status. |
| `Editor.GetId` | app.py:71 | `.get('img_id', None)` gives a value exactly when the key holds an id, and that value is the stored id. |
| `Editor.Unpainted` | app.py:50-55 | The editor dictionary that loading and clearing build: the image as background and composite, no layers, the given `img_id` entry. It has nothing to threshold. |
| `Editor.MaskFromEditor` | app.py:78-97 | The mask is mode 'L'. With no editor value or no layers: all zero at the given size. Otherwise it has the first layer's size and is that layer's luminance, thresholded when the layer is RGBA (binary then) and passed through otherwise. Valid layers give valid masks. |
| `Editor.MaskPixel` | annotation_app.py:41-45 | For an RGBA layer, a mask pixel is 255 exactly when the layer's luminance there exceeds 20. |
| `Editor.MaskIsThresholdFixpoint` | annotation_app.py:41-50 | Thresholding an exported RGBA or blank mask again changes nothing. |
| `Editor.UnpaintedGivesBlankMask` | annotation_app.py:48-50 | An editor value with no layers exports the all-zero mask of the requested size. |
| `Raster.Blank` | app.py:79 | `Image.new('L', size, 0)` is an 'L' image of that size, every pixel 0. |
| `Raster.Threshold` | app.py:91 | The threshold's output holds only 0 and 255. Known pixel rows stay known, one output row per input row. |
| `Raster.PointThreshold` | annotation_app.py:45 | `gray.point(...)` keeps the image's mode and size, and its pixels are the threshold of the input's, so they are binary. |
| `Raster.ThresholdPixel` | app.py:91 | Each output pixel is 255 iff its input exceeds 20, and 0 iff it does not. |
| `Raster.ThresholdFixesBinary` | app.py:91 | The threshold leaves a binary image unchanged. |
| `Raster.ThresholdIdempotent` | annotation_app.py:45 | Thresholding twice equals thresholding once. |
| `Decimal.NatToString` | annotation_app.py:58 | `str(n)` is a non-empty string of decimal digits, one digit exactly when `n < 10`, with no leading zero unless `n` is 0. |
| `Decimal.DigitsValueOfNatToString` | annotation_app.py:58 | Reading back the decimal text of a counter gives the counter. |
| `Decimal.NatToStringInjective` | annotation_app.py:58 | Different counters are written as different text. |
| `PathText.BaseName` | annotation_app.py:22 | The result has no '/' and is the part of the path after its last '/'. |
| `PathText.SplitExt` | annotation_app.py:25 | Root and extension concatenate to the name. The extension is empty, or one dot followed by neither '.' nor '/'. A non-empty extension leaves a non-dot character in the root's file part. Conversely, when the file part has a dot preceded by some non-dot character, the extension is not empty. |
| `AnnotationApp.OutputStem` | annotation_app.py:17-25 | With a file name whose basename does not contain "tmp" (case-insensitively), the stem is that basename without its extension. Otherwise it is `image_<seconds>`. The stem never has a '/' and never contains "tmp". |
| `AnnotationApp.TimestampNameNotTemporary` | annotation_app.py:17 | The fallback name `image_<seconds>` never looks temporary. |
| `AnnotationApp.Candidate` | annotation_app.py:53-58 | The first name the save loop tries, `{stem}_mask.png`, is 9 characters longer than the stem. Every numbered name is longer than that. |
| `AnnotationApp.CandidateShape` | annotation_app.py:53-58 | Every candidate is the stem, then `_mask`, then `.` for the first name or `_` and the counter for later ones, then `.png`. |
| `AnnotationApp.CandidateInjective` | annotation_app.py:53-58 | The loop's candidate names `_mask.png`, `_mask_1.png`, … are pairwise different. |
| `AnnotationApp.CandidateHasNoDirectory` | annotation_app.py:53-58 | A candidate built from a stem without '/' is a bare file name. |
| `AnnotationApp.FirstFreeUnique` | annotation_app.py:56-59 | There is only one smallest free candidate index. |
| `AnnotationApp.AllocateOutputPath` | annotation_app.py:53-59 | The loop ends for every finite set of existing paths. It returns a path not on disk: the candidate at the smallest free index, which is at most the number of existing paths. |
| `AnnotationApp.SecondSaveTakesLaterName` | annotation_app.py:56-59 | Once the first save's file exists, a second save with the same stem gets a different name at a larger index. |
| `AnnotationApp.SaveMask` | annotation_app.py:8-62 | Without an image: `(None, "load first")` and nothing written. Otherwise the path is fresh, has no directory part, and is the first free candidate for `OutputStem`. The mask written is all zero at the upload's size when nothing is painted, otherwise the first layer's mask at that layer's size. The status names the path. |
| `AnnotationApp.LoadStatus` | annotation_app.py:93-102 | With a file name the save would use, the status shows its basename. With a temporary-looking name it shows the placeholder. Without a file name it shows the size as `WxH`. |
| `AnnotationApp.LoadImage` | annotation_app.py:89-111 | On `None`: `(None, None, error, None)`. Otherwise the upload itself, an editor value with no layers and no `img_id` key whose background and composite are the upload, the file-name status, and no file. |
| `AnnotationApp.LoadStatusNamesOutput` | annotation_app.py:94-100 | A name the save would use is shown as the output stem plus its extension. A temporary-looking name is shown as the placeholder. |
| `AnnotationApp.ClearSketch` | annotation_app.py:65-79 | Without an image: `(None, message, None)`. Otherwise the layers are emptied, background and composite are the image, and there is no `img_id` key. |
| `AnnotationApp.ClearRestoresLoadedEditor` | annotation_app.py:73-77 | Clearing gives the same editor value as loading the image, whatever was drawn. |
| `AnnotationApp.ResetAll` | annotation_app.py:82-86 | Image, editor, file and preview are `None`, with the ready status. |

## Left out

- The user-interface layout, the button wiring and the preview callback: they are interface glue.
- The request queue and the server launch: they are server and concurrency concerns.
- Unsynchronised access to the registry by concurrent sessions is not modelled.
- PIL's pixel arithmetic is not computed. This covers the luminance formula of `convert('L')` and the values LANCZOS and NEAREST produce. An image carries its luminance, and a resized image is known only by its size and by which filter made it.
- PIL refusing to resize to a zero-sized image is not modelled. `DisplaySizeCanCollapse` shows that such sizes arise.
- ScaledApp.DisplaySize: uses integer floor `side * 1024 / longest` instead of `int(side * (1024 / longest))` in floating point. Float rounding can put a side one below the floor, so only `<= 1024` is claimed for the longest side.
- File-system effects are inputs and outputs. `os.path.exists` is membership in a given set of paths. The saved file is the `written` mask returned by `SaveMask`. Directory creation and `os.path.getsize` are dropped. `time.time()` and `id(img)` are parameters.
- ScaledApp.SizeRegistry.SaveMask: claims nothing about whether `/tmp/mask_<seconds>.png` already exists, because the code does not check.
- Logging, the `print` in `save_mask`, and turning exceptions into status strings are left out.
- The `log_function_call` decorator on the `app.py` handlers is never defined or imported there, so the handlers are modelled undecorated.
- PathText.Lower: lower-cases ASCII letters only. Python's `str.lower` covers all of Unicode.
- Whether the editor component passes the `img_id` key back to `save_mask` depends on the UI framework. The model saves the value it is given.
- An editor value without a 'layers' key acts as one with no layers. An empty dictionary would be falsy in `app.py`'s `if editor_result`; the model always has the keys.
