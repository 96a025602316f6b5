/**
 * `app.py`: the variant that shows a downscaled copy of a large upload in
 * the editor, remembers the upload's original size in a process-wide
 * registry, and scales the exported mask back to that size.
 */
module ScaledApp {
  import opened Wrappers
  import opened Raster
  import opened Editor
  import opened Decimal

  /** `MAX_IMAGE_SIZE`: the longest side the editor is shown. */
  const MaxImageSize: nat := 1024

  const LoadFailedStatus: string := "Ошибка загрузки"
  const LoadFirstStatus: string := "Сначала загрузите изображение!"
  const NoImageStatus: string := "Нет изображения"
  const ClearedStatus: string := "Разметка очищена"
  const ReadyStatus: string := "Готов к работе"

  function SizeText(s: Size): string {
    NatToString(s.width) + "x" + NatToString(s.height)
  }

  function LoadedStatus(original: Size): string {
    "Загружено (оригинал " + SizeText(original) + ")"
  }

  function SavedStatus(size: Size): string {
    "Маска сохранена (" + SizeText(size) + ")"
  }

  lemma MulCancel(a: int, b: int, m: int)
    requires m > 0 && a * m <= b * m
    ensures a <= b
  {
  }

  lemma MulMono(a: nat, b: nat, m: nat)
    requires a <= b
    ensures a * m <= b * m
  {
  }

  /** `q = x * 1024 / m` rounded down, for `x <= m` and `m > 1024`, lies between 0 and both bounds. */
  lemma ScaleBounds(x: nat, m: nat, q: int)
    requires x <= m && m > MaxImageSize
    requires q == x * MaxImageSize / m
    ensures 0 <= q <= x && q <= MaxImageSize
    ensures q * m <= x * MaxImageSize < (q + 1) * m
  {
    var p := x * MaxImageSize;
    assert p == q * m + p % m && 0 <= p % m < m;
    assert (q + 1) * m == q * m + m;
    MulMono(MaxImageSize, m, x);
    MulMono(x, m, MaxImageSize);
    MulCancel(q, x, m);
    MulCancel(q, MaxImageSize, m);
  }

  /** One side scaled by `1024 / m`, rounded down, for a side `x <= m` and `m > 1024`. */
  function ScaleSide(x: nat, m: nat): (q: nat)
    requires x <= m && m > MaxImageSize
    ensures q <= x && q <= MaxImageSize
    ensures q * m <= x * MaxImageSize < (q + 1) * m
  {
    var r := x * MaxImageSize / m;
    ScaleBounds(x, m, r);
    r
  }

  /**
   * The display size of `resize_if_needed`: unchanged when the longest side
   * is at most 1024, else both sides scaled by `1024 / longest`, rounded down.
   */
  function DisplaySize(s: Size): (d: Size)
    ensures Longest(s) <= MaxImageSize ==> d == s
    ensures Longest(s) > MaxImageSize ==>
      && d.width <= s.width && d.height <= s.height
      && Longest(d) <= MaxImageSize
      && d.width * Longest(s) <= s.width * MaxImageSize < (d.width + 1) * Longest(s)
      && d.height * Longest(s) <= s.height * MaxImageSize < (d.height + 1) * Longest(s)
  {
    var m := Longest(s);
    if m > MaxImageSize then Size(ScaleSide(s.width, m), ScaleSide(s.height, m)) else s
  }

  /** `resize_if_needed`: the image to show in the editor. */
  function ResizeIfNeeded(img: Option<Image>): (r: Option<Image>)
    ensures r.None? <==> img.None?
    ensures img.Some? && Longest(img.value.size) <= MaxImageSize ==> r == img
    ensures img.Some? && Longest(img.value.size) > MaxImageSize ==>
              r == Some(Resize(img.value, DisplaySize(img.value.size), Lanczos))
    ensures img.Some? ==> Longest(r.value.size) <= MaxImageSize && r.value.mode == img.value.mode
  {
    match img
    case None => None
    case Some(i) =>
      if Longest(i.size) > MaxImageSize then Some(Resize(i, DisplaySize(i.size), Lanczos)) else img
  }

  /** Showing an image that is already shown changes nothing. */
  lemma ResizeIfNeededIdempotent(img: Option<Image>)
    ensures ResizeIfNeeded(ResizeIfNeeded(img)) == ResizeIfNeeded(img)
  {
  }

  /** A very narrow upload is shown zero pixels wide: 1x2048 becomes 0x1024. */
  lemma DisplaySizeCanCollapse()
    ensures DisplaySize(Size(1, 2048)) == Size(0, 1024)
  {
  }

  /** The registry key `f"img_{int(time.time())}_{id(img)}"`. */
  function ImageKey(now: nat, objectId: nat): (key: string)
    ensures |key| > 4 && key[..4] == "img_"
    ensures forall i :: 4 <= i < |key| ==> key[i] == '_' || '0' <= key[i] <= '9'
  {
    "img_" + NatToString(now) + "_" + NatToString(objectId)
  }

  /** Two strings joined by a separator that neither left part contains split back uniquely. */
  lemma SplitAtSeparator(x: string, y: string, x': string, y': string, sep: char)
    requires sep !in x && sep !in x'
    requires x + [sep] + y == x' + [sep] + y'
    ensures x == x' && y == y'
  {
    var s := x + [sep] + y;
    assert s[|x|] == sep;
    assert s[|x'|] == sep;
    assert |x| == |x'|;
    assert x == s[..|x|] == x';
    assert y == s[|x| + 1..] == y';
  }

  /** Uploads at different times, or of different objects, get different registry keys. */
  lemma ImageKeyInjective(now: nat, objectId: nat, now': nat, objectId': nat)
    requires ImageKey(now, objectId) == ImageKey(now', objectId')
    ensures now == now' && objectId == objectId'
  {
    var a, b := NatToString(now), NatToString(objectId);
    var a', b' := NatToString(now'), NatToString(objectId');
    assert "img_" + a + "_" + b == "img_" + (a + "_" + b);
    assert "img_" + a' + "_" + b' == "img_" + (a' + "_" + b');
    assert a + "_" + b == (ImageKey(now, objectId))[4..] == a' + "_" + b';
    SplitAtSeparator(a, b, a', b', '_');
    NatToStringInjective(now, now');
    NatToStringInjective(objectId, objectId');
  }

  /** `save_mask`'s output file `/tmp/mask_{int(time.time())}.png`. */
  function MaskPath(now: nat): (path: string)
    ensures |path| > 14 && path[..10] == "/tmp/mask_" && path[|path| - 4..] == ".png"
    ensures IsDigits(path[10..|path| - 4])
  {
    "/tmp/mask_" + NatToString(now) + ".png"
  }

  /** Saves in different seconds write different files; saves in the same second share one. */
  lemma MaskPathInjective(now: nat, now': nat)
    requires MaskPath(now) == MaskPath(now')
    ensures now == now'
  {
    var p, p' := MaskPath(now), MaskPath(now');
    assert p[10..|p| - 4] == NatToString(now);
    assert p'[10..|p'| - 4] == NatToString(now');
    NatToStringInjective(now, now');
  }

  /** The final mask: resized with NEAREST to `target` only when its size differs. */
  function FitToSize(mask: Image, target: Size): (r: Image)
    ensures r.size == target && r.mode == mask.mode
    ensures mask.size == target ==> r == mask
    ensures mask.size != target ==> r.pixels == Resampled(Nearest, mask.pixels)
  {
    if mask.size != target then Resize(mask, target, Nearest) else mask
  }

  /** The editor value's 'img_id', or `None` when there is no editor value. */
  function EditorId(editor: Option<EditorState>): Option<string> {
    if editor.Some? then GetId(editor.value.imgId) else None
  }

  /** `clear_sketch`: a fresh editor value over the shown image that keeps the old 'img_id'. */
  function ClearSketch(image: Option<Image>, current: Option<EditorState>): (out: ClearOutput)
    ensures image.None? ==> out == ClearOutput(None, NoImageStatus, None)
    ensures image.Some? ==> out.status == ClearedStatus && out.file == None && out.editor.Some?
    ensures image.Some? ==>
              && out.editor.value.background == out.editor.value.composite == image
              && out.editor.value.layers == []
    ensures image.Some? ==> EditorId(out.editor) == EditorId(current) && !out.editor.value.imgId.NoIdKey?
  {
    if image.None? then ClearOutput(None, NoImageStatus, None)
    else
      var id := EditorId(current);
      ClearOutput(Some(Unpainted(image.value, if id.Some? then Id(id.value) else NullId)), ClearedStatus, None)
  }

  /** `reset_all`: every output emptied, and the ready status. */
  function ResetAll(): (out: ResetOutput)
    ensures out.image.None? && out.editor.None? && out.file.None? && out.preview.None?
    ensures out.status == ReadyStatus
  {
    ResetOutput(None, None, ReadyStatus, None, None)
  }

  /** The process-wide `original_sizes` dictionary and the handlers that use it. */
  class SizeRegistry {
    var originalSizes: map<string, Size>

    constructor ()
      ensures originalSizes == map[]
    {
      originalSizes := map[];
    }

    /**
     * `load_image`: registers the upload's size under a new key and hands the
     * editor the display copy, tagged with that key.
     */
    method LoadImage(img: Option<Image>, now: nat, objectId: nat) returns (out: LoadOutput)
      modifies this
      ensures img.None? ==>
                originalSizes == old(originalSizes) && out == LoadOutput(None, None, LoadFailedStatus, None)
      ensures img.Some? ==>
                && originalSizes == old(originalSizes)[ImageKey(now, objectId) := img.value.size]
                && out.image == ResizeIfNeeded(img)
                && out.editor == Some(Unpainted(out.image.value, Id(ImageKey(now, objectId))))
                && out.status == LoadedStatus(img.value.size)
                && out.file == None
    {
      if img.None? {
        return LoadOutput(None, None, LoadFailedStatus, None);
      }
      var original := img.value.size;
      var key := ImageKey(now, objectId);
      originalSizes := originalSizes[key := original];
      var display := ResizeIfNeeded(img).value;
      out := LoadOutput(Some(display), Some(Unpainted(display, Id(key))), LoadedStatus(original), None);
    }

    /** `original_sizes.get(img_id, display_img.size)`. */
    function OriginalSize(editor: Option<EditorState>, displaySize: Size): (s: Size)
      reads this
      ensures EditorId(editor).Some? && EditorId(editor).value in originalSizes ==>
                s == originalSizes[EditorId(editor).value]
      ensures EditorId(editor).None? || EditorId(editor).value !in originalSizes ==> s == displaySize
    {
      var id := EditorId(editor);
      if id.Some? && id.value in originalSizes then originalSizes[id.value] else displaySize
    }

    /**
     * `save_mask`: derives the mask at display size, brings it to the
     * registered original size and writes it under a timestamped name.
     */
    function SaveMask(displayImg: Option<Image>, editor: Option<EditorState>, now: nat): (out: SaveOutput)
      reads this
      ensures displayImg.None? ==> out == SaveOutput(None, LoadFirstStatus, None)
      ensures displayImg.Some? ==>
                && out.file == Some(MaskPath(now)) && out.written.Some?
                && out.written.value.size == OriginalSize(editor, displayImg.value.size)
                && out.written.value == FitToSize(MaskFromEditor(editor, displayImg.value.size), out.written.value.size)
                && out.status == SavedStatus(out.written.value.size)
    {
      if displayImg.None? then SaveOutput(None, LoadFirstStatus, None)
      else
        var target := OriginalSize(editor, displayImg.value.size);
        var mask := FitToSize(MaskFromEditor(editor, displayImg.value.size), target);
        SaveOutput(Some(MaskPath(now)), SavedStatus(mask.size), Some(mask))
    }

    /**
     * Load, paint, save: whatever the editor drew on the display copy, the
     * exported mask has the upload's original size.
     */
    method LoadPaintSave(img: Image, now: nat, objectId: nat, layers: seq<Image>, saveTime: nat)
      returns (out: SaveOutput)
      modifies this
      ensures originalSizes == old(originalSizes)[ImageKey(now, objectId) := img.size]
      ensures out.written.Some? && out.written.value.size == img.size
      ensures layers == [] ==> out.written.value == FitToSize(Blank(DisplaySize(img.size)), img.size)
    {
      var loaded := LoadImage(Some(img), now, objectId);
      var painted := loaded.editor.value.(layers := layers);
      out := SaveMask(loaded.image, Some(painted), saveTime);
    }
  }

  /** Clearing a painted editor value gives back exactly the value `load_image` built for it. */
  lemma ClearRestoresLoadedEditor(display: Image, key: string, painted: seq<Image>)
    ensures ClearSketch(Some(display), Some(Unpainted(display, Id(key)).(layers := painted))).editor
         == Some(Unpainted(display, Id(key)))
  {
  }

  /** Clearing the sketch does not change the size the mask is exported at, and leaves it all zero before resizing. */
  lemma ClearKeepsExportSize(registry: SizeRegistry, image: Image, current: Option<EditorState>, now: nat)
    ensures registry.SaveMask(Some(image), ClearSketch(Some(image), current).editor, now).written
         == Some(FitToSize(Blank(image.size), registry.OriginalSize(current, image.size)))
  {
  }
}
