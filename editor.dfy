/**
 * The image editor's value as both apps read and build it — a dictionary with
 * 'background', 'layers', 'composite' and, in `app.py`, 'img_id' — and the
 * mask derivation the two `save_mask` functions share.
 */
module Editor {
  import opened Wrappers
  import opened Raster

  /** The 'img_id' entry: no such key, the key holding `None`, or an id. */
  datatype IdEntry = NoIdKey | NullId | Id(key: string)

  /** `state.get('img_id', None)`. */
  function GetId(e: IdEntry): (id: Option<string>)
    ensures id.Some? <==> e.Id?
    ensures e.Id? ==> id == Some(e.key)
  {
    if e.Id? then Some(e.key) else None
  }

  /** An editor dictionary; `layers` is `state.get('layers', [])`. */
  datatype EditorState = EditorState(
    background: Option<Image>,
    layers: seq<Image>,
    composite: Option<Image>,
    imgId: IdEntry)

  /** The dictionary `load_image` and `clear_sketch` build: the image as background and composite, no layers. */
  function Unpainted(img: Image, id: IdEntry): (s: EditorState)
    ensures s.background == s.composite == Some(img) && s.layers == [] && s.imgId == id
    ensures NoSketch(Some(s))
  {
    EditorState(Some(img), [], Some(img), id)
  }

  /** No editor value, or one without layers: there is nothing to threshold. */
  predicate NoSketch(editor: Option<EditorState>) {
    editor.None? || |editor.value.layers| == 0
  }

  /** The layer the mask is made from: `layers[0]`. */
  function SketchLayer(editor: Option<EditorState>): Image
    requires !NoSketch(editor)
  {
    editor.value.layers[0]
  }

  /**
   * The mask both `save_mask` functions derive before saving: an all-zero
   * 'L' image of `size` when there is no sketch; else the first layer in
   * grayscale, thresholded at 20 when that layer is 'RGBA'.
   */
  function MaskFromEditor(editor: Option<EditorState>, size: Size): (mask: Image)
    ensures mask.mode == L
    ensures NoSketch(editor) ==> mask.size == size && IsAllZero(mask.pixels)
    ensures !NoSketch(editor) ==> mask.size == SketchLayer(editor).size
    ensures !NoSketch(editor) && SketchLayer(editor).mode == RGBA ==>
              mask.pixels == Threshold(SketchLayer(editor).pixels)
    ensures !NoSketch(editor) && SketchLayer(editor).mode != RGBA ==>
              mask.pixels == SketchLayer(editor).pixels
    ensures NoSketch(editor) || SketchLayer(editor).mode == RGBA ==> IsBinary(mask.pixels)
    ensures !NoSketch(editor) && Valid(SketchLayer(editor)) ==> Valid(mask)
  {
    if NoSketch(editor) then Blank(size)
    else
      var layer := SketchLayer(editor);
      if layer.mode == RGBA then
        ThresholdKeepsValid(layer.pixels, layer.size);
        PointThreshold(ToGray(layer))
      else ToGray(layer)
  }

  /** An exported mask pixel of an RGBA sketch is ROI exactly where the sketch's luminance exceeds 20. */
  lemma MaskPixel(editor: Option<EditorState>, size: Size, r: nat, c: nat)
    requires !NoSketch(editor) && SketchLayer(editor).mode == RGBA
    requires SketchLayer(editor).pixels.Samples?
    requires r < |SketchLayer(editor).pixels.rows| && c < |SketchLayer(editor).pixels.rows[r]|
    ensures MaskFromEditor(editor, size).pixels.Samples?
    ensures (MaskFromEditor(editor, size).pixels.rows[r][c] == Roi) <==>
            (SketchLayer(editor).pixels.rows[r][c] > RoiThreshold)
  {
    ThresholdPixel(SketchLayer(editor).pixels.rows, r, c);
  }

  /** Thresholding the exported mask of an RGBA sketch once more changes nothing. */
  lemma MaskIsThresholdFixpoint(editor: Option<EditorState>, size: Size)
    requires NoSketch(editor) || SketchLayer(editor).mode == RGBA
    ensures Threshold(MaskFromEditor(editor, size).pixels) == MaskFromEditor(editor, size).pixels
  {
    ThresholdFixesBinary(MaskFromEditor(editor, size).pixels);
  }

  /** A freshly loaded or cleared editor exports the all-zero mask of the size asked for. */
  lemma UnpaintedGivesBlankMask(img: Image, id: IdEntry, size: Size)
    ensures MaskFromEditor(Some(Unpainted(img, id)), size) == Blank(size)
  {
  }

  /** `load_image`'s return tuple: image, editor value, status, output file. */
  datatype LoadOutput = LoadOutput(
    image: Option<Image>,
    editor: Option<EditorState>,
    status: string,
    file: Option<string>)

  /** `save_mask`'s return tuple, with the mask it wrote to `file` (`None` when nothing was written). */
  datatype SaveOutput = SaveOutput(file: Option<string>, status: string, written: Option<Image>)

  /** `clear_sketch`'s return tuple: editor value, status, output file. */
  datatype ClearOutput = ClearOutput(editor: Option<EditorState>, status: string, file: Option<string>)

  /** `reset_all`'s return tuple: image, editor value, status, output file, preview. */
  datatype ResetOutput = ResetOutput(
    image: Option<Image>,
    editor: Option<EditorState>,
    status: string,
    file: Option<string>,
    preview: Option<Image>)
}
