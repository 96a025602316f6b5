/**
 * The part of a PIL image that the two apps look at: its mode, its size, its
 * 8-bit luminance (what `convert('L')` makes of it) and its `filename`.
 *
 * PIL's arithmetic is not modelled. The luminance formula of `convert('L')`
 * is PIL's, so an image simply carries its luminance. The resampling filters
 * (LANCZOS, NEAREST) produce pixels this model does not compute: `Resampled`
 * records which filter ran on which pixels, and `resize` is only known to
 * give the size it was asked for.
 */
module Raster {

  /** `img.size`, the pair `(width, height)`. */
  datatype Size = Size(width: nat, height: nat)

  /** `max(img.size)`. */
  function Longest(s: Size): (m: nat)
    ensures m >= s.width && m >= s.height
    ensures m == s.width || m == s.height
  {
    if s.width >= s.height then s.width else s.height
  }

  /** `img.mode`; only 'RGBA' changes what the apps do. */
  datatype Mode = L | RGB | RGBA | OtherMode(name: string)

  datatype Filter = Lanczos | Nearest

  /** An image's luminance, row by row. */
  datatype Pixels =
    | Samples(rows: seq<seq<int>>)              // known values
    | Resampled(filter: Filter, source: Pixels) // PIL's `resize` output; values not modelled
    | Thresholded(source: Pixels)               // the ROI threshold over values not modelled

  /** A PIL image; `filename` is "" when the image has none (or an empty one). */
  datatype Image = Image(mode: Mode, size: Size, pixels: Pixels, filename: string)

  /** Luminance above this counts as painted ROI (the `p > 20` of both apps). */
  const RoiThreshold: int := 20
  /** Mask value of a ROI pixel. */
  const Roi: int := 255
  /** Mask value of a background pixel. */
  const NotRoi: int := 0

  /** `rows` is a `size.height` by `size.width` grid of 8-bit values. */
  predicate IsGrid(rows: seq<seq<int>>, size: Size) {
    && |rows| == size.height
    && forall r :: 0 <= r < |rows| ==>
         |rows[r]| == size.width && forall c :: 0 <= c < |rows[r]| ==> 0 <= rows[r][c] <= 255
  }

  /** Known pixel values fit the image's size and the 8-bit range. */
  predicate ValidPixels(p: Pixels, size: Size) {
    match p
    case Samples(rows) => IsGrid(rows, size)
    case Resampled(_, _) => true
    case Thresholded(source) => ValidPixels(source, size)
  }

  predicate Valid(img: Image) {
    ValidPixels(img.pixels, img.size)
  }

  /** Every value is 0 or 255; values the model does not know count only after a threshold. */
  predicate IsBinary(p: Pixels) {
    match p
    case Samples(rows) =>
      forall r, c :: 0 <= r < |rows| && 0 <= c < |rows[r]| ==> rows[r][c] == NotRoi || rows[r][c] == Roi
    case Resampled(_, _) => false
    case Thresholded(_) => true
  }

  predicate IsAllZero(p: Pixels) {
    p.Samples? && forall r, c :: 0 <= r < |p.rows| && 0 <= c < |p.rows[r]| ==> p.rows[r][c] == 0
  }

  /** `Image.new('L', size, 0)`. */
  function Blank(size: Size): (img: Image)
    ensures img.mode == L && img.size == size && Valid(img)
    ensures IsAllZero(img.pixels)
  {
    Image(L, size, Samples(seq(size.height, _ => seq(size.width, _ => 0))), "")
  }

  /** `img.convert('L')`: the luminance stays, the mode becomes 'L'. */
  function ToGray(img: Image): (gray: Image)
    ensures gray.mode == L && gray.size == img.size && gray.pixels == img.pixels
  {
    Image(L, img.size, img.pixels, "")
  }

  /** The lambda `255 if p > 20 else 0` passed to `point`. */
  function Binarize(p: int): int {
    if p > RoiThreshold then Roi else NotRoi
  }

  function BinarizeRows(rows: seq<seq<int>>): (out: seq<seq<int>>)
    ensures |out| == |rows|
    ensures forall r :: 0 <= r < |rows| ==> |out[r]| == |rows[r]|
    ensures forall r, c :: 0 <= r < |rows| && 0 <= c < |rows[r]| ==> out[r][c] == Binarize(rows[r][c])
  {
    seq(|rows|, r requires 0 <= r < |rows| =>
      seq(|rows[r]|, c requires 0 <= c < |rows[r]| => Binarize(rows[r][c])))
  }

  /** `point(lambda p: 255 if p > 20 else 0)` on an image's pixels. */
  function Threshold(p: Pixels): (r: Pixels)
    ensures IsBinary(r)
    ensures p.Samples? ==> r.Samples? && |r.rows| == |p.rows|
  {
    match p
    case Samples(rows) => Samples(BinarizeRows(rows))
    case Resampled(_, _) => Thresholded(p)
    case Thresholded(_) => p // its values are already 0 or 255, which the lambda keeps
  }

  /** `gray.point(...)` with the ROI threshold. */
  function PointThreshold(gray: Image): (mask: Image)
    ensures mask.mode == gray.mode && mask.size == gray.size
    ensures mask.pixels == Threshold(gray.pixels) && IsBinary(mask.pixels)
  {
    Image(gray.mode, gray.size, Threshold(gray.pixels), "")
  }

  /** `img.resize(size, filter)`: the requested size, pixels computed by PIL. */
  function Resize(img: Image, size: Size, filter: Filter): (r: Image)
    ensures r.size == size && r.mode == img.mode && Valid(r)
  {
    Image(img.mode, size, Resampled(filter, img.pixels), "")
  }

  /** Thresholding keeps the grid's shape and the 8-bit range. */
  lemma ThresholdKeepsValid(p: Pixels, size: Size)
    ensures ValidPixels(p, size) ==> ValidPixels(Threshold(p), size)
  {
  }

  /** A mask pixel is ROI exactly when the luminance under it exceeds the threshold, background otherwise. */
  lemma ThresholdPixel(rows: seq<seq<int>>, r: nat, c: nat)
    requires r < |rows| && c < |rows[r]|
    ensures Threshold(Samples(rows)).rows[r][c] == Roi <==> rows[r][c] > RoiThreshold
    ensures Threshold(Samples(rows)).rows[r][c] == NotRoi <==> rows[r][c] <= RoiThreshold
  {
  }

  /** Thresholding a binary image changes nothing. */
  lemma {:induction false} ThresholdFixesBinary(p: Pixels)
    requires IsBinary(p)
    ensures Threshold(p) == p
  {
    if p.Samples? {
      var out := BinarizeRows(p.rows);
      assert |out| == |p.rows|;
      forall r | 0 <= r < |out| ensures out[r] == p.rows[r] {
        assert |out[r]| == |p.rows[r]|;
      }
    }
  }

  /** Re-thresholding a mask is the identity. */
  lemma ThresholdIdempotent(p: Pixels)
    ensures Threshold(Threshold(p)) == Threshold(p)
  {
    ThresholdFixesBinary(Threshold(p));
  }
}
