/** Page rasters and the two pixel predicates of the locator: the artifact
    detector (near-black pixels) and the layout-shift detector (pixels whose
    blank/non-blank state flipped and whose new hue is the entity's hue).
    Images are already in cv2's HSV encoding: hue in [0, 180), saturation and
    value in [0, 255]. */
module Images {

  datatype Pixel = Pixel(hue: int, saturation: int, value: int)

  /** Rows of pixels, top to bottom. */
  type Image = seq<seq<Pixel>>

  predicate WellFormedPixel(p: Pixel) {
    0 <= p.hue < CV2_MAXIMUM_HUE && 0 <= p.saturation <= 255 && 0 <= p.value <= 255
  }

  // Thresholds of the artifact detector, out of 255.
  const BLACK_SATURATION_THRESHOLD := 20
  const BLACK_VALUE_THRESHOLD := 150

  // Thresholds of the layout-shift detector, out of 255, and cv2's hue range.
  const BLANK_SATURATION_THRESHOLD := 10
  const BLANK_VALUE_THRESHOLD := 230
  const CV2_MAXIMUM_HUE := 180

  /** The tolerance `has_hue_shifted` uses when the caller gives none. */
  const DEFAULT_HUE_TOLERANCE: real := 0.02

  /** Grey or black: low saturation and low value, the halo of anti-aliased black text included. */
  predicate IsBlackPixel(p: Pixel) {
    p.saturation < BLACK_SATURATION_THRESHOLD && p.value < BLACK_VALUE_THRESHOLD
  }

  function RowContainsBlack(row: seq<Pixel>): (r: bool)
    ensures r <==> exists j :: 0 <= j < |row| && IsBlackPixel(row[j])
  {
    row != [] && (IsBlackPixel(row[0]) || RowContainsBlack(row[1..]))
  }

  /** `contains_black_pixels`: `np.any` over the saturation and value mask. */
  function ContainsBlackPixels(img: Image): (r: bool)
    ensures r <==> exists i, j :: 0 <= i < |img| && 0 <= j < |img[i]| && IsBlackPixel(img[i][j])
  {
    img != [] && (RowContainsBlack(img[0]) || ContainsBlackPixels(img[1..]))
  }

  /** Background: almost no saturation and a high value. */
  predicate IsBlank(p: Pixel) {
    p.saturation < BLANK_SATURATION_THRESHOLD && p.value > BLANK_VALUE_THRESHOLD
  }

  function Abs(x: real): real {
    if x < 0.0 then -x else x
  }

  function Min(x: real, y: real): real {
    if x <= y then x else y
  }

  /** The distance `has_hue_shifted` measures between a pixel's cv2 hue and a
      normalised target hue: the shorter way round a wheel of 180 steps. */
  function HueDistance(h: int, hue: real): real {
    var d := Abs(h as real - CV2_MAXIMUM_HUE as real * hue);
    Min(d, CV2_MAXIMUM_HUE as real - d)
  }

  predicate HueMatches(h: int, hue: real, tolerance: real) {
    HueDistance(h, hue) <= CV2_MAXIMUM_HUE as real * tolerance
  }

  /** One pixel of the final mask: its fill state changed and its new hue is the target's. */
  predicate ShiftedAt(before: Pixel, after: Pixel, hue: real, tolerance: real) {
    IsBlank(before) != IsBlank(after) && HueMatches(after.hue, hue, tolerance)
  }

  /** numpy combines the masks element-wise, so both rasters have one shape. */
  predicate SameShape(a: Image, b: Image) {
    |a| == |b| && forall i :: 0 <= i < |a| ==> |a[i]| == |b[i]|
  }

  function RowHasShifted(before: seq<Pixel>, after: seq<Pixel>, hue: real, tolerance: real): (r: bool)
    requires |before| == |after|
    ensures r <==> exists j :: 0 <= j < |after| && ShiftedAt(before[j], after[j], hue, tolerance)
  {
    after != [] && (ShiftedAt(before[0], after[0], hue, tolerance) || RowHasShifted(before[1..], after[1..], hue, tolerance))
  }

  /** `has_hue_shifted`: `np.any` over the XOR of the two blank masks, AND the hue mask of `after`. */
  function HasHueShifted(before: Image, after: Image, hue: real, tolerance: real := DEFAULT_HUE_TOLERANCE): (r: bool)
    requires SameShape(before, after)
    ensures r <==> exists i, j :: 0 <= i < |after| && 0 <= j < |after[i]| && ShiftedAt(before[i][j], after[i][j], hue, tolerance)
  {
    after != [] && (RowHasShifted(before[0], after[0], hue, tolerance) || HasHueShifted(before[1..], after[1..], hue, tolerance))
  }

  /** An image with no near-black pixel passes the artifact check, and one such pixel anywhere fails it. */
  lemma BlackPixelDecides(img: Image, i: nat, j: nat)
    requires i < |img| && j < |img[i]|
    ensures IsBlackPixel(img[i][j]) ==> ContainsBlackPixels(img)
    ensures (forall i', j' :: 0 <= i' < |img| && 0 <= j' < |img[i']| ==> img[i'][j'] == img[i][j]) ==>
              ContainsBlackPixels(img) == IsBlackPixel(img[i][j])
  {
  }

  /** The same raster before and after never reports a shift. */
  lemma IdenticalRastersNotShifted(img: Image, hue: real, tolerance: real)
    ensures !HasHueShifted(img, img, hue, tolerance)
  {
  }

  /** A recolouring that keeps every pixel's blank/non-blank state is never reported. */
  lemma FillPreservingRecolorNotShifted(before: Image, after: Image, hue: real, tolerance: real)
    requires SameShape(before, after)
    requires forall i, j :: 0 <= i < |after| && 0 <= j < |after[i]| ==> IsBlank(before[i][j]) == IsBlank(after[i][j])
    ensures !HasHueShifted(before, after, hue, tolerance)
  {
  }

  /** Content of the target hue appearing on background that was blank is reported. */
  lemma NewContentOfHueShifted(before: Image, after: Image, hue: real, tolerance: real, i: nat, j: nat)
    requires SameShape(before, after)
    requires i < |after| && j < |after[i]|
    requires IsBlank(before[i][j]) && !IsBlank(after[i][j])
    requires HueMatches(after[i][j].hue, hue, tolerance)
    ensures HasHueShifted(before, after, hue, tolerance)
  {
  }

  /** The circle distance between cv2 hues, taken as the nearest of three
      unrolled copies of the wheel. */
  function CircleDistance(x: real, y: real): real {
    Min(Abs(x - y), Min(Abs(x - y + CV2_MAXIMUM_HUE as real), Abs(x - y - CV2_MAXIMUM_HUE as real)))
  }

  /** For a pixel hue on the wheel and a target hue in [0, 1), the measured
      distance is the circle distance, and lies between 0 and half the wheel. */
  lemma HueDistanceIsCircular(p: Pixel, hue: real)
    requires WellFormedPixel(p)
    requires 0.0 <= hue < 1.0
    ensures HueDistance(p.hue, hue) == CircleDistance(p.hue as real, CV2_MAXIMUM_HUE as real * hue)
    ensures 0.0 <= HueDistance(p.hue, hue) <= CV2_MAXIMUM_HUE as real / 2.0
  {
  }

  /** With the default tolerance a pixel's hue matches when it lies within
      3.6 cv2 steps of the target, either way round the wheel. */
  lemma DefaultToleranceWindow(h: int, hue: real)
    ensures HueMatches(h, hue, DEFAULT_HUE_TOLERANCE) <==> HueDistance(h, hue) <= 3.6
  {
  }

  /** Wrap-around: a pixel at cv2 hue 2 (normalised about 0.01) matches target
      0.99 within tolerance 0.03, although the two are 176.2 steps apart along
      the scale. */
  lemma HueWrapsAround()
    ensures HueMatches(2, 0.99, 0.03)
    ensures Abs(2.0 - CV2_MAXIMUM_HUE as real * 0.99) > CV2_MAXIMUM_HUE as real * 0.03
  {
  }
}
