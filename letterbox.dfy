/**
 * Fitting a video frame into a box without distortion: the frame is scaled
 * to fill the box in one dimension and centred in the other. The camera view
 * fits into its whole area, the annotated-video view into the area left by
 * the legend and the bottom bar.
 */
module Letterbox {

  /** A rectangle: its top-left corner and its size. */
  datatype Rect = Rect(x: real, y: real, w: real, h: real)

  /** Whether the video is relatively taller than the box, so that its height is the one that fills. */
  predicate HeightBound(boxW: real, boxH: real, videoW: real, videoH: real)
  {
    videoW * boxH < videoH * boxW
  }

  /** The fitted, centred rectangle of a `videoW` by `videoH` frame in a `boxW` by `boxH` box. */
  function Fit(boxW: real, boxH: real, videoW: real, videoH: real): (r: Rect)
    requires videoW > 0.0 && videoH > 0.0
    ensures HeightBound(boxW, boxH, videoW, videoH) ==> r.h == boxH
    ensures !HeightBound(boxW, boxH, videoW, videoH) ==> r.w == boxW
    ensures r.x == (boxW - r.w) / 2.0 && r.y == (boxH - r.h) / 2.0
  {
    var w := if HeightBound(boxW, boxH, videoW, videoH) then videoW * boxH / videoH else boxW;
    var h := if HeightBound(boxW, boxH, videoW, videoH) then boxH else videoH * boxW / videoW;
    Rect((boxW - w) / 2.0, (boxH - h) / 2.0, w, h)
  }

  /** The fitted rectangle has the video's aspect ratio. */
  lemma FitKeepsAspect(boxW: real, boxH: real, videoW: real, videoH: real)
    requires videoW > 0.0 && videoH > 0.0
    ensures var r := Fit(boxW, boxH, videoW, videoH); r.w * videoH == r.h * videoW
  {
    if HeightBound(boxW, boxH, videoW, videoH) {
      DivTimes(videoW * boxH, videoH);
    } else {
      DivTimes(videoH * boxW, videoW);
    }
  }

  /**
   * In a box of non-negative size the rectangle fits, fills the box in one
   * dimension, and is centred with non-negative margins of which one is zero.
   */
  lemma FitInside(boxW: real, boxH: real, videoW: real, videoH: real)
    requires videoW > 0.0 && videoH > 0.0 && boxW >= 0.0 && boxH >= 0.0
    ensures var r := Fit(boxW, boxH, videoW, videoH);
      && 0.0 <= r.w <= boxW && 0.0 <= r.h <= boxH
      && (r.w == boxW || r.h == boxH)
      && 0.0 <= r.x && 0.0 <= r.y && (r.x == 0.0 || r.y == 0.0)
      && r.x + r.w <= boxW && r.y + r.h <= boxH
  {
    if HeightBound(boxW, boxH, videoW, videoH) {
      DivBelow(videoW * boxH, videoH, boxW);
      NonNegativeQuotient(videoW * boxH, videoH);
    } else {
      DivAtMost(videoH * boxW, videoW, boxH);
      NonNegativeQuotient(videoH * boxW, videoW);
    }
  }

  /** The horizontal and vertical scale factors from video pixels to the rectangle agree. */
  lemma FitEqualScale(boxW: real, boxH: real, videoW: real, videoH: real)
    requires videoW > 0.0 && videoH > 0.0
    ensures var r := Fit(boxW, boxH, videoW, videoH); r.w / videoW == r.h / videoH
  {
    var r := Fit(boxW, boxH, videoW, videoH);
    FitKeepsAspect(boxW, boxH, videoW, videoH);
    CrossToRatio(r.w, videoW, r.h, videoH);
  }

  lemma DivTimes(a: real, b: real)
    requires b != 0.0
    ensures (a / b) * b == a
  {
  }

  lemma DivBelow(a: real, b: real, c: real)
    requires b > 0.0 && a < b * c
    ensures a / b < c
  {
  }

  lemma DivAtMost(a: real, b: real, c: real)
    requires b > 0.0 && a <= b * c
    ensures a / b <= c
  {
  }

  lemma NonNegativeQuotient(a: real, b: real)
    requires b > 0.0 && a >= 0.0
    ensures a / b >= 0.0
  {
  }

  lemma CrossToRatio(a: real, b: real, c: real, d: real)
    requires b > 0.0 && d > 0.0 && a * d == c * b
    ensures a / b == c / d
  {
    assert a / b == (a * d) / (b * d);
    assert c / d == (c * b) / (d * b);
  }
}
