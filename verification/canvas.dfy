/**
 One call of `draw` in src/canvas.js, with painting replaced by the geometry
 it would emit. The audio frame (filled by the analyser), the canvas size, the
 RGBA bytes read back after the overlays are painted, and the noise test's
 outcome per pixel are all inputs.
 */
module Canvas {
  import opened JsNumbers
  import opened Energy
  import opened Bars
  import opened PixelEffects

  /** The drawing flags consulted once per frame. */
  datatype DrawParams = DrawParams(
    showGradient: bool,
    showBars: bool,
    showCircles: bool,
    showNoise: bool,
    invertColors: bool,
    showEmboss: bool)

  /** The flags the page starts with. */
  const Defaults: DrawParams := DrawParams(
    showGradient := true,
    showBars := true,
    showCircles := true,
    showNoise := false,
    invertColors := false,
    showEmboss := false)

  /** The emblem image as drawn, or nothing when the flag is off. */
  datatype EmblemOverlay = NoEmblem | Emblem(scale: real, bounds: Rect)

  /** What one frame produces: the emblem, the bar rectangles in drawing
      order, and the pixel bytes written back to the canvas. */
  datatype Frame = Frame(emblem: EmblemOverlay, bars: seq<Rect>, pixels: seq<byte>)

  /** Where the emblem lands on the canvas: a square of side `canvasHeight / 3`
      centred on the origin, scaled uniformly, then moved to
      `(canvasWidth / 2, canvasHeight / 3)`. */
  function PlaceEmblem(scale: real, canvasWidth: real, canvasHeight: real): (r: Rect)
    ensures r.x + r.w / 2.0 == canvasWidth / 2.0
    ensures r.y + r.h / 2.0 == canvasHeight / 3.0
    ensures r.w == r.h == scale * (canvasHeight / 3.0)
    ensures scale >= 1.0 && canvasHeight >= 0.0 ==> r.w >= canvasHeight / 3.0
  {
    var maxRadius := canvasHeight / 3.0;
    var side := scale * maxRadius;
    assert scale >= 1.0 && maxRadius >= 0.0 ==> side >= maxRadius;
    Rect(canvasWidth / 2.0 + scale * (-maxRadius / 2.0), canvasHeight / 3.0 + scale * (-maxRadius / 2.0), side, side)
  }

  /** One frame. `frame` holds the `fftSize / 2` analyser samples, `surface`
      the composited canvas as `getImageData` returns it, and `noise[p]`
      whether `Math.random() < 0.05` held for pixel `p`. */
  method Draw(params: DrawParams, frame: seq<byte>, canvasWidth: nat, canvasHeight: nat,
              surface: seq<byte>, noise: seq<bool>) returns (out: Frame)
    requires |frame| > 0
    requires |noise| == canvasWidth * canvasHeight
    requires |surface| == 4 * |noise|
    ensures out.emblem.Emblem? <==> params.showCircles
    ensures out.emblem.Emblem? ==>
              && out.emblem.scale == EmblemScale(Percent(frame))
              && 1.0 <= out.emblem.scale <= 2.2
              && out.emblem.bounds.x + out.emblem.bounds.w / 2.0 == canvasWidth as real / 2.0
    ensures out.emblem.Emblem? ==>
              out.emblem.bounds == PlaceEmblem(out.emblem.scale, canvasWidth as real, canvasHeight as real)
    ensures out.bars == if params.showBars then Spectrum(frame, canvasWidth as real, canvasHeight as real) else []
    ensures |out.bars| == if params.showBars then 2 * |frame| - 1 else 0
    ensures forall r <- out.bars ::
              r.y + r.h == canvasHeight as real && MinBarHeight <= r.h <= BarHeight
    ensures |out.pixels| == |surface|
    ensures forall k :: 0 <= k < |surface| && IsAlpha(k) ==> out.pixels[k] == surface[k]
    ensures !params.showNoise && !params.invertColors && !params.showEmboss ==> out.pixels == surface
    ensures var passed := PixelPass(surface, params.showNoise, params.invertColors, noise);
            out.pixels == if params.showEmboss then Emboss(passed, canvasWidth) else passed
  {
    var emblem := NoEmblem;
    if params.showCircles {
      var percent := AccumulatePercent(frame);
      EmblemScaleRange(frame);
      var scale := EmblemScale(percent);
      emblem := Emblem(scale, PlaceEmblem(scale, canvasWidth as real, canvasHeight as real));
    }
    var bars := [];
    if params.showBars {
      bars := Spectrum(frame, canvasWidth as real, canvasHeight as real);
    }
    var pixels := PixelPassInPlace(surface, params.showNoise, params.invertColors, noise);
    if params.showEmboss {
      pixels := EmbossInPlace(pixels, canvasWidth);
    }
    PixelPassOff(surface, noise);
    out := Frame(emblem, bars, pixels);
  }
}
