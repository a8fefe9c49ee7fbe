/**
 Geometry of the bar spectrum (`draw` in src/canvas.js, the `showBars`
 branch): the rectangles that are filled and stroked, one per sample on the
 left run and one per sample but the first on the mirrored run. Coordinates
 are exact reals rather than IEEE doubles.
 */
module Bars {
  import opened JsNumbers

  /** A rectangle as passed to `fillRect`/`strokeRect`. */
  datatype Rect = Rect(x: real, y: real, w: real, h: real)

  const BarSpacing: real := 1.0
  const Margin: real := 2.0
  /** Height of a bar for a full-scale sample. */
  const BarHeight: real := 200.0
  /** The floor under every bar: `BarHeight / 20`. */
  const MinBarHeight: real := BarHeight / 20.0

  /** The width shared by all bars: the canvas width less one spacing per
      slot and a margin on either side, divided among `2 * n` slots. */
  function BarWidth(canvasWidth: real, n: nat): (w: real)
    requires n > 0
    ensures (2 * n) as real * w + (2 * n) as real * BarSpacing + 2.0 * Margin == canvasWidth
  {
    var screenWidthForBars := canvasWidth - (n * 2) as real * BarSpacing - Margin * 2.0;
    screenWidthForBars / (n * 2) as real
  }

  /** The height of the bar for one sample: proportional to the sample, but
      never below the floor. */
  function BarHeightOf(v: byte): (h: real)
    ensures MinBarHeight <= h <= BarHeight
    ensures h == MinBarHeight <==> v <= 12
    ensures h >= (v as real / 255.0) * BarHeight
    ensures h == MinBarHeight || h == (v as real / 255.0) * BarHeight
  {
    var height := (v as real / 255.0) * BarHeight;
    if height > MinBarHeight then height else MinBarHeight
  }

  /** The left edge of slot `p` of the `2 * n` evenly spaced bar slots. */
  function Slot(barWidth: real, p: int): real {
    Margin + p as real * (barWidth + BarSpacing)
  }

  /** The left run, one bar per sample, laid out from the centre leftwards. */
  function LeftRun(frame: seq<byte>, canvasWidth: real, canvasHeight: real): (bars: seq<Rect>)
    requires |frame| > 0
    ensures |bars| == |frame|
  {
    var n := |frame|;
    var barWidth := BarWidth(canvasWidth, n);
    seq(n, i requires 0 <= i < n =>
      var height := BarHeightOf(frame[i]);
      Rect(Margin + (n - i) as real * (barWidth + BarSpacing), canvasHeight - height, barWidth, height))
  }

  /** The mirrored run, one bar for each sample but the first. */
  function MirrorRun(frame: seq<byte>, canvasWidth: real, canvasHeight: real): (bars: seq<Rect>)
    requires |frame| > 0
    ensures |bars| == |frame| - 1
  {
    var n := |frame|;
    var barWidth := BarWidth(canvasWidth, n);
    seq(n - 1, j requires 0 <= j < n - 1 =>
      var i := j + 1;
      var height := BarHeightOf(frame[i]);
      Rect(canvasWidth - (Margin + (n - i) as real * (barWidth + BarSpacing)), canvasHeight - height, barWidth, height))
  }

  /** All rectangles in the order the source draws them. */
  function Spectrum(frame: seq<byte>, canvasWidth: real, canvasHeight: real): (bars: seq<Rect>)
    requires |frame| > 0
    ensures |bars| == 2 * |frame| - 1
    ensures forall r <- bars ::
              && r.y + r.h == canvasHeight
              && MinBarHeight <= r.h <= BarHeight
              && r.w == BarWidth(canvasWidth, |frame|)
    ensures forall i :: 0 <= i < |frame| ==> bars[i].h == BarHeightOf(frame[i])
    ensures forall k :: |frame| <= k < |bars| ==> bars[k].h == BarHeightOf(frame[k - |frame| + 1])
  {
    LeftRun(frame, canvasWidth, canvasHeight) + MirrorRun(frame, canvasWidth, canvasHeight)
  }

  /** For every sample but the first, the mirrored bar starts as far from
      the right edge as the left bar starts from the left edge, and both
      have the height of that sample. This holds by the way the mirrored
      run is built; `SpectrumSlots` states where both runs actually land. */
  lemma MirrorReflects(frame: seq<byte>, canvasWidth: real, canvasHeight: real)
    requires |frame| > 0
    ensures forall i :: 1 <= i < |frame| ==>
              var left := LeftRun(frame, canvasWidth, canvasHeight)[i];
              var right := MirrorRun(frame, canvasWidth, canvasHeight)[i - 1];
              && right.x == canvasWidth - left.x
              && right.h == left.h == BarHeightOf(frame[i])
    ensures forall i :: 0 <= i < |frame| ==>
              LeftRun(frame, canvasWidth, canvasHeight)[i].h == BarHeightOf(frame[i])
  {
  }

  /** The bars fill slots 1 to `2n - 1` of the `2n` slots, one bar each:
      left bar i in slot n - i, mirrored bar i in slot n + i. Slot 0 stays
      empty, so the spectrum is symmetric about the centre of the first
      sample's bar, which starts at the middle of the canvas. Mirrored bar
      `j` draws sample `j + 1`. */
  lemma SpectrumSlots(frame: seq<byte>, canvasWidth: real, canvasHeight: real)
    requires |frame| > 0
    ensures var n := |frame|;
            var w := BarWidth(canvasWidth, n);
            && LeftRun(frame, canvasWidth, canvasHeight)[0].x == canvasWidth / 2.0
            && (forall i :: 0 <= i < n ==> LeftRun(frame, canvasWidth, canvasHeight)[i].x == Slot(w, n - i))
            && (forall j :: 0 <= j < n - 1 ==> MirrorRun(frame, canvasWidth, canvasHeight)[j].x == Slot(w, n + j + 1))
  {
    var n := |frame|;
    var w := BarWidth(canvasWidth, n);
    var left := LeftRun(frame, canvasWidth, canvasHeight);
    var right := MirrorRun(frame, canvasWidth, canvasHeight);
    assert canvasWidth == 2.0 * Slot(w, n) - 2.0 * Margin + 2.0 * Margin;
    forall j | 0 <= j < n - 1
      ensures right[j].x == Slot(w, n + j + 1)
    {
      assert right[j].x == canvasWidth - Slot(w, n - j - 1);
    }
  }

  /** Each pair of left and mirrored bars for the same sample lies
      symmetrically about the centre of the first sample's bar. */
  lemma SpectrumSymmetric(frame: seq<byte>, canvasWidth: real, canvasHeight: real)
    requires |frame| > 0
    ensures var left := LeftRun(frame, canvasWidth, canvasHeight);
            var right := MirrorRun(frame, canvasWidth, canvasHeight);
            var w := BarWidth(canvasWidth, |frame|);
            var axis := left[0].x + w / 2.0;
            forall i :: 1 <= i < |frame| ==>
              (left[i].x + w / 2.0) + (right[i - 1].x + w / 2.0) == 2.0 * axis
  {
    SpectrumSlots(frame, canvasWidth, canvasHeight);
  }

  /** A bar width that is not negative leaves the slots in order. */
  lemma SlotWithin(w: real, n: nat, p: int)
    requires w >= 0.0
    requires 1 <= p <= 2 * n - 1
    ensures Margin + w + BarSpacing <= Slot(w, p)
    ensures Slot(w, p) + w <= Slot(w, 2 * n) - BarSpacing
  {
    var pitch := w + BarSpacing;
    assert (p - 1) as real * pitch >= 0.0;
    assert (2 * n - p - 1) as real * pitch >= 0.0;
    assert Slot(w, p) == Slot(w, 1) + (p - 1) as real * pitch;
    assert Slot(w, 2 * n) == Slot(w, p + 1) + (2 * n - p - 1) as real * pitch;
  }

  /** When the canvas is at least `2n + 4` wide, so the bar width is not
      negative, every bar lies within the margins: the leftmost starts one
      slot in, the rightmost ends one spacing before the right margin. */
  lemma SpectrumWithinMargins(frame: seq<byte>, canvasWidth: real, canvasHeight: real)
    requires |frame| > 0
    requires canvasWidth >= (2 * |frame|) as real * BarSpacing + 2.0 * Margin
    ensures BarWidth(canvasWidth, |frame|) >= 0.0
    ensures forall r <- Spectrum(frame, canvasWidth, canvasHeight) ::
              Margin + r.w + BarSpacing <= r.x && r.x + r.w <= canvasWidth - Margin - BarSpacing
  {
    var n := |frame|;
    var w := BarWidth(canvasWidth, n);
    var twoN := (2 * n) as real;
    assert twoN * w >= 0.0;
    assert w >= 0.0;
    assert Slot(w, 2 * n) == canvasWidth - Margin;
    SpectrumSlots(frame, canvasWidth, canvasHeight);
    var left := LeftRun(frame, canvasWidth, canvasHeight);
    var right := MirrorRun(frame, canvasWidth, canvasHeight);
    forall i | 0 <= i < n
      ensures Margin + left[i].w + BarSpacing <= left[i].x && left[i].x + left[i].w <= canvasWidth - Margin - BarSpacing
    {
      SlotWithin(w, n, n - i);
    }
    forall j | 0 <= j < n - 1
      ensures Margin + right[j].w + BarSpacing <= right[j].x && right[j].x + right[j].w <= canvasWidth - Margin - BarSpacing
    {
      SlotWithin(w, n, n + j + 1);
    }
    assert Spectrum(frame, canvasWidth, canvasHeight) == left + right;
  }

  /** In a silent frame every bar stands at the floor height. */
  lemma SilentFrameBarsAtFloor(frame: seq<byte>, canvasWidth: real, canvasHeight: real)
    requires |frame| > 0
    requires forall k :: 0 <= k < |frame| ==> frame[k] == 0
    ensures forall r <- Spectrum(frame, canvasWidth, canvasHeight) ::
              r.h == MinBarHeight && r.y == canvasHeight - MinBarHeight
  {
  }
}
