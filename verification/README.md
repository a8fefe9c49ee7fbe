# Audio visualiser frame: a Dafny model

This project models `draw` in `src/canvas.js` of a small Web Audio
visualiser. Each animation frame, `draw` reads `fftSize / 2` frequency bytes
from an analyser node. It then:

- sums them into an energy `percent` and scales a sun emblem by
  `1 + percent * 1.2`;
- lays out a mirrored spectrum of bars with a floor height;
- reads the canvas back as RGBA bytes and applies a per-pixel pass, then an
  in-place emboss.

The model keeps the arithmetic and drops the painting. `draw` becomes the
method `Canvas.Draw`, which returns a `Frame` holding three things: the
emblem's scale and bounds, the bar rectangles in drawing order, and the
pixel bytes written back.

Modules:

- `JsNumbers` (`js_numbers.dfy`): bytes of a typed array, the
  integer-or-NaN values the pixel arithmetic produces, and the clamping
  store of a `Uint8ClampedArray`. That store is ToUint8Clamp, section 7.1.12
  of ECMA-262: NaN stores 0 and an integer stores the nearest byte.
- `Energy` (`energy.dfy`): the sum of the samples, `percent`, the source's
  accumulation loop, and the emblem scale.
- `Bars` (`bars.dfy`): bar width, bar height with its floor, the left run
  and the mirrored run. Geometry is exact `real` arithmetic.
- `PixelEffects` (`pixel_effects.dfy`): each pass has a per-byte reference
  definition on the buffer as it stood before the pass. Each also has a
  method that runs the source's loop in place on a working array, and that
  method is proved equal to the reference.
- `Canvas` (`canvas.dfy`): the drawing flags, their defaults, emblem
  placement, and `Draw`.

What the proofs establish:

- **Emboss loop.** Every byte the emboss loop reads lies at or after the byte
  it writes. So the in-place forward loop gives the same result as applying
  `127 + 2*c - right - below` to the untouched buffer.
- **Emboss boundary.** In the last row the neighbour below is past the end of
  the buffer. JavaScript reads `undefined`, the sum becomes NaN, and the
  clamped store writes 0. In the last column of any other row, the "right"
  neighbour is the first pixel of the next row: nothing bounds-checks the
  last column, and the flat buffer wraps into the next row.
- **Bar layout.** The canvas is split into `2N` slots of pitch
  `barWidth + 1`. Left bar `i` sits in slot `N - i`, so bar 0 starts at the
  middle of the canvas. Mirrored bar `i` sits in slot `N + i`. Slot 0 stays
  empty. The spectrum is therefore symmetric about the centre of bar 0,
  which is half a bar width right of the canvas centre.

## Model

| member | source | states |
|---|---|---|
| JsNumbers.ReadByte | src/canvas.js:136 | reading `data[k]` yields the byte when k is inside the buffer and `undefined` (NaN in arithmetic) exactly when it is past the end |
| JsNumbers.Number.Minus | src/canvas.js:136 | subtracting with undefined (NaN) gives NaN; two integers give their difference |
| JsNumbers.ToUint8Clamp | src/canvas.js:136 | storing into the clamped pixel array writes 0 for NaN, the value itself for an integer in 0..255, 0 below and 255 above |
| JsNumbers.Clamp | src/canvas.js:101-104 | the byte stored into the clamped pixel array is the byte nearest to the integer written, and equals it exactly when it lies in 0..255 |
| Energy.Sum | src/canvas.js:53-57 | the accumulated sample total lies between 0 and 255 times the frame length |
| Energy.Percent | src/canvas.js:53-58 | the normalised energy of any non-empty frame lies in [0, 1] |
| Energy.AccumulatePercent | src/canvas.js:53-58 | the source's add-then-divide loop yields exactly the mean sample over 255, the normalised energy |
| Energy.SumZeroIff | src/canvas.js:54-57 | the total is 0 if and only if every sample is 0 |
| Energy.SumFullIff | src/canvas.js:54-57 | the total is `255 * length` if and only if every sample is 255 |
| Energy.PercentExtremes | src/canvas.js:53-58 | energy is 0 exactly for a silent frame and 1 exactly for a full-scale frame |
| Energy.PercentMonotone | src/canvas.js:53-58 | raising samples never lowers the energy |
| Energy.SumMonotone | src/canvas.js:54-57 | raising samples never lowers the total |
| Energy.EmblemScaleRange | src/canvas.js:62 | the emblem scale lies in [1, 2.2], is 1 exactly for silence and 2.2 exactly for a full-scale frame |
| Canvas.PlaceEmblem | src/canvas.js:59-64 | the drawn emblem is a square of side `scale * height/3` centred at (width/2, height/3), at least height/3 wide when the scale is at least 1 |
| Bars.BarWidth | src/canvas.js:67-70 | `2N` bar widths plus `2N` spacings of 1 plus two margins of 2 add up to the canvas width |
| Bars.BarHeightOf | src/canvas.js:79-80 | a bar is between 10 and 200 high, exactly 10 (the floor `200/20`) if and only if the sample is at most 12, and otherwise exactly the proportional height `(v/255)*200`: the larger of the two |
| Bars.Spectrum | src/canvas.js:77-90 | the bars number `2N - 1` (N left, N-1 mirrored), all stand on the bottom edge, share the bar width and have heights in [10, 200]; left bar i has the height of sample i and mirrored bar j the height of sample j + 1 |
| Bars.MirrorReflects | src/canvas.js:84-90 | for each sample i >= 1 the mirrored bar's x is the canvas width minus the left bar's x, with the same height, and every left bar i, bar 0 included, has the height of sample i (this restates how the mirrored run is built; `Bars.SpectrumSlots` carries the layout) |
| Bars.SpectrumSlots | src/canvas.js:77-90 | left bar i lies in slot N-i and mirrored bar i in slot N+i of the `2N` equally spaced slots; bar 0 starts at the canvas centre |
| Bars.SpectrumSymmetric | src/canvas.js:77-90 | each left/mirrored pair is symmetric about the centre of bar 0 |
| Bars.SlotWithin | src/canvas.js:67-70 | with a non-negative bar width, slots 1 to 2N-1 lie between the margins, one spacing in |
| Bars.SpectrumWithinMargins | src/canvas.js:67-90 | on a canvas at least `2N + 4` wide every bar lies within the margins, the leftmost starting one slot in |
| Bars.SilentFrameBarsAtFloor | src/canvas.js:79-87 | in a silent frame every bar has the floor height 10 |
| PixelEffects.PixelPass | src/canvas.js:109-126 | the per-pixel pass keeps the buffer length and never changes an alpha byte |
| PixelEffects.PixelPassInPlace | src/canvas.js:109-126 | the four-bytes-at-a-time loop run in place equals the per-byte definition of noise-then-invert |
| PixelEffects.PixelPassOff | src/canvas.js:109-126 | with noise and inversion off the buffer is unchanged |
| PixelEffects.InvertTwiceRestores | src/canvas.js:119-125 | inversion alone turns every colour byte v into 255 - v, and applying it twice restores the buffer |
| PixelEffects.NoiseThenInvert | src/canvas.js:112-125 | a noise-selected pixel ends (0,0,0) with inversion and (255,255,255) without; an unselected pixel only sees the inversion |
| PixelEffects.Emboss | src/canvas.js:128-137 | the emboss keeps the buffer length and never changes an alpha byte |
| PixelEffects.EmbossInPlace | src/canvas.js:128-137 | the in-place forward loop equals the emboss formula applied to the buffer before the pass |
| PixelEffects.EmbossRows | src/canvas.js:130-136 | on a width-by-height image, colour bytes of the last row store 0; every other colour byte stores `clamp(127 + 2c - right - below)` |
| PixelEffects.EmbossByteAt | src/canvas.js:136 | the same boundary rule for a single colour byte |
| PixelEffects.EmbossLastColumnWraps | src/canvas.js:136 | outside the last row, a last-column byte's right neighbour is the first pixel of the next row, and the stored value uses it |
| Canvas.Draw | src/canvas.js:29-142 | the emblem appears exactly when its flag is set, with scale `1 + 1.2 * percent` in [1, 2.2], placed by `Canvas.PlaceEmblem`. The bars are exactly `Bars.Spectrum` of the frame when bars are on (so the slot, mirror and margin lemmas apply to them), `2N - 1` of them on the bottom edge, and none otherwise. The pixels are pass 1 and then, if enabled, the emboss; alpha bytes are never changed, and with no pixel flags the buffer is returned unchanged |

## Left out

- Audio: `src/audio.js` is not part of this model. It builds the Web Audio graph, gain, shelf filters and playback. Only the frame length `fftSize / 2` matters here, and it appears as the length of the `frame` argument.
- `src/main.js` is not part of this model beyond the flag defaults, which seed `Canvas.Defaults`. It holds DOM wiring and the `requestAnimationFrame` loop, and its per-frame sampling into a throw-away array has no effect on drawing.
- Painting: the black background fill, the gradient, the colours, `save`/`restore`, `translate`/`scale`, `drawImage`, `putImageData` and the rasterisation of `fillRect`/`strokeRect`. The model emits the geometry passed to them. Every bar rectangle is both filled and stroked with the same arguments, so it appears once.
- `getImageData` becomes the `surface` input: the bytes of the canvas after the overlays are painted.
- Canvas.Draw: on a canvas of zero width or height the source's `getImageData` (src/canvas.js:103) throws, so `draw` never reaches the pixel passes or `putImageData`. The model does not represent that exception: it returns a frame with an empty pixel buffer instead.
- `Math.random() < 0.05` becomes the `noise` oracle, one boolean per pixel. It is consulted only when noise is on.
- Floating point: bar and energy arithmetic uses exact reals, not IEEE-754 doubles. ToUint8Clamp's round-half-to-even is not modelled, because every value stored into the pixel buffer is an integer.
- Empty frames: `Energy.Percent`, `Energy.AccumulatePercent`, `Bars.BarWidth`, `Bars.Spectrum` and `Canvas.Draw` require a non-empty frame. In the source an empty frame would give a NaN energy and an infinite bar width. That cannot happen, because the analyser's `fftSize` is a power of two of at least 32.
- Bars.SpectrumWithinMargins: stated only for canvases at least `2N + 4` wide. On narrower canvases the source computes a negative bar width.
- `topSpacing` (src/canvas.js:72) is declared and never used.
- Grayscale, the scrolling grid, the progress curve, scroll-offset state, waveform sampling, and bar-height and emblem scale settings do not exist in this version of the code. Time-domain sampling is a commented-out line (src/canvas.js:34).
