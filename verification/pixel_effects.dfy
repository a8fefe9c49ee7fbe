/**
 The two passes `draw` in src/canvas.js makes over the RGBA bytes read back
 from the canvas: a per-pixel pass (noise speckle, then colour inversion) and
 the in-place emboss. Each pass has a byte-by-byte reference definition on the
 buffer as it was before the pass, and a method that runs the source's loop
 in place on a working array and is proved to produce exactly that.

 `Math.random() < 0.05` becomes an oracle: one boolean per pixel saying
 whether the noise test selects it.
 */
module PixelEffects {
  import opened JsNumbers

  function IsAlpha(k: int): bool {
    k % 4 == 3
  }

  /** Byte `k` after the per-pixel pass: noise turns a selected pixel's colour
      bytes white, then inversion replaces each colour byte `v` by `255 - v`;
      the alpha byte is left as it is. */
  function PixelPassByte(data: seq<byte>, noise: bool, invert: bool, oracle: seq<bool>, k: nat): byte
    requires |data| == 4 * |oracle|
    requires k < |data|
  {
    if IsAlpha(k) then data[k]
    else
      var afterNoise := if noise && oracle[k / 4] then 255 else data[k];
      if invert then 255 - afterNoise else afterNoise
  }

  function PixelPass(data: seq<byte>, noise: bool, invert: bool, oracle: seq<bool>): (r: seq<byte>)
    requires |data| == 4 * |oracle|
    ensures |r| == |data|
    ensures forall k :: 0 <= k < |data| && IsAlpha(k) ==> r[k] == data[k]
  {
    seq(|data|, k requires 0 <= k < |data| => PixelPassByte(data, noise, invert, oracle, k))
  }

  /** Byte `k` after the emboss, evaluated on the buffer as it was before the
      pass: `127 + 2 * c - right - below`, where an index past the end reads
      `undefined` and turns the whole expression into NaN; the store clamps. */
  function EmbossByte(data: seq<byte>, width: nat, k: nat): byte
    requires k < |data|
  {
    if IsAlpha(k) then data[k]
    else ToUint8Clamp(Int(127 + 2 * data[k] as int).Minus(ReadByte(data, k + 4)).Minus(ReadByte(data, k + width * 4)))
  }

  function Emboss(data: seq<byte>, width: nat): (r: seq<byte>)
    ensures |r| == |data|
    ensures forall k :: 0 <= k < |data| && IsAlpha(k) ==> r[k] == data[k]
  {
    seq(|data|, k requires 0 <= k < |data| => EmbossByte(data, width, k))
  }

  /** The per-pixel loop of the source, four bytes at a time, on a working
      copy of the buffer. */
  method PixelPassInPlace(data: seq<byte>, noise: bool, invert: bool, oracle: seq<bool>) returns (out: seq<byte>)
    requires |data| == 4 * |oracle|
    ensures out == PixelPass(data, noise, invert, oracle)
  {
    var a := new byte[|data|](k requires 0 <= k < |data| => data[k]);
    var i := 0;
    while i < a.Length
      invariant 0 <= i <= a.Length && i % 4 == 0
      invariant forall k :: 0 <= k < i ==> a[k] == PixelPassByte(data, noise, invert, oracle, k)
      invariant forall k :: i <= k < a.Length ==> a[k] == data[k]
    {
      if noise && oracle[i / 4] {
        a[i], a[i + 1], a[i + 2] := 255, 255, 255;
      }
      if invert {
        var red, green, blue := a[i], a[i + 1], a[i + 2];
        a[i], a[i + 1], a[i + 2] := 255 - red, 255 - green, 255 - blue;
      }
      assert (i + 1) / 4 == (i + 2) / 4 == i / 4;
      i := i + 4;
    }
    out := a[..];
  }

  /** The emboss loop of the source, in place on a working copy of the
      buffer: every byte it reads lies at or after the byte it writes, so it
      still holds its value from before the pass. */
  method EmbossInPlace(data: seq<byte>, width: nat) returns (out: seq<byte>)
    ensures out == Emboss(data, width)
  {
    var a := new byte[|data|](k requires 0 <= k < |data| => data[k]);
    var i := 0;
    while i < a.Length
      invariant 0 <= i <= a.Length
      invariant forall k :: 0 <= k < i ==> a[k] == EmbossByte(data, width, k)
      invariant forall k :: i <= k < a.Length ==> a[k] == data[k]
    {
      if !IsAlpha(i) {
        var right := if i + 4 < a.Length then Int(a[i + 4]) else NaN;
        var below := if i + width * 4 < a.Length then Int(a[i + width * 4]) else NaN;
        a[i] := ToUint8Clamp(Int(127 + 2 * a[i] as int).Minus(right).Minus(below));
      }
      i := i + 1;
    }
    out := a[..];
  }

  /** With every flag off the per-pixel pass changes nothing. */
  lemma PixelPassOff(data: seq<byte>, oracle: seq<bool>)
    requires |data| == 4 * |oracle|
    ensures PixelPass(data, false, false, oracle) == data
  {
  }

  /** Inversion alone maps each colour byte `v` to `255 - v`, and doing it
      twice restores the buffer. */
  lemma InvertTwiceRestores(data: seq<byte>, oracle: seq<bool>)
    requires |data| == 4 * |oracle|
    ensures var once := PixelPass(data, false, true, oracle);
            && (forall k :: 0 <= k < |data| && !IsAlpha(k) ==> once[k] == 255 - data[k])
            && PixelPass(once, false, true, oracle) == data
  {
  }

  /** Noise runs before inversion: a colour byte of a selected pixel ends
      black when inversion is on and white when it is off; a colour byte of
      an unselected pixel only sees the inversion. */
  lemma NoiseThenInvert(data: seq<byte>, invert: bool, oracle: seq<bool>, p: nat, c: nat)
    requires |data| == 4 * |oracle|
    requires p < |oracle| && c < 3
    ensures var r := PixelPass(data, true, invert, oracle)[4 * p + c];
            && (oracle[p] ==> r == (if invert then 0 else 255))
            && (!oracle[p] ==> r == (if invert then 255 - data[4 * p + c] else data[4 * p + c]))
  {
    assert (4 * p + c) / 4 == p;
  }

  /** The boundary behaviour of the emboss on a `width` by `height` image.
      A colour byte in the last row (the final `4 * width` bytes) reads
      `undefined` below it and stores 0. Every other colour byte stores the
      clamped `127 + 2 * c - right - below` of the buffer before the pass. */
  lemma EmbossRows(data: seq<byte>, width: nat, height: nat)
    requires |data| == 4 * width * height
    ensures forall k :: 0 <= k < |data| && !IsAlpha(k) ==>
              (k + 4 * width >= |data| ==> Emboss(data, width)[k] == 0)
    ensures forall k :: 0 <= k < |data| && !IsAlpha(k) && k + 4 * width < |data| ==>
              k + 4 < |data| &&
              Emboss(data, width)[k] == Clamp(127 + 2 * data[k] as int - data[k + 4] as int - data[k + 4 * width] as int)
  {
    if width == 0 {
      assert |data| == 0 by {
        assert 4 * width == 0;
      }
    } else {
      forall k | 0 <= k < |data| && !IsAlpha(k)
        ensures k + 4 * width >= |data| ==> Emboss(data, width)[k] == 0
        ensures k + 4 * width < |data| ==>
                  k + 4 < |data| &&
                  Emboss(data, width)[k] == Clamp(127 + 2 * data[k] as int - data[k + 4] as int - data[k + 4 * width] as int)
      {
        EmbossByteAt(data, width, k);
      }
    }
  }

  lemma EmbossByteAt(data: seq<byte>, width: nat, k: nat)
    requires width > 0 && k < |data| && !IsAlpha(k)
    ensures k + 4 * width >= |data| ==> Emboss(data, width)[k] == 0
    ensures k + 4 * width < |data| ==>
              k + 4 < |data| &&
              Emboss(data, width)[k] == Clamp(127 + 2 * data[k] as int - data[k + 4] as int - data[k + 4 * width] as int)
  {
    assert Emboss(data, width)[k] == EmbossByte(data, width, k);
  }

  /** The right neighbour of a colour byte in the last column of a row
      that is not the last is the same channel of the first pixel of the
      next row: the flat buffer wraps, it is not read out of range. */
  lemma EmbossLastColumnWraps(data: seq<byte>, width: nat, row: nat, k: nat)
    requires k < |data| && !IsAlpha(k)
    requires 4 * (row * width + width - 1) <= k < 4 * (row * width + width)
    requires k + 4 * width < |data|
    ensures k + 4 < |data|
    ensures 4 * ((row + 1) * width) <= k + 4 < 4 * ((row + 1) * width + 1)
    ensures Emboss(data, width)[k] == Clamp(127 + 2 * data[k] as int - data[k + 4] as int - data[k + 4 * width] as int)
  {
    assert (row + 1) * width == row * width + width;
  }
}
