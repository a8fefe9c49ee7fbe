/**
 The slice of JavaScript number semantics that the pixel passes of the
 visualiser touch: bytes of a `Uint8ClampedArray`, the integer-or-NaN values
 that arithmetic on those bytes can produce, and the ToUint8Clamp conversion
 (section 7.1.12 of ECMA-262) that every store into such an array performs.
 */
module JsNumbers {

  /** One element of a `Uint8Array` or `Uint8ClampedArray`. */
  type byte = x: int | 0 <= x < 256

  /** A JavaScript number as it arises in the pixel arithmetic: every operand
      is an integer byte, so the only values that occur are integers and NaN
      (the result of computing with `undefined`, read past the end of a typed
      array). */
  datatype Number = Int(value: int) | NaN {

    function Minus(that: Number): (r: Number)
      ensures r.NaN? <==> this.NaN? || that.NaN?
      ensures this.Int? && that.Int? ==> r == Int(this.value - that.value)
    {
      if this.Int? && that.Int? then Int(this.value - that.value) else NaN
    }
  }

  /** The value of `a[k]` for a typed array `a`: `undefined` past the end,
      which becomes NaN as soon as it takes part in arithmetic. */
  function ReadByte(a: seq<byte>, k: nat): (n: Number)
    ensures n.Int? <==> k < |a|
    ensures n.Int? ==> n.value == a[k]
  {
    if k < |a| then Int(a[k]) else NaN
  }

  /** The byte nearest to an integer. */
  function Clamp(x: int): (b: byte)
    ensures forall y: byte {:trigger Dist(x, y)} :: Dist(x, b) <= Dist(x, y)
    ensures b == x <==> 0 <= x <= 255
  {
    if x < 0 then 0 else if x > 255 then 255 else x
  }

  function Dist(x: int, y: int): nat {
    if x < y then y - x else x - y
  }

  /** ToUint8Clamp restricted to integers and NaN: NaN stores 0, an integer
      stores the nearest byte. Rounding of fractions never arises here. */
  function ToUint8Clamp(n: Number): (b: byte)
    ensures n.NaN? ==> b == 0
    ensures n.Int? && 0 <= n.value <= 255 ==> b == n.value
    ensures n.Int? && n.value < 0 ==> b == 0
    ensures n.Int? && n.value > 255 ==> b == 255
  {
    match n
    case NaN => 0
    case Int(v) => Clamp(v)
  }
}
