/**
 * The conversion a `Uint8ClampedArray` applies to every number assigned to
 * one of its cells: clamp into [0, 255], then round to the nearest integer,
 * ties to even.
 */
module Clamped {

  /** One cell of a `Uint8ClampedArray`. */
  type Byte = x: int | 0 <= x < 256

  /** Rounds a real number in (0, 255) to the nearest integer, ties to even. */
  function RoundHalfEven(x: real): (r: int)
    requires 0.0 < x < 255.0
    ensures 0 <= r <= 255
    ensures -0.5 <= r as real - x <= 0.5
    ensures r as real - x == 0.5 || r as real - x == -0.5 ==> r % 2 == 0
  {
    var f := x.Floor;
    var frac := x - f as real;
    if frac < 0.5 then f
    else if frac > 0.5 then f + 1
    else if f % 2 == 0 then f
    else f + 1
  }

  /** The byte stored when the number `x` is assigned to a clamped cell. */
  function ToUint8Clamp(x: real): (r: Byte)
    ensures x <= 0.0 ==> r == 0
    ensures x >= 255.0 ==> r == 255
    ensures 0.0 <= x <= 255.0 ==> -0.5 <= r as real - x <= 0.5
  {
    if x <= 0.0 then 0
    else if x >= 255.0 then 255
    else RoundHalfEven(x)
  }

  /** A number that already is a byte is stored unchanged. */
  lemma ByteStoredExactly(b: int)
    requires 0 <= b <= 255
    ensures ToUint8Clamp(b as real) == b
  {
  }

  /** Storing is monotone: a larger number never gives a smaller byte. */
  lemma ToUint8ClampMonotone(x: real, y: real)
    requires x <= y
    ensures ToUint8Clamp(x) <= ToUint8Clamp(y)
  {
    if 0.0 < x && y < 255.0 {
      var fx, fy := x.Floor, y.Floor;
      assert fx <= fy;
    }
  }
}
