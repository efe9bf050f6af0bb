/**
 * `PixelArray`: a wrapper over the flat RGBA byte buffer of an image
 * (the `data` of a browser `ImageData`).  Pixels are addressed by
 * (row, col); the byte offset is computed as `row * col * 4`.
 */
module Pixels {
  import opened Clamped
  import opened Wrappers

  /** Four channel values, as the numbers a pixel is read into. */
  type Pixel = s: seq<real> | |s| == 4 witness [0.0, 0.0, 0.0, 0.0]

  /** Errors thrown by pixel access. */
  datatype PixelError = WrongPixelArity

  /** The byte offset `getPixel` and `setPixel` compute for (row, col). */
  function Offset(row: int, col: int): (r: int)
    ensures row >= 0 && col >= 0 ==> r >= 0
  {
    row * col * 4
  }

  /** The four bytes at (row, col) lie inside a buffer of `len` bytes. */
  predicate Fits(len: int, row: int, col: int) {
    0 <= Offset(row, col) && Offset(row, col) + 3 < len
  }

  /** The pixel read from the four bytes starting at `start`. */
  function PixelAt(buf: seq<Byte>, start: int): (p: Pixel)
    requires 0 <= start && start + 3 < |buf|
    ensures forall k :: 0 <= k < 4 ==> p[k] == buf[start + k] as real
  {
    [buf[start] as real, buf[start + 1] as real, buf[start + 2] as real, buf[start + 3] as real]
  }

  /**
   * The buffer after `setPixel` has stored `pixel` at `start`: channel 0 into
   * the first byte, channel 1 into the second, and channel 0 again into the
   * third and the fourth.
   */
  function StoreAt(buf: seq<Byte>, start: int, pixel: seq<real>): (r: seq<Byte>)
    requires 0 <= start && start + 3 < |buf|
    requires |pixel| == 4
    ensures |r| == |buf|
    ensures r[start] == ToUint8Clamp(pixel[0]) && r[start + 1] == ToUint8Clamp(pixel[1])
    ensures r[start + 2] == ToUint8Clamp(pixel[0]) && r[start + 3] == ToUint8Clamp(pixel[0])
    ensures forall i :: 0 <= i < |buf| && !(start <= i < start + 4) ==> r[i] == buf[i]
  {
    buf[start := ToUint8Clamp(pixel[0])]
       [start + 1 := ToUint8Clamp(pixel[1])]
       [start + 2 := ToUint8Clamp(pixel[0])]
       [start + 3 := ToUint8Clamp(pixel[0])]
  }

  class PixelArray {
    /** The backing `Uint8ClampedArray`; every cell is a byte by its type. */
    var pixelArray: array<Byte>

    /** Wraps an existing buffer; the buffer is shared, not copied. */
    constructor Wrap(data: array<Byte>)
      ensures pixelArray == data
    {
      pixelArray := data;
    }

    /** A fresh zero-filled buffer of `len` bytes. */
    constructor Zeroed(len: nat)
      ensures fresh(pixelArray)
      ensures pixelArray[..] == seq(len, _ => 0)
    {
      pixelArray := new Byte[len](_ => 0);
    }

    /** The four bytes at offset `row * col * 4`, as numbers. */
    function GetPixel(row: int, col: int): (r: Pixel)
      reads this, pixelArray
      requires Fits(pixelArray.Length, row, col)
      ensures r == PixelAt(pixelArray[..], Offset(row, col))
      ensures forall k :: 0 <= k < 4 ==> r[k] == pixelArray[Offset(row, col) + k] as real
    {
      var start := row * col * 4;
      [pixelArray[start] as real, pixelArray[start + 1] as real,
       pixelArray[start + 2] as real, pixelArray[start + 3] as real]
    }

    /**
     * Throws unless `pixel` has four channels; otherwise overwrites the four
     * bytes at offset `row * col * 4` and nothing else.
     */
    method SetPixel(row: int, col: int, pixel: seq<real>) returns (r: Outcome<PixelError>)
      requires |pixel| == 4 ==> Fits(pixelArray.Length, row, col)
      modifies pixelArray
      ensures r.Fail? <==> |pixel| != 4
      ensures r.Fail? ==> r.error == WrongPixelArity && pixelArray[..] == old(pixelArray[..])
      ensures r.Pass? ==> pixelArray[..] == StoreAt(old(pixelArray[..]), Offset(row, col), pixel)
    {
      var start := row * col * 4;
      if |pixel| != 4 {
        return Fail(WrongPixelArity);
      }
      pixelArray[start] := ToUint8Clamp(pixel[0]);
      pixelArray[start + 1] := ToUint8Clamp(pixel[1]);
      pixelArray[start + 2] := ToUint8Clamp(pixel[0]);
      pixelArray[start + 3] := ToUint8Clamp(pixel[0]);
      r := Pass;
    }
  }

  /** The offset is symmetric in row and col, and row 0 or col 0 is pixel 0. */
  lemma OffsetSymmetric(row: int, col: int)
    ensures Offset(row, col) == Offset(col, row)
    ensures row == 0 || col == 0 ==> Offset(row, col) == 0
  {
  }

  /**
   * Within a `width` by `height` raster visited as `row < width`,
   * `col < height`, the offset never leaves a buffer of `width * height * 4`
   * bytes, and every offset stays at or below that of (width - 1, height - 1).
   */
  lemma OffsetFitsRaster(width: nat, height: nat, row: int, col: int)
    requires 0 <= row < width && 0 <= col < height
    ensures 0 <= Offset(row, col) <= Offset(width - 1, height - 1)
    ensures Fits(width * height * 4, row, col)
  {
    assert 0 <= row * col <= row * (height - 1) by {
      MulMonotone(row, col, height - 1);
    }
    assert row * (height - 1) <= (width - 1) * (height - 1) by {
      MulMonotone(height - 1, row, width - 1);
    }
    assert (width - 1) * (height - 1) == width * height - width - height + 1;
  }

  lemma MulMonotone(a: nat, x: int, y: int)
    requires 0 <= x <= y
    ensures 0 <= a * x <= a * y
  {
  }

  /** Reading back a stored pixel: channels 0 and 1 survive, 2 and 3 do not. */
  lemma StoreThenRead(buf: seq<Byte>, start: int, pixel: seq<real>)
    requires 0 <= start && start + 3 < |buf| && |pixel| == 4
    ensures PixelAt(StoreAt(buf, start, pixel), start) ==
      [ToUint8Clamp(pixel[0]) as real, ToUint8Clamp(pixel[1]) as real,
       ToUint8Clamp(pixel[0]) as real, ToUint8Clamp(pixel[0]) as real]
  {
  }

  /** Storing the same pixel twice is the same as storing it once. */
  lemma StoreIdempotent(buf: seq<Byte>, start: int, pixel: seq<real>)
    requires 0 <= start && start + 3 < |buf| && |pixel| == 4
    ensures StoreAt(StoreAt(buf, start, pixel), start, pixel) == StoreAt(buf, start, pixel)
  {
  }
}

/**
 * Corrected addressing and storing, beside the code as written above:
 * the evidently intended offset is row-major over `width` pixels per row,
 * and every channel goes into its own byte.
 */
module PixelsIntended {
  import opened Clamped
  import opened Pixels

  /** `(row * width + col) * 4`. */
  function IntendedOffset(width: nat, row: int, col: int): (r: int)
    ensures r % 4 == 0
    ensures 0 <= row && 0 <= col < width ==> row * width * 4 <= r < (row + 1) * width * 4
  {
    (row * width + col) * 4
  }

  /** The as-written offset sends distinct pixels to the same bytes. */
  lemma OffsetCollides()
    ensures Offset(0, 5) == Offset(3, 0) == 0
    ensures Offset(1, 2) == Offset(2, 1)
  {
  }

  /**
   * The intended offset gives every pixel of a `width` by `height` image its
   * own four bytes inside the buffer.
   */
  lemma IntendedOffsetInjective(width: nat, height: nat, r1: int, c1: int, r2: int, c2: int)
    requires 0 <= r1 < height && 0 <= c1 < width
    requires 0 <= r2 < height && 0 <= c2 < width
    ensures 0 <= IntendedOffset(width, r1, c1) && IntendedOffset(width, r1, c1) + 3 < width * height * 4
    ensures IntendedOffset(width, r1, c1) == IntendedOffset(width, r2, c2) <==> r1 == r2 && c1 == c2
  {
    RowStartsSeparate(width, r1, c1, height);
    if r1 < r2 {
      RowStartsSeparate(width, r1, c1, r2);
    } else if r2 < r1 {
      RowStartsSeparate(width, r2, c2, r1);
    }
  }

  /** Pixel (r, c) lies before the first pixel of any later row `r'`. */
  lemma RowStartsSeparate(width: nat, r: int, c: int, r': int)
    requires 0 <= r < r' && 0 <= c < width
    ensures 0 <= r * width + c < r' * width
  {
    assert (r + 1) * width <= r' * width by {
      MulMonotone(width, r + 1, r');
    }
  }

  /** The buffer after storing `pixel` with each channel in its own byte. */
  function IntendedStoreAt(buf: seq<Byte>, start: int, pixel: seq<real>): (r: seq<Byte>)
    requires 0 <= start && start + 3 < |buf|
    requires |pixel| == 4
    ensures |r| == |buf|
    ensures forall k :: 0 <= k < 4 ==> r[start + k] == ToUint8Clamp(pixel[k])
    ensures forall i :: 0 <= i < |buf| && !(start <= i < start + 4) ==> r[i] == buf[i]
  {
    buf[start := ToUint8Clamp(pixel[0])]
       [start + 1 := ToUint8Clamp(pixel[1])]
       [start + 2 := ToUint8Clamp(pixel[2])]
       [start + 3 := ToUint8Clamp(pixel[3])]
  }

  /** As written, a stored [1, 2, 3, 4] reads back as [1, 2, 1, 1]. */
  lemma StoreLosesBlueAndAlpha(buf: seq<Byte>)
    requires |buf| >= 4
    ensures PixelAt(StoreAt(buf, 0, [1.0, 2.0, 3.0, 4.0]), 0) == [1.0, 2.0, 1.0, 1.0]
  {
    StoreThenRead(buf, 0, [1.0, 2.0, 3.0, 4.0]);
  }

  /** Intended: a pixel of bytes is read back exactly as it was stored. */
  lemma IntendedStoreRoundTrip(buf: seq<Byte>, start: int, pixel: seq<real>)
    requires 0 <= start && start + 3 < |buf| && |pixel| == 4
    requires forall k :: 0 <= k < 4 ==> pixel[k] == pixel[k].Floor as real && 0.0 <= pixel[k] <= 255.0
    ensures PixelAt(IntendedStoreAt(buf, start, pixel), start) == pixel
  {
    var r := PixelAt(IntendedStoreAt(buf, start, pixel), start);
    forall k | 0 <= k < 4
      ensures r[k] == pixel[k]
    {
      ByteStoredExactly(pixel[k].Floor);
    }
  }
}
