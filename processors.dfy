/**
 * The per-pixel processors that `beRed`, `beGreen`, `beBlue` and `beGray`
 * hand to `iterate`.  None of them looks at the row or the column.
 */
module Processors {
  import opened Clamped
  import opened Pixels

  /** Keeps red and alpha, zeroes green and blue. */
  function RedOf(pixel: Pixel, row: int, col: int): (r: seq<real>)
    ensures |r| == 4
  {
    [pixel[0], 0.0, 0.0, pixel[3]]
  }

  /** Keeps green and alpha, zeroes red and blue. */
  function GreenOf(pixel: Pixel, row: int, col: int): (r: seq<real>)
    ensures |r| == 4
  {
    [0.0, pixel[1], 0.0, pixel[3]]
  }

  /** Keeps blue and alpha, zeroes red and green. */
  function BlueOf(pixel: Pixel, row: int, col: int): (r: seq<real>)
    ensures |r| == 4
  {
    [0.0, 0.0, pixel[2], pixel[3]]
  }

  /** The luminance-weighted sum of red, green and blue. */
  function Intensity(pixel: Pixel): (r: real)
    ensures Min3(pixel[0], pixel[1], pixel[2]) <= r <= Max3(pixel[0], pixel[1], pixel[2])
  {
    pixel[0] * 0.2126 + pixel[1] * 0.7152 + pixel[2] * 0.0722
  }

  /** Puts the intensity into red, green and blue, keeps alpha. */
  function GrayOf(pixel: Pixel, row: int, col: int): (r: seq<real>)
    ensures |r| == 4
  {
    var intensity := Intensity(pixel);
    [intensity, intensity, intensity, pixel[3]]
  }

  /**
   * The channel processors keep exactly one colour channel and alpha, ignore
   * the coordinates, and applying one twice gives what applying it once gave.
   */
  lemma ChannelProcessorsIdempotent(p: Pixel, row: int, col: int, row': int, col': int)
    ensures RedOf(p, row, col) == [p[0], 0.0, 0.0, p[3]] == RedOf(p, row', col')
    ensures GreenOf(p, row, col) == [0.0, p[1], 0.0, p[3]] == GreenOf(p, row', col')
    ensures BlueOf(p, row, col) == [0.0, 0.0, p[2], p[3]] == BlueOf(p, row', col')
    ensures RedOf(RedOf(p, row, col), row', col') == RedOf(p, row, col)
    ensures GreenOf(GreenOf(p, row, col), row', col') == GreenOf(p, row, col)
    ensures BlueOf(BlueOf(p, row, col), row', col') == BlueOf(p, row, col)
  {
  }

  /**
   * The three weights sum to 1, so the intensity lies between the smallest
   * and the largest of red, green and blue, hence in [0, 255] for byte
   * channels, and graying is idempotent.
   */
  lemma IntensityIsWeightedMean(p: Pixel, row: int, col: int)
    ensures 0.2126 + 0.7152 + 0.0722 == 1.0
    ensures Intensity(p) >= Min3(p[0], p[1], p[2]) && Intensity(p) <= Max3(p[0], p[1], p[2])
    ensures 0.0 <= p[0] <= 255.0 && 0.0 <= p[1] <= 255.0 && 0.0 <= p[2] <= 255.0 ==> 0.0 <= Intensity(p) <= 255.0
    ensures GrayOf(GrayOf(p, row, col), row, col) == GrayOf(p, row, col)
  {
    var g := GrayOf(p, row, col);
    assert Intensity(g) == Intensity(p) * (0.2126 + 0.7152 + 0.0722);
  }

  function Min3(a: real, b: real, c: real): real {
    if a <= b && a <= c then a else if b <= c then b else c
  }

  function Max3(a: real, b: real, c: real): real {
    if a >= b && a >= c then a else if b >= c then b else c
  }

  /**
   * What the as-written `setPixel` leaves of each processor's result: red
   * becomes [r, 0, r, r], green [0, g, 0, 0], blue all zero, and gray puts
   * the intensity into alpha as well.
   */
  lemma StoredProcessorResults(buf: seq<Byte>, start: int, row: int, col: int)
    requires 0 <= start && start + 3 < |buf|
    ensures var p := PixelAt(buf, start);
      && StoreAt(buf, start, RedOf(p, row, col))[start..start + 4] == [buf[start], 0, buf[start], buf[start]]
      && StoreAt(buf, start, GreenOf(p, row, col))[start..start + 4] == [0, buf[start + 1], 0, 0]
      && StoreAt(buf, start, BlueOf(p, row, col))[start..start + 4] == [0, 0, 0, 0]
      && var i := ToUint8Clamp(Intensity(p));
         StoreAt(buf, start, GrayOf(p, row, col))[start..start + 4] == [i, i, i, i]
  {
    var p := PixelAt(buf, start);
    ByteStoredExactly(buf[start]);
    ByteStoredExactly(buf[start + 1]);
    ByteStoredExactly(0);
  }

  /** The pixel [100, 150, 200, 255] grays to intensity 142.98, stored as 143 in all four bytes. */
  lemma GrayExample(buf: seq<Byte>)
    requires |buf| >= 4 && buf[..4] == [100, 150, 200, 255]
    ensures Intensity(PixelAt(buf, 0)) == 142.98
    ensures StoreAt(buf, 0, GrayOf(PixelAt(buf, 0), 0, 0))[..4] == [143, 143, 143, 143]
  {
    assert buf[0] == 100 && buf[1] == 150 && buf[2] == 200 && buf[3] == 255;
    assert ToUint8Clamp(142.98) == 143;
  }
}

/** What whole passes of the processors do to a buffer, as written. */
module ProcessorPasses {
  import opened Clamped
  import opened Pixels
  import opened Raster
  import opened RasterPasses
  import opened Processors

  /**
   * A pass of `BlueOf` leaves zero in every byte that some visited
   * coordinate addresses: `setPixel` stores channel 0 (which `BlueOf` sets to
   * zero) into three of the four bytes and channel 1 (also zero) into the
   * fourth.
   */
  lemma {:induction false} BluePassZeroes(st: PassState, coords: seq<Coord>, src: Source, k: int, i: int)
    requires st.Running? && AllFit(|st.buf|, coords) && Readable(src, |st.buf|)
    requires 0 <= k < |coords| && Addresses(coords[k], i)
    ensures 0 <= i < |st.buf| && Run(st, coords, BlueOf, src).buf[i] == 0
    decreases |coords|
  {
    var next := Step(st, coords[0], BlueOf, src);
    var rest := coords[1..];
    assert Run(st, coords, BlueOf, src) == Run(next, rest, BlueOf, src);
    assert AllFit(|next.buf|, rest) by {
      assert forall j :: 0 <= j < |rest| ==> rest[j] == coords[j + 1];
    }
    BlueStep(st, coords[0], src, i);
    if k > 0 {
      assert rest[k - 1] == coords[k];
      BluePassZeroes(next, rest, src, k - 1, i);
    } else if j :| 0 <= j < |rest| && Addresses(rest[j], i) {
      BluePassZeroes(next, rest, src, j, i);
    } else {
      RunLeavesUnaddressed(next, rest, BlueOf, src, i);
    }
  }

  /** One step of a `BlueOf` pass keeps the pass running and zeroes the four bytes it addresses. */
  lemma BlueStep(st: PassState, at: Coord, src: Source, i: int)
    requires st.Running? && Fits(|st.buf|, at.row, at.col) && Readable(src, |st.buf|)
    ensures Step(st, at, BlueOf, src).Running?
    ensures Addresses(at, i) ==> 0 <= i < |st.buf| && Step(st, at, BlueOf, src).buf[i] == 0
  {
    var start := Offset(at.row, at.col);
    StoredProcessorResults(st.buf, start, at.row, at.col);
    if Addresses(at, i) {
      var next := Step(st, at, BlueOf, src);
      assert next.buf[i] == next.buf[start..start + 4][i - start];
    }
  }

  /** The four bytes of `at` include byte `i`. */
  predicate Addresses(at: Coord, i: int) {
    Offset(at.row, at.col) <= i < Offset(at.row, at.col) + 4
  }

  /**
   * `beBlue` as written turns every pixel it reaches into [0, 0, 0, 0]:
   * for each visited (row < width, col < height), the four bytes at
   * `row * col * 4` end up zero, whatever the image held.
   */
  lemma BeBlueBlacksOut(buf: seq<Byte>, width: nat, height: nat, row: int, col: int, i: int)
    requires |buf| == width * height * 4
    requires 0 <= row < width && 0 <= col < height
    requires Offset(row, col) <= i < Offset(row, col) + 4
    ensures 0 <= i < |buf| && RasterPass(buf, width, height, BlueOf).buf[i] == 0
  {
    RowMajorVisitsOnce(width, height);
    RowMajorFits(width, height);
    var coords := RowMajor(width, height);
    assert Coord(row, col) in coords;
    var k :| 0 <= k < |coords| && coords[k] == Coord(row, col);
    assert Addresses(coords[k], i);
    BluePassZeroes(Running(buf), coords, Self, k, i);
  }

  /**
   * Copy mode as written still stores into the image's own buffer: `beRed`
   * on a 1 by 1 image holding [1, 2, 3, 4] leaves [1, 0, 1, 1] behind in the
   * source, while the image it returns holds zeros.
   */
  lemma CopyModeChangesSource()
    ensures RasterPass([1, 2, 3, 4], 1, 1, RedOf).buf == [1, 0, 1, 1]
  {
    var buf: seq<Byte> := [1, 2, 3, 4];
    assert RowMajor(1, 1) == [Coord(0, 0)] by {
      assert RowMajor(0, 1) == [];
      assert RowCoords(0, 1) == [Coord(0, 0)];
    }
    RowMajorFits(1, 1);
    var st := Step(Running(buf), Coord(0, 0), RedOf, Self);
    assert Run(Running(buf), [Coord(0, 0)], RedOf, Self) == Run(st, [], RedOf, Self);
    ByteStoredExactly(1);
    ByteStoredExactly(0);
    assert st == Running(StoreAt(buf, 0, [1.0, 0.0, 0.0, 4.0]));
  }

  /**
   * Copy mode as intended: the same pass stores into the zero-filled copy
   * and reads from the source, which keeps [1, 2, 3, 4]; the copy receives
   * what the as-written `setPixel` stores, [1, 0, 1, 1].
   */
  lemma CopyModeIntendedExample()
    ensures PassOver([0, 0, 0, 0], 1, 1, RedOf, Frozen([1, 2, 3, 4])).buf == [1, 0, 1, 1]
  {
    var buf: seq<Byte> := [0, 0, 0, 0];
    assert RowMajor(1, 1) == [Coord(0, 0)] by {
      assert RowMajor(0, 1) == [];
      assert RowCoords(0, 1) == [Coord(0, 0)];
    }
    RowMajorFits(1, 1);
    var st := Step(Running(buf), Coord(0, 0), RedOf, Frozen([1, 2, 3, 4]));
    assert Run(Running(buf), [Coord(0, 0)], RedOf, Frozen([1, 2, 3, 4])) == Run(st, [], RedOf, Frozen([1, 2, 3, 4]));
    ByteStoredExactly(1);
    ByteStoredExactly(0);
    assert st == Running(StoreAt(buf, 0, [1.0, 0.0, 0.0, 4.0]));
  }
}
