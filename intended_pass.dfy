/**
 * The raster pass `iterate` evidently means: rows up to `height`, columns up
 * to `width`, each pixel read from the unchanged source at its own row-major
 * offset and its four processed channels stored into its own four bytes of
 * the target.
 */
module IntendedPasses {
  import opened Clamped
  import opened Pixels
  import opened PixelsIntended
  import opened Raster

  /** `at` is a pixel of a `width` by `height` image. */
  predicate InImage(width: nat, height: nat, at: Coord) {
    0 <= at.row < height && 0 <= at.col < width
  }

  predicate AllInImage(width: nat, height: nat, coords: seq<Coord>) {
    forall i :: 0 <= i < |coords| ==> InImage(width, height, coords[i])
  }

  predicate Distinct(coords: seq<Coord>) {
    forall i, j :: 0 <= i < j < |coords| ==> coords[i] != coords[j]
  }

  /** The byte `i` lies in the four bytes of pixel `at`. */
  predicate Covers(width: nat, at: Coord, i: int) {
    IntendedOffset(width, at.row, at.col) <= i < IntendedOffset(width, at.row, at.col) + 4
  }

  /** Two different pixels of the image own disjoint bytes. */
  lemma BlocksDisjoint(width: nat, height: nat, a: Coord, b: Coord, j: int)
    requires InImage(width, height, a) && InImage(width, height, b) && a != b && 0 <= j < 4
    ensures !Covers(width, b, IntendedOffset(width, a.row, a.col) + j)
  {
    IntendedOffsetInjective(width, height, a.row, a.col, b.row, b.col);
    var ia, ib := a.row * width + a.col, b.row * width + b.col;
    assert IntendedOffset(width, a.row, a.col) == 4 * ia;
    assert IntendedOffset(width, b.row, b.col) == 4 * ib;
  }

  /** One corrected iteration: read from `src`, process, store every channel. */
  function IntendedStep(st: PassState, at: Coord, width: nat, height: nat, proc: Processor, src: seq<Byte>): (r: PassState)
    requires |st.buf| == width * height * 4 && |src| == |st.buf| && InImage(width, height, at)
    ensures |r.buf| == |st.buf|
  {
    IntendedOffsetInjective(width, height, at.row, at.col, at.row, at.col);
    match st
    case Aborted(_) => st
    case Running(buf) =>
      var start := IntendedOffset(width, at.row, at.col);
      var out := proc(PixelAt(src, start), at.row, at.col);
      if |out| != 4 then Aborted(buf) else Running(IntendedStoreAt(buf, start, out))
  }

  function IntendedRun(st: PassState, coords: seq<Coord>, width: nat, height: nat, proc: Processor, src: seq<Byte>): (r: PassState)
    requires |st.buf| == width * height * 4 && |src| == |st.buf| && AllInImage(width, height, coords)
    ensures |r.buf| == |st.buf|
    decreases |coords|
  {
    if coords == [] then st
    else IntendedRun(IntendedStep(st, coords[0], width, height, proc, src), coords[1..], width, height, proc, src)
  }

  /**
   * The corrected pass over a `width` by `height` image: rows up to
   * `height`, columns up to `width`, into `target`, reading from `src`.
   */
  function IntendedPass(target: seq<Byte>, src: seq<Byte>, width: nat, height: nat, proc: Processor): (r: PassState)
    requires |target| == width * height * 4 && |src| == |target|
    ensures |r.buf| == |target|
  {
    IntendedRowMajorInImage(width, height);
    IntendedRun(Running(target), RowMajor(height, width), width, height, proc, src)
  }

  /** The corrected traversal visits each pixel of the image once. */
  lemma IntendedRowMajorInImage(width: nat, height: nat)
    ensures AllInImage(width, height, RowMajor(height, width))
    ensures Distinct(RowMajor(height, width))
    ensures forall at :: InImage(width, height, at) ==> at in RowMajor(height, width)
  {
    RowMajorVisitsOnce(height, width);
    var coords := RowMajor(height, width);
    forall i | 0 <= i < |coords|
      ensures InImage(width, height, coords[i])
    {
      assert coords[i] in coords;
    }
  }

  /** With a processor that always returns four channels, the pass never stops. */
  lemma {:induction false} IntendedRunCompletes(st: PassState, coords: seq<Coord>, width: nat, height: nat, proc: Processor, src: seq<Byte>)
    requires |st.buf| == width * height * 4 && |src| == |st.buf| && AllInImage(width, height, coords)
    requires st.Running? && forall p, row, col :: |proc(p, row, col)| == 4
    ensures IntendedRun(st, coords, width, height, proc, src).Running?
    decreases |coords|
  {
    if coords != [] {
      IntendedRunCompletes(IntendedStep(st, coords[0], width, height, proc, src), coords[1..], width, height, proc, src);
    }
  }

  /** A byte that no visited pixel owns keeps its value. */
  lemma {:induction false} IntendedRunLeaves(st: PassState, coords: seq<Coord>, width: nat, height: nat, proc: Processor, src: seq<Byte>, i: int)
    requires |st.buf| == width * height * 4 && |src| == |st.buf| && AllInImage(width, height, coords)
    requires 0 <= i < |st.buf| && forall k :: 0 <= k < |coords| ==> !Covers(width, coords[k], i)
    ensures IntendedRun(st, coords, width, height, proc, src).buf[i] == st.buf[i]
    decreases |coords|
  {
    if coords != [] {
      assert forall k :: 0 <= k < |coords[1..]| ==> coords[1..][k] == coords[k + 1];
      IntendedRunLeaves(IntendedStep(st, coords[0], width, height, proc, src), coords[1..], width, height, proc, src, i);
    }
  }

  /** Every visited pixel ends up holding the processed source pixel. */
  lemma {:induction false} IntendedRunWrites(st: PassState, coords: seq<Coord>, width: nat, height: nat, proc: Processor, src: seq<Byte>, k: int, j: int)
    requires |st.buf| == width * height * 4 && |src| == |st.buf| && AllInImage(width, height, coords)
    requires st.Running? && forall p, row, col :: |proc(p, row, col)| == 4
    requires Distinct(coords) && 0 <= k < |coords| && 0 <= j < 4
    ensures var at := coords[k];
      var start := IntendedOffset(width, at.row, at.col);
      && 0 <= start && start + 3 < |src|
      && IntendedRun(st, coords, width, height, proc, src).buf[start + j]
         == ToUint8Clamp(proc(PixelAt(src, start), at.row, at.col)[j])
    decreases |coords|
  {
    var at := coords[k];
    IntendedOffsetInjective(width, height, at.row, at.col, at.row, at.col);
    var next := IntendedStep(st, coords[0], width, height, proc, src);
    var rest := coords[1..];
    assert forall m :: 0 <= m < |rest| ==> rest[m] == coords[m + 1];
    if k > 0 {
      IntendedRunWrites(next, rest, width, height, proc, src, k - 1, j);
    } else {
      var start := IntendedOffset(width, at.row, at.col);
      forall m | 0 <= m < |rest|
        ensures !Covers(width, rest[m], start + j)
      {
        BlocksDisjoint(width, height, at, rest[m], j);
      }
      IntendedRunLeaves(next, rest, width, height, proc, src, start + j);
    }
  }

  /**
   * The corrected pass maps the image pixel by pixel: with a processor that
   * always returns four channels, it completes, and each channel of each
   * pixel (row < height, col < width) of the result is the processor's
   * result on the same pixel of the source, stored as a clamped byte.
   */
  lemma IntendedPassMapsEveryPixel(target: seq<Byte>, src: seq<Byte>, width: nat, height: nat, proc: Processor, row: int, col: int, j: int)
    requires |target| == width * height * 4 && |src| == |target|
    requires forall p, r, c :: |proc(p, r, c)| == 4
    requires 0 <= row < height && 0 <= col < width && 0 <= j < 4
    ensures var start := IntendedOffset(width, row, col);
      && 0 <= start && start + 3 < |src|
      && IntendedPass(target, src, width, height, proc).Running?
      && IntendedPass(target, src, width, height, proc).buf[start + j]
         == ToUint8Clamp(proc(PixelAt(src, start), row, col)[j])
  {
    IntendedRowMajorInImage(width, height);
    var coords := RowMajor(height, width);
    assert InImage(width, height, Coord(row, col));
    var k :| 0 <= k < |coords| && coords[k] == Coord(row, col);
    IntendedRunCompletes(Running(target), coords, width, height, proc, src);
    IntendedRunWrites(Running(target), coords, width, height, proc, src, k, j);
  }
}
