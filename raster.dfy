/**
 * The raster pass `iterate` performs, as a specification: the coordinates the
 * two nested loops visit, and the buffer that results from reading, processing
 * and storing one pixel per visited coordinate, in that order.
 */
module Raster {
  import opened Clamped
  import opened Pixels

  datatype Coord = Coord(row: int, col: int)

  /** A per-pixel processor: (pixel, row, col) to the channels to store. */
  type Processor = (Pixel, int, int) -> seq<real>

  /** The coordinates of one pass of the inner loop: (row, 0) .. (row, cols - 1). */
  function RowCoords(row: int, cols: nat): (r: seq<Coord>)
    ensures |r| == cols
  {
    seq(cols, c => Coord(row, c))
  }

  /** The coordinates `for row < rows { for col < cols }` visits, in order. */
  function RowMajor(rows: nat, cols: nat): (r: seq<Coord>)
    ensures |r| == rows * cols
  {
    if rows == 0 then [] else RowMajor(rows - 1, cols) + RowCoords(rows - 1, cols)
  }

  /** `a` comes strictly before `b` in row-major order. */
  predicate Before(a: Coord, b: Coord) {
    a.row < b.row || (a.row == b.row && a.col < b.col)
  }

  /**
   * Row-major traversal visits exactly the coordinates of the rectangle,
   * each once, in strictly increasing row-major order.
   */
  lemma {:induction false} RowMajorVisitsOnce(rows: nat, cols: nat)
    ensures |RowMajor(rows, cols)| == rows * cols
    ensures forall at: Coord :: at in RowMajor(rows, cols) <==> 0 <= at.row < rows && 0 <= at.col < cols
    ensures forall i, j :: 0 <= i < j < |RowMajor(rows, cols)| ==> Before(RowMajor(rows, cols)[i], RowMajor(rows, cols)[j])
  {
    if rows > 0 {
      RowMajorVisitsOnce(rows - 1, cols);
      var prev, last := RowMajor(rows - 1, cols), RowCoords(rows - 1, cols);
      assert RowMajor(rows, cols) == prev + last;
      forall at: Coord
        ensures at in prev + last <==> 0 <= at.row < rows && 0 <= at.col < cols
      {
        if at.row == rows - 1 && 0 <= at.col < cols {
          assert last[at.col] == at;
        }
      }
      forall i, j | 0 <= i < j < |prev + last|
        ensures Before((prev + last)[i], (prev + last)[j])
      {
        if j >= |prev| && i < |prev| {
          assert prev[i] in prev;
        }
      }
      assert |prev + last| == (rows - 1) * cols + cols;
    }
  }

  /** A shorter traversal is a prefix of a longer one with the same row length. */
  lemma {:induction false} RowMajorPrefix(rows: nat, rows': nat, cols: nat)
    requires rows <= rows'
    ensures RowMajor(rows, cols) <= RowMajor(rows', cols)
  {
    if rows < rows' {
      RowMajorPrefix(rows, rows' - 1, cols);
    }
  }

  /** The state of a pass: still running, or stopped by a throwing `setPixel`. */
  datatype PassState = Running(buf: seq<Byte>) | Aborted(buf: seq<Byte>)

  /**
   * Where a pass reads pixels from: the buffer it is writing (`Self`), or a
   * separate source buffer that the pass leaves alone (`Frozen`).
   */
  datatype Source = Self | Frozen(bytes: seq<Byte>)

  /** The source can be read wherever the written buffer can. */
  predicate Readable(src: Source, len: int) {
    src.Frozen? ==> |src.bytes| == len
  }

  /** Every coordinate of `coords` addresses four bytes inside `len`. */
  predicate AllFit(len: int, coords: seq<Coord>) {
    forall i :: 0 <= i < |coords| ==> Fits(len, coords[i].row, coords[i].col)
  }

  /**
   * One iteration of the inner loop body: read the pixel, process it, and
   * store the result, or stop when the result does not have four channels.
   */
  function Step(st: PassState, at: Coord, proc: Processor, src: Source): (r: PassState)
    requires Fits(|st.buf|, at.row, at.col) && Readable(src, |st.buf|)
    ensures |r.buf| == |st.buf|
  {
    match st
    case Aborted(_) => st
    case Running(buf) =>
      var start := Offset(at.row, at.col);
      var out := proc(PixelAt(if src.Frozen? then src.bytes else buf, start), at.row, at.col);
      if |out| != 4 then Aborted(buf) else Running(StoreAt(buf, start, out))
  }

  /** The pass over `coords`, one `Step` per coordinate, in order. */
  function Run(st: PassState, coords: seq<Coord>, proc: Processor, src: Source): (r: PassState)
    requires AllFit(|st.buf|, coords) && Readable(src, |st.buf|)
    ensures |r.buf| == |st.buf|
    decreases |coords|
  {
    if coords == [] then st else Run(Step(st, coords[0], proc, src), coords[1..], proc, src)
  }

  /** Running two stretches of coordinates one after the other. */
  lemma {:induction false} RunAppend(st: PassState, xs: seq<Coord>, ys: seq<Coord>, proc: Processor, src: Source)
    requires AllFit(|st.buf|, xs + ys) && Readable(src, |st.buf|)
    ensures AllFit(|st.buf|, xs) && AllFit(|Run(st, xs, proc, src).buf|, ys)
    ensures Run(st, xs + ys, proc, src) == Run(Run(st, xs, proc, src), ys, proc, src)
    decreases |xs|
  {
    assert forall i :: 0 <= i < |xs| ==> xs[i] == (xs + ys)[i];
    assert forall i :: 0 <= i < |ys| ==> ys[i] == (xs + ys)[|xs| + i];
    if xs != [] {
      assert (xs + ys)[1..] == xs[1..] + ys;
      RunAppend(Step(st, xs[0], proc, src), xs[1..], ys, proc, src);
    } else {
      assert xs + ys == ys;
    }
  }

  /** Once a pass has stopped, the rest of the coordinates change nothing. */
  lemma {:induction false} RunAbortedStays(b: seq<Byte>, coords: seq<Coord>, proc: Processor, src: Source)
    requires AllFit(|b|, coords) && Readable(src, |b|)
    ensures Run(Aborted(b), coords, proc, src) == Aborted(b)
    decreases |coords|
  {
    if coords != [] {
      RunAbortedStays(b, coords[1..], proc, src);
    }
  }

  /** A pass that has stopped after a prefix has stopped for the whole list. */
  lemma RunAbortedPrefix(st: PassState, xs: seq<Coord>, ys: seq<Coord>, proc: Processor, src: Source)
    requires xs <= ys && AllFit(|st.buf|, ys) && Readable(src, |st.buf|)
    requires AllFit(|st.buf|, xs) && Run(st, xs, proc, src).Aborted?
    ensures Run(st, ys, proc, src) == Run(st, xs, proc, src)
  {
    assert ys == xs + ys[|xs|..];
    RunAppend(st, xs, ys[|xs|..], proc, src);
    RunAbortedStays(Run(st, xs, proc, src).buf, ys[|xs|..], proc, src);
  }

  /** With a processor that always returns four channels, a pass never stops. */
  lemma {:induction false} RunCompletes(st: PassState, coords: seq<Coord>, proc: Processor, src: Source)
    requires AllFit(|st.buf|, coords) && Readable(src, |st.buf|) && st.Running?
    requires forall p, row, col :: |proc(p, row, col)| == 4
    ensures Run(st, coords, proc, src).Running?
    decreases |coords|
  {
    if coords != [] {
      RunCompletes(Step(st, coords[0], proc, src), coords[1..], proc, src);
    }
  }

  /**
   * Bytes that no visited coordinate addresses keep their value through the
   * pass, whatever the processor does.
   */
  lemma {:induction false} RunLeavesUnaddressed(st: PassState, coords: seq<Coord>, proc: Processor, src: Source, i: int)
    requires AllFit(|st.buf|, coords) && Readable(src, |st.buf|) && 0 <= i < |st.buf|
    requires forall k :: 0 <= k < |coords| ==> !(Offset(coords[k].row, coords[k].col) <= i < Offset(coords[k].row, coords[k].col) + 4)
    ensures Run(st, coords, proc, src).buf[i] == st.buf[i]
    decreases |coords|
  {
    if coords != [] {
      assert forall k :: 0 <= k < |coords[1..]| ==> coords[1..][k] == coords[k + 1];
      RunLeavesUnaddressed(Step(st, coords[0], proc, src), coords[1..], proc, src, i);
    }
  }

  /** The as-written traversal stays inside a `width * height * 4` byte buffer. */
  lemma RowMajorFits(width: nat, height: nat)
    ensures AllFit(width * height * 4, RowMajor(width, height))
  {
    RowMajorVisitsOnce(width, height);
    forall i | 0 <= i < |RowMajor(width, height)|
      ensures Fits(width * height * 4, RowMajor(width, height)[i].row, RowMajor(width, height)[i].col)
    {
      var at := RowMajor(width, height)[i];
      assert at in RowMajor(width, height);
      OffsetFitsRaster(width, height, at.row, at.col);
    }
  }

  /** Both sides above 1: the last pixel's bytes lie past every written byte. */
  lemma LastPixelBeyondReach(width: nat, height: nat)
    requires width >= 2 && height >= 2
    ensures Offset(width - 1, height - 1) + 4 <= (width * height - 1) * 4
  {
    assert (width - 1) * (height - 1) == width * height - width - height + 1;
  }

  /**
   * The evidently intended traversal: `row < height`, `col < width`.  As
   * written, a 2-wide, 1-high image visits row 1, which does not exist, and
   * never visits column 1.
   */
  lemma SwappedBoundsExample()
    ensures RowMajor(2, 1) == [Coord(0, 0), Coord(1, 0)]
    ensures RowMajor(1, 2) == [Coord(0, 0), Coord(0, 1)]
  {
    assert RowMajor(1, 1) == [Coord(0, 0)];
    assert RowCoords(1, 1) == [Coord(1, 0)];
    assert RowMajor(0, 2) == [];
    assert RowCoords(0, 2) == [Coord(0, 0), Coord(0, 1)];
  }
}

/** The whole pass of `iterate`'s nested loops over a `width` by `height` image. */
module RasterPasses {
  import opened Clamped
  import opened Pixels
  import opened Raster

  /**
   * Reading, processing and storing every (row < width, col < height),
   * row-major, into `buf`, reading pixels from `src`.
   */
  function PassOver(buf: seq<Byte>, width: nat, height: nat, proc: Processor, src: Source): (r: PassState)
    requires |buf| == width * height * 4 && Readable(src, |buf|)
    ensures |r.buf| == |buf|
  {
    RowMajorFits(width, height);
    Run(Running(buf), RowMajor(width, height), proc, src)
  }

  /** The pass after the outer loop has run `rows` times. */
  function RowsDone(buf: seq<Byte>, width: nat, height: nat, rows: nat, proc: Processor, src: Source): (r: PassState)
    requires rows <= width && |buf| == width * height * 4 && Readable(src, |buf|)
    ensures |r.buf| == |buf|
    ensures rows == 0 ==> r == Running(buf)
    ensures rows == width ==> r == PassOver(buf, width, height, proc, src)
  {
    RowsFit(width, height, rows);
    Run(Running(buf), RowMajor(rows, height), proc, src)
  }

  /** The first `rows` rows of the traversal fit the buffer. */
  lemma RowsFit(width: nat, height: nat, rows: nat)
    requires rows <= width
    ensures AllFit(width * height * 4, RowMajor(rows, height))
  {
    RowMajorFits(width, height);
    RowMajorPrefix(rows, width, height);
    var whole := RowMajor(width, height);
    var part := RowMajor(rows, height);
    assert forall i :: 0 <= i < |part| ==> part[i] == whole[i];
  }

  /** The pass as written: reading and writing the image's own buffer. */
  function RasterPass(buf: seq<Byte>, width: nat, height: nat, proc: Processor): (r: PassState)
    requires |buf| == width * height * 4
    ensures |r.buf| == |buf|
  {
    PassOver(buf, width, height, proc, Self)
  }

  /** The coordinates the loops have visited after `col` columns of row `row`. */
  function Visited(row: nat, col: nat, height: nat): seq<Coord>
    requires col <= height
  {
    RowMajor(row, height) + RowCoords(row, height)[..col]
  }

  /** Every visited prefix lies inside the traversal and fits the buffer. */
  lemma VisitedFits(width: nat, height: nat, row: nat, col: nat)
    requires row < width && col <= height
    ensures Visited(row, col, height) <= RowMajor(width, height)
    ensures AllFit(width * height * 4, Visited(row, col, height))
  {
    RowMajorPrefix(row + 1, width, height);
    assert RowMajor(row + 1, height) == RowMajor(row, height) + RowCoords(row, height);
    assert Visited(row, col, height) <= RowMajor(row + 1, height);
    RowMajorFits(width, height);
    var all := RowMajor(width, height);
    var v := Visited(row, col, height);
    assert forall i :: 0 <= i < |v| ==> v[i] == all[i];
  }

  /** A row's first and last visited prefixes are whole rows of the traversal. */
  lemma VisitedEnds(row: nat, height: nat)
    ensures Visited(row, 0, height) == RowMajor(row, height)
    ensures Visited(row, height, height) == RowMajor(row + 1, height)
  {
    assert RowCoords(row, height)[..0] == [];
    assert RowCoords(row, height)[..height] == RowCoords(row, height);
  }

  /** The pass after the inner loop of row `row` has run `col` times. */
  function ColsDone(buf: seq<Byte>, width: nat, height: nat, row: nat, col: nat, proc: Processor, src: Source): (r: PassState)
    requires row < width && col <= height && |buf| == width * height * 4 && Readable(src, |buf|)
    ensures |r.buf| == |buf|
    ensures col == 0 ==> r == RowsDone(buf, width, height, row, proc, src)
    ensures col == height ==> r == RowsDone(buf, width, height, row + 1, proc, src)
  {
    VisitedFits(width, height, row, col);
    VisitedEnds(row, height);
    Run(Running(buf), Visited(row, col, height), proc, src)
  }

  /** Visiting one more coordinate is one more `Step`. */
  lemma VisitNext(buf: seq<Byte>, width: nat, height: nat, row: nat, col: nat, proc: Processor, src: Source)
    requires row < width && col < height && |buf| == width * height * 4 && Readable(src, |buf|)
    ensures Fits(|buf|, row, col)
    ensures ColsDone(buf, width, height, row, col + 1, proc, src)
         == Step(ColsDone(buf, width, height, row, col, proc, src), Coord(row, col), proc, src)
  {
    VisitedFits(width, height, row, col);
    VisitedFits(width, height, row, col + 1);
    assert RowCoords(row, height)[..col + 1] == RowCoords(row, height)[..col] + [Coord(row, col)];
    assert Visited(row, col + 1, height) == Visited(row, col, height) + [Coord(row, col)];
    RunAppend(Running(buf), Visited(row, col, height), [Coord(row, col)], proc, src);
  }

  /** A stop at some visited coordinate is the outcome of the whole pass. */
  lemma StopEndsPass(buf: seq<Byte>, width: nat, height: nat, row: nat, col: nat, proc: Processor, src: Source)
    requires row < width && col <= height && |buf| == width * height * 4 && Readable(src, |buf|)
    requires ColsDone(buf, width, height, row, col, proc, src).Aborted?
    ensures PassOver(buf, width, height, proc, src) == ColsDone(buf, width, height, row, col, proc, src)
  {
    VisitedFits(width, height, row, col);
    RowMajorFits(width, height);
    RunAbortedPrefix(Running(buf), Visited(row, col, height), RowMajor(width, height), proc, src);
  }

  /** A processor that always returns four channels completes the pass. */
  lemma PassCompletes(buf: seq<Byte>, width: nat, height: nat, proc: Processor, src: Source)
    requires |buf| == width * height * 4 && Readable(src, |buf|)
    requires forall p, row, col :: |proc(p, row, col)| == 4
    ensures PassOver(buf, width, height, proc, src).Running?
  {
    RowMajorFits(width, height);
    RunCompletes(Running(buf), RowMajor(width, height), proc, src);
  }

  /**
   * With the as-written offset, the pass over a `width` by `height` raster
   * never writes past pixel `(width - 1) * (height - 1)`: every later byte,
   * the last pixel's among them once both sides exceed 1 (`LastPixelBeyondReach`),
   * keeps its value.
   */
  lemma TailNeverWritten(width: nat, height: nat, buf: seq<Byte>, proc: Processor, i: int)
    requires |buf| == width * height * 4
    requires 0 <= i && Offset(width - 1, height - 1) + 4 <= i < |buf|
    ensures RasterPass(buf, width, height, proc).buf[i] == buf[i]
  {
    RowMajorFits(width, height);
    RowMajorVisitsOnce(width, height);
    var coords := RowMajor(width, height);
    forall k | 0 <= k < |coords|
      ensures !(Offset(coords[k].row, coords[k].col) <= i < Offset(coords[k].row, coords[k].col) + 4)
    {
      assert coords[k] in coords;
      OffsetFitsRaster(width, height, coords[k].row, coords[k].col);
    }
    RunLeavesUnaddressed(Running(buf), coords, proc, Self, i);
  }
}
