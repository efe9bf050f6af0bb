/**
 * `Yaipt`: an image with a colour-space tag and a `PixelArray`, and the
 * per-pixel pipeline `iterate` with the four processors built on it.
 */
module Image {
  import opened Wrappers
  import opened Clamped
  import opened Pixels
  import opened Raster
  import opened RasterPasses
  import opened Processors

  /** The errors `iterate` and the `be*` methods throw. */
  datatype ImageError =
    | ColorSpaceMismatch     // `iterate`: the image's space differs from the one required
    | UnsupportedColorSpace  // `be*`: the image's space is not exactly "RGB"
    | SetPixelThrew          // `setPixel` threw on a processor result without four channels

  /** `toUpperCase` on one character, for ASCII letters. */
  function UpperAscii(c: char): (r: char)
    ensures 'a' <= c <= 'z' ==> r as int == c as int - 32
    ensures !('a' <= c <= 'z') ==> r == c
  {
    if 'a' <= c <= 'z' then (c as int - 32) as char else c
  }

  /** `toUpperCase` on a string, for ASCII letters. */
  function ToUpperCase(s: string): (r: string)
    ensures |r| == |s|
    ensures forall i :: 0 <= i < |s| ==> r[i] == UpperAscii(s[i])
  {
    seq(|s|, i requires 0 <= i < |s| => UpperAscii(s[i]))
  }

  /** The tag comparison `iterate` makes: equal after upper-casing. */
  predicate SameColorSpace(a: string, b: string): (r: bool)
    ensures a == b ==> r
    ensures r ==> |a| == |b|
  {
    ToUpperCase(a) == ToUpperCase(b)
  }

  /**
   * `iterate` ignores case and the `be*` methods do not: an image tagged
   * "rgb" passes `iterate`'s check for "RGB" but fails theirs.
   */
  lemma ColorSpaceChecksDiffer()
    ensures SameColorSpace("rgb", "RGB") && "rgb" != "RGB"
  {
    assert ToUpperCase("rgb") == "RGB";
  }

  /** Upper-casing is idempotent, so the comparison is an equivalence on tags. */
  lemma ToUpperCaseIdempotent(s: string)
    ensures ToUpperCase(ToUpperCase(s)) == ToUpperCase(s)
  {
  }

  /** `onSelf` as `iterate` reads it: a left-out argument means `true`. */
  function IterateOnSelf(onSelf: Option<bool>): (r: bool)
    ensures onSelf.None? ==> r
    ensures onSelf.Some? ==> r == onSelf.value
  {
    onSelf.GetOr(true)
  }

  /** `!!onSelf` as the `be*` methods pass it on: a left-out argument means `false`. */
  function BeOnSelf(onSelf: Option<bool>): (r: bool)
    ensures onSelf.None? ==> !r
    ensures onSelf.Some? ==> r == onSelf.value
  {
    onSelf == Some(true)
  }

  /** The two defaults disagree; a given flag means the same to both. */
  lemma OnSelfDefaultsDiffer(b: bool)
    ensures IterateOnSelf(None) && !BeOnSelf(None)
    ensures IterateOnSelf(Some(b)) == b == BeOnSelf(Some(b))
  {
  }

  class Yaipt {
    var width: nat
    var height: nat
    var colorSpace: string
    var pixels: PixelArray

    /**
     * The buffer holds four bytes for each of the `width * height` pixels,
     * so an image with no pixels has an empty buffer.
     */
    ghost predicate Valid(): (r: bool)
      reads this, pixels
      ensures r && (width == 0 || height == 0) ==> pixels.pixelArray.Length == 0
    {
      pixels.pixelArray.Length == width * height * 4
    }

    /**
     * Built from an image's width, height and RGBA bytes (an `ImageData`,
     * whose buffer always holds `width * height * 4` bytes); the tag is "RGB"
     * and the bytes are wrapped, not copied.
     */
    constructor (imageWidth: nat, imageHeight: nat, data: array<Byte>)
      requires data.Length == imageWidth * imageHeight * 4
      ensures width == imageWidth && height == imageHeight && colorSpace == "RGB"
      ensures fresh(pixels) && pixels.pixelArray == data
      ensures Valid()
    {
      width := imageWidth;
      height := imageHeight;
      colorSpace := "RGB";
      pixels := new PixelArray.Wrap(data);
    }

    /**
     * Throws when the tags differ ignoring case, before touching a pixel.
     * Otherwise runs `processor` over every (row < width, col < height) in
     * row-major order, always storing into this image's own buffer, and
     * throws as soon as a result does not have four channels.  In place it
     * returns this image; in copy mode a new image over a zero-filled buffer
     * that the pass never wrote.
     */
    method Iterate(space: string, processor: Processor, onSelf: Option<bool>) returns (r: Result<Yaipt, ImageError>)
      requires Valid()
      modifies pixels.pixelArray
      ensures !SameColorSpace(colorSpace, space) ==>
        r == Failure(ColorSpaceMismatch) && pixels.pixelArray[..] == old(pixels.pixelArray[..])
      ensures SameColorSpace(colorSpace, space) ==>
        var pass := RasterPass(old(pixels.pixelArray[..]), width, height, processor);
        && pixels.pixelArray[..] == pass.buf
        && (r.Failure? <==> pass.Aborted?)
        && (r.Failure? ==> r.error == SetPixelThrew)
      ensures r.Success? && IterateOnSelf(onSelf) ==> r.value == this
      ensures r.Success? && !IterateOnSelf(onSelf) ==>
        && fresh(r.value) && fresh(r.value.pixels.pixelArray)
        && r.value.width == width && r.value.height == height && r.value.colorSpace == "RGB"
        && r.value.pixels.pixelArray[..] == seq(width * height * 4, _ => 0)
        && r.value.Valid()
    {
      if ToUpperCase(colorSpace) != ToUpperCase(space) {
        return Failure(ColorSpaceMismatch);
      }

      var copy := pixels;
      if !IterateOnSelf(onSelf) {
        copy := new PixelArray.Zeroed(width * height * 4);
      }

      var completed := Scan(pixels, processor);
      if !completed {
        return Failure(SetPixelThrew);
      }

      if IterateOnSelf(onSelf) {
        r := Success(this);
      } else {
        var image := new Yaipt(width, height, copy.pixelArray);
        r := Success(image);
      }
    }

    /**
     * The two nested loops of `iterate`: `row` up to `width`, `col` up to
     * `height`, reading each pixel from `this.pixels` and storing the
     * processor's result through `target`.  Reports whether every `setPixel`
     * succeeded.  When `target` shares this image's buffer the pass reads
     * what it has already written; otherwise the source stays as it was.
     */
    method Scan(target: PixelArray, processor: Processor) returns (completed: bool)
      requires Valid() && target.pixelArray.Length == pixels.pixelArray.Length
      modifies target.pixelArray
      ensures var src := if target.pixelArray == pixels.pixelArray then Self else Frozen(old(pixels.pixelArray[..]));
        var pass := PassOver(old(target.pixelArray[..]), width, height, processor, src);
        target.pixelArray[..] == pass.buf && (completed <==> pass.Running?)
    {
      ghost var buf0 := target.pixelArray[..];
      ghost var src := if target.pixelArray == pixels.pixelArray then Self else Frozen(pixels.pixelArray[..]);
      ghost var pass := PassOver(buf0, width, height, processor, src);
      var row := 0;
      while row < width
        invariant 0 <= row <= width
        invariant src.Frozen? ==> pixels.pixelArray[..] == src.bytes
        invariant RowsDone(buf0, width, height, row, processor, src) == Running(target.pixelArray[..])
      {
        completed := ScanRow(target, processor, row, buf0, src);
        if !completed {
          assert pass == Aborted(target.pixelArray[..]);
          return;
        }
        row := row + 1;
      }
      assert pass == Running(target.pixelArray[..]);
      completed := true;
    }

    /** The inner loop of `iterate` for one row. */
    method ScanRow(target: PixelArray, processor: Processor, row: nat, ghost buf0: seq<Byte>, ghost src: Source)
      returns (completed: bool)
      requires Valid() && target.pixelArray.Length == pixels.pixelArray.Length
      requires row < width && |buf0| == width * height * 4
      requires src == if target.pixelArray == pixels.pixelArray then Self else Frozen(pixels.pixelArray[..])
      requires RowsDone(buf0, width, height, row, processor, src) == Running(target.pixelArray[..])
      modifies target.pixelArray
      ensures completed ==> RowsDone(buf0, width, height, row + 1, processor, src) == Running(target.pixelArray[..])
      ensures !completed ==> PassOver(buf0, width, height, processor, src) == Aborted(target.pixelArray[..])
    {
      var col := 0;
      while col < height
        invariant 0 <= col <= height
        invariant src.Frozen? ==> pixels.pixelArray[..] == src.bytes
        invariant ColsDone(buf0, width, height, row, col, processor, src) == Running(target.pixelArray[..])
      {
        VisitNext(buf0, width, height, row, col, processor, src);
        ghost var before := target.pixelArray[..];
        var pixel := pixels.GetPixel(row, col);
        assert pixel == PixelAt(if src.Frozen? then src.bytes else before, Offset(row, col));
        var done := target.SetPixel(row, col, processor(pixel, row, col));
        if done.Fail? {
          StopEndsPass(buf0, width, height, row, col + 1, processor, src);
          return false;
        }
        col := col + 1;
      }
      completed := true;
    }

    /**
     * What copy mode evidently means: the same tag check and the same loops,
     * but each result is stored into the freshly allocated buffer.  The
     * method modifies nothing that existed before the call, so the source
     * image keeps its bytes; the new image holds the pass over a zero-filled
     * buffer that reads every pixel from the untouched source.
     */
    method IterateIntoCopy(space: string, processor: Processor) returns (r: Result<Yaipt, ImageError>)
      requires Valid()
      ensures !SameColorSpace(colorSpace, space) ==> r == Failure(ColorSpaceMismatch)
      ensures SameColorSpace(colorSpace, space) ==>
        var pass := PassOver(seq(width * height * 4, _ => 0), width, height, processor, Frozen(pixels.pixelArray[..]));
        && (r.Failure? <==> pass.Aborted?)
        && (r.Failure? ==> r.error == SetPixelThrew)
        && (r.Success? ==>
              && fresh(r.value) && fresh(r.value.pixels.pixelArray)
              && r.value.width == width && r.value.height == height && r.value.colorSpace == "RGB"
              && r.value.pixels.pixelArray[..] == pass.buf
              && r.value.Valid())
    {
      if ToUpperCase(colorSpace) != ToUpperCase(space) {
        return Failure(ColorSpaceMismatch);
      }
      var copy := new PixelArray.Zeroed(width * height * 4);
      var completed := Scan(copy, processor);
      if !completed {
        return Failure(SetPixelThrew);
      }
      var image := new Yaipt(width, height, copy.pixelArray);
      r := Success(image);
    }

    /**
     * Keeps the red channel: throws unless the tag is exactly "RGB", then
     * runs `RedOf` through `iterate`, in place only when `onSelf` is `true`.
     */
    method BeRed(onSelf: Option<bool>) returns (r: Result<Yaipt, ImageError>)
      requires Valid()
      modifies pixels.pixelArray
      ensures colorSpace != "RGB" ==>
        r == Failure(UnsupportedColorSpace) && pixels.pixelArray[..] == old(pixels.pixelArray[..])
      ensures colorSpace == "RGB" ==>
        && r.Success?
        && pixels.pixelArray[..] == RasterPass(old(pixels.pixelArray[..]), width, height, RedOf).buf
      ensures r.Success? && BeOnSelf(onSelf) ==> r.value == this
      ensures r.Success? && !BeOnSelf(onSelf) ==>
        && fresh(r.value) && fresh(r.value.pixels.pixelArray)
        && r.value.width == width && r.value.height == height && r.value.colorSpace == "RGB"
        && r.value.pixels.pixelArray[..] == seq(width * height * 4, _ => 0)
        && r.value.Valid()
    {
      if colorSpace != "RGB" {
        return Failure(UnsupportedColorSpace);
      }
      PassCompletes(pixels.pixelArray[..], width, height, RedOf, Self);
      r := Iterate("RGB", RedOf, Some(BeOnSelf(onSelf)));
    }

    /**
     * Keeps the green channel: throws unless the tag is exactly "RGB", then
     * runs `GreenOf` through `iterate`, in place only when `onSelf` is `true`.
     */
    method BeGreen(onSelf: Option<bool>) returns (r: Result<Yaipt, ImageError>)
      requires Valid()
      modifies pixels.pixelArray
      ensures colorSpace != "RGB" ==>
        r == Failure(UnsupportedColorSpace) && pixels.pixelArray[..] == old(pixels.pixelArray[..])
      ensures colorSpace == "RGB" ==>
        && r.Success?
        && pixels.pixelArray[..] == RasterPass(old(pixels.pixelArray[..]), width, height, GreenOf).buf
      ensures r.Success? && BeOnSelf(onSelf) ==> r.value == this
      ensures r.Success? && !BeOnSelf(onSelf) ==>
        && fresh(r.value) && fresh(r.value.pixels.pixelArray)
        && r.value.width == width && r.value.height == height && r.value.colorSpace == "RGB"
        && r.value.pixels.pixelArray[..] == seq(width * height * 4, _ => 0)
        && r.value.Valid()
    {
      if colorSpace != "RGB" {
        return Failure(UnsupportedColorSpace);
      }
      PassCompletes(pixels.pixelArray[..], width, height, GreenOf, Self);
      r := Iterate("RGB", GreenOf, Some(BeOnSelf(onSelf)));
    }

    /**
     * Keeps the blue channel: throws unless the tag is exactly "RGB", then
     * runs `BlueOf` through `iterate`, in place only when `onSelf` is `true`.
     */
    method BeBlue(onSelf: Option<bool>) returns (r: Result<Yaipt, ImageError>)
      requires Valid()
      modifies pixels.pixelArray
      ensures colorSpace != "RGB" ==>
        r == Failure(UnsupportedColorSpace) && pixels.pixelArray[..] == old(pixels.pixelArray[..])
      ensures colorSpace == "RGB" ==>
        && r.Success?
        && pixels.pixelArray[..] == RasterPass(old(pixels.pixelArray[..]), width, height, BlueOf).buf
      ensures r.Success? && BeOnSelf(onSelf) ==> r.value == this
      ensures r.Success? && !BeOnSelf(onSelf) ==>
        && fresh(r.value) && fresh(r.value.pixels.pixelArray)
        && r.value.width == width && r.value.height == height && r.value.colorSpace == "RGB"
        && r.value.pixels.pixelArray[..] == seq(width * height * 4, _ => 0)
        && r.value.Valid()
    {
      if colorSpace != "RGB" {
        return Failure(UnsupportedColorSpace);
      }
      PassCompletes(pixels.pixelArray[..], width, height, BlueOf, Self);
      r := Iterate("RGB", BlueOf, Some(BeOnSelf(onSelf)));
    }

    /**
     * Grays the image: throws unless the tag is exactly "RGB", then runs
     * `GrayOf` through `iterate`, in place only when `onSelf` is `true`.
     */
    method BeGray(onSelf: Option<bool>) returns (r: Result<Yaipt, ImageError>)
      requires Valid()
      modifies pixels.pixelArray
      ensures colorSpace != "RGB" ==>
        r == Failure(UnsupportedColorSpace) && pixels.pixelArray[..] == old(pixels.pixelArray[..])
      ensures colorSpace == "RGB" ==>
        && r.Success?
        && pixels.pixelArray[..] == RasterPass(old(pixels.pixelArray[..]), width, height, GrayOf).buf
      ensures r.Success? && BeOnSelf(onSelf) ==> r.value == this
      ensures r.Success? && !BeOnSelf(onSelf) ==>
        && fresh(r.value) && fresh(r.value.pixels.pixelArray)
        && r.value.width == width && r.value.height == height && r.value.colorSpace == "RGB"
        && r.value.pixels.pixelArray[..] == seq(width * height * 4, _ => 0)
        && r.value.Valid()
    {
      if colorSpace != "RGB" {
        return Failure(UnsupportedColorSpace);
      }
      PassCompletes(pixels.pixelArray[..], width, height, GrayOf, Self);
      r := Iterate("RGB", GrayOf, Some(BeOnSelf(onSelf)));
    }
  }
}
