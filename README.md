# yaipt.js core, modelled in Dafny

yaipt.js is a small image-processing library for the browser. An image
(`Yaipt`) carries a width, a height, a colour-space tag and a `PixelArray`.
The `PixelArray` wraps the flat RGBA byte buffer of an `ImageData`, a
`Uint8ClampedArray`, and reads and writes one pixel (four bytes) at a time.
`iterate` runs a per-pixel processor over the image in two nested loops and
stores each result back. `beRed`, `beGreen`, `beBlue` and `beGray` are four
fixed processors run through `iterate`. The utility `getMedian` sorts a
number array in place and picks its middle.

The model follows the code as written. Where the code departs from what it
evidently means, the model keeps the as-written behaviour, and a corrected
definition sits beside it with the intended property proved. Both are listed
under "## Findings".

Modules:

- `Clamped` (clamped.dfy): the `Byte` cell type, and the conversion a clamped
  cell applies to an assigned number.
- `Pixels` (pixel_array.dfy): the class `PixelArray`, with `GetPixel` as a
  reading function and `SetPixel` as a method that changes the array in place.
- `PixelsIntended` (pixel_array.dfy): the corrected offset and the corrected
  store.
- `Raster` and `RasterPasses` (raster.dfy): the row-major traversal of the
  nested loops. A whole pass is a left fold of one `Step` per coordinate. It
  reads pixels either from the buffer being written (`Self`) or from an
  unchanged source (`Frozen`).
- `Processors` and `ProcessorPasses` (processors.dfy): the four processor
  lambdas, and what whole passes of them do.
- `IntendedPasses` (intended_pass.dfy): the corrected pass.
- `Image` (image.dfy): the class `Yaipt`. `Iterate` is implemented with the
  nested loops (`Scan` is the outer loop, `ScanRow` the inner one). The loops
  are proved against `RasterPass`/`PassOver`.
- `JsOrder` (js_order.dfy): the default `Array.prototype.sort` order. It
  compares decimal strings code unit by code unit.
- `Sorting` (sorting.dfy): the sorted permutation for a given order, and
  counting.
- `Utils` and `UtilsIntended` (utils.dfy): `getMedian` as written, with
  JavaScript's `|` and `ToInt32` written out, and the intended median.
- `Wrappers` (wrappers.dfy): `Option`, `Result` and `Outcome`.

A thrown exception is modelled as a `Failure`/`Fail` result carrying the
reason. The ImageData input is a width, a height and a byte array.

## Model

| member | source | states |
|---|---|---|
| Clamped.ToUint8Clamp | src/PixelArray.ts:6 | a number stored into a clamped cell becomes 0 at or below 0, 255 at or above 255, and otherwise a byte within 0.5 of it |
| Clamped.RoundHalfEven | src/PixelArray.ts:33-36 | a number strictly between 0 and 255 is rounded to the nearest integer; ties go to the even neighbour |
| Clamped.ByteStoredExactly | src/PixelArray.ts:33-36 | a number that is already a byte is stored unchanged |
| Clamped.ToUint8ClampMonotone | src/PixelArray.ts:33-36 | storing preserves order: a larger number never gives a smaller byte |
| Pixels.PixelAt | src/PixelArray.ts:18-23 | the pixel read at `start` holds bytes `start` to `start + 3`, in order |
| Pixels.StoreAt | src/PixelArray.ts:33-36 | storing writes clamped channel 0 into byte `start`, channel 1 into `start + 1`, and channel 0 again into `start + 2` and `start + 3`; every other byte is unchanged |
| Pixels.PixelArray.Wrap | src/PixelArray.ts:12-14 | the wrapper shares the given buffer and does not copy it |
| Pixels.PixelArray.Zeroed | src/Yaipt.ts:34 | the two-argument construction in copy mode yields a fresh zero-filled buffer of `width * height * 4` bytes |
| Pixels.PixelArray.GetPixel | src/PixelArray.ts:16-24 | returns exactly four values, the bytes at `row * col * 4` to `row * col * 4 + 3`; as a function it cannot change the buffer; the bounds are a precondition |
| Pixels.PixelArray.SetPixel | src/PixelArray.ts:26-37 | fails exactly when the pixel does not have four channels, and then leaves the buffer unchanged; otherwise the new buffer is `StoreAt` of the old one at `row * col * 4` |
| Pixels.Offset | src/PixelArray.ts:17 | the byte offset `getPixel` and `setPixel` compute, `row * col * 4`; it is never negative for non-negative coordinates |
| Pixels.OffsetSymmetric | src/PixelArray.ts:17 | the offset is symmetric in row and column, and row 0 or column 0 addresses pixel 0 |
| Pixels.OffsetFitsRaster | src/PixelArray.ts:17 | for `row < width` and `col < height` the offset stays inside a `width * height * 4` buffer, at or below the offset of the last visited coordinate |
| Pixels.StoreThenRead | src/PixelArray.ts:33-36 | reading back a stored pixel gives channels 0 and 1, then channel 0 twice |
| Pixels.StoreIdempotent | src/PixelArray.ts:33-36 | storing the same pixel twice is the same as storing it once |
| PixelsIntended.IntendedOffset | src/PixelArray.ts:17 | the corrected offset `(row * width + col) * 4` is a multiple of 4, and a pixel with `col < width` lies inside the `width * 4` bytes of its row |
| PixelsIntended.OffsetCollides | src/PixelArray.ts:17 | as written, distinct pixels share bytes: (0,5), (3,0) and (0,0) all map to offset 0; (1,2) and (2,1) map to the same offset |
| PixelsIntended.IntendedOffsetInjective | src/PixelArray.ts:17 | the intended offset `(row * width + col) * 4` keeps every pixel inside the buffer and sends distinct pixels to distinct offsets |
| PixelsIntended.RowStartsSeparate | src/PixelArray.ts:17 | under the intended offset, every pixel of a row comes before the first pixel of any later row |
| PixelsIntended.IntendedStoreAt | src/PixelArray.ts:33-36 | the intended store puts each channel `k` into byte `start + k` and leaves every other byte unchanged |
| PixelsIntended.StoreLosesBlueAndAlpha | src/PixelArray.ts:35-36 | as written, storing [1, 2, 3, 4] reads back as [1, 2, 1, 1] |
| PixelsIntended.IntendedStoreRoundTrip | src/PixelArray.ts:33-36 | under the intended store, a pixel of byte values reads back exactly as it was stored |
| Raster.RowCoords | src/Yaipt.ts:37 | the inner loop visits `cols` coordinates |
| Raster.RowMajor | src/Yaipt.ts:36-37 | the coordinates `for row < rows { for col < cols }` visits, in order; there are `rows * cols` of them |
| Raster.RowMajorVisitsOnce | src/Yaipt.ts:36-37 | the nested loops visit exactly the coordinates with `row < width` and `col < height`, each once, in strictly increasing row-major order |
| Raster.RowMajorPrefix | src/Yaipt.ts:36-37 | the coordinates visited after fewer outer iterations are a prefix of those visited after more |
| Raster.Step | src/Yaipt.ts:38 | one loop body reads, processes and stores one pixel, or stops the pass when the result does not have four channels; the buffer keeps its length |
| Raster.Run | src/Yaipt.ts:36-40 | a pass over a list of coordinates keeps the buffer's length |
| Raster.RunAppend | src/Yaipt.ts:36-40 | a pass over two stretches of coordinates is the pass over the first, continued over the second |
| Raster.RunAbortedStays | src/Yaipt.ts:38 | after a `setPixel` throws, nothing more is written |
| Raster.RunAbortedPrefix | src/Yaipt.ts:38 | a pass that stops within a prefix of the coordinates ends the same way over all of them |
| Raster.RunCompletes | src/Yaipt.ts:36-40 | a processor that always returns four channels never stops the pass |
| Raster.RunLeavesUnaddressed | src/Yaipt.ts:38 | a byte that no visited coordinate addresses keeps its value through the pass |
| Raster.RowMajorFits | src/Yaipt.ts:36-38 | every coordinate the loops visit addresses four bytes inside a `width * height * 4` buffer |
| Raster.LastPixelBeyondReach | src/PixelArray.ts:17 | when both sides are at least 2, the last pixel's bytes lie beyond every byte the as-written offset reaches |
| Raster.SwappedBoundsExample | src/Yaipt.ts:36-37 | a 2 by 1 image is visited at (0,0) and (1,0): row 1 does not exist, and column 1 is never visited |
| RasterPasses.PassOver | src/Yaipt.ts:36-40 | the pass of the nested loops over the whole raster keeps the buffer's length |
| RasterPasses.RasterPass | src/Yaipt.ts:36-40 | the pass as written reads and writes the image's own buffer, and keeps its length |
| RasterPasses.RowsDone | src/Yaipt.ts:36 | the pass after `rows` outer iterations keeps the buffer's length; after none it is the untouched buffer, and after `width` it is the whole pass |
| RasterPasses.ColsDone | src/Yaipt.ts:37 | the pass after `col` inner iterations of row `row` keeps the buffer's length; it starts where the outer loop's pass stood before the row and ends where it stands after it |
| RasterPasses.VisitedEnds | src/Yaipt.ts:36-37 | before its first inner iteration a row has visited the earlier rows; after its last, it has visited one more whole row |
| RasterPasses.VisitedFits | src/Yaipt.ts:36-37 | the coordinates visited so far are a prefix of the whole traversal, and they fit the buffer |
| RasterPasses.VisitNext | src/Yaipt.ts:37-38 | one more inner iteration is one more `Step` |
| RasterPasses.StopEndsPass | src/Yaipt.ts:38 | a `setPixel` that throws ends the whole pass with the buffer as it was then |
| RasterPasses.PassCompletes | src/Yaipt.ts:36-40 | a processor that always returns four channels completes the pass |
| RasterPasses.TailNeverWritten | src/Yaipt.ts:36-38 | every byte past the as-written offset of (width - 1, height - 1) keeps its value through the pass |
| Processors.RedOf | src/Yaipt.ts:55-57 | the red processor returns four channels |
| Processors.GreenOf | src/Yaipt.ts:70-72 | the green processor returns four channels |
| Processors.BlueOf | src/Yaipt.ts:85-87 | the blue processor returns four channels |
| Processors.Intensity | src/Yaipt.ts:101 | the weighted sum `0.2126 r + 0.7152 g + 0.0722 b` lies between the smallest and the largest of r, g and b |
| Processors.GrayOf | src/Yaipt.ts:100-103 | the gray processor returns four channels |
| Processors.ChannelProcessorsIdempotent | src/Yaipt.ts:55-87 | red maps [r,g,b,a] to [r,0,0,a], green to [0,g,0,a] and blue to [0,0,b,a]; each ignores row and column, and applying one twice is the same as applying it once |
| Processors.IntensityIsWeightedMean | src/Yaipt.ts:100-103 | the gray weights sum to 1, so the intensity lies between the smallest and largest of r, g and b; it stays in [0, 255] for byte channels, and graying twice is graying once |
| Processors.StoredProcessorResults | src/Yaipt.ts:55-103 | through the as-written `setPixel`, red stores [r,0,r,r], green [0,g,0,0], blue [0,0,0,0], and gray stores the clamped intensity into all four bytes |
| Processors.GrayExample | src/Yaipt.ts:100-103 | [100, 150, 200, 255] has intensity 142.98, which is stored as 143 in all four bytes |
| ProcessorPasses.BluePassZeroes | src/Yaipt.ts:85-87 | a pass of the blue processor leaves zero in every byte that some visited coordinate addresses |
| ProcessorPasses.BeBlueBlacksOut | src/Yaipt.ts:80-88 | after `beBlue`, every byte of every visited pixel is zero, whatever the image held |
| ProcessorPasses.CopyModeChangesSource | src/Yaipt.ts:33-42 | copy mode as written changes the source: `beRed` on a 1 by 1 image [1,2,3,4] leaves [1,0,1,1] in the source buffer |
| ProcessorPasses.CopyModeIntendedExample | src/Yaipt.ts:33-42 | copy mode as intended writes [1,0,1,1] into the zero-filled copy, while the source stays [1,2,3,4] |
| IntendedPasses.BlocksDisjoint | src/PixelArray.ts:17 | under the intended offset, two different pixels own disjoint bytes |
| IntendedPasses.IntendedStep | src/Yaipt.ts:38 | the corrected loop body keeps the buffer's length |
| IntendedPasses.IntendedRun | src/Yaipt.ts:36-40 | the corrected pass over a list of coordinates keeps the buffer's length |
| IntendedPasses.IntendedPass | src/Yaipt.ts:36-40 | the corrected pass over the whole image keeps the buffer's length |
| IntendedPasses.IntendedRowMajorInImage | src/Yaipt.ts:36-37 | with the loop bounds swapped back, the traversal visits every pixel of the image, each once, and nothing outside it |
| IntendedPasses.IntendedRunCompletes | src/Yaipt.ts:36-40 | in the corrected pass, a processor that always returns four channels never stops it |
| IntendedPasses.IntendedRunLeaves | src/Yaipt.ts:38 | in the corrected pass, a byte that no visited pixel owns keeps its value |
| IntendedPasses.IntendedRunWrites | src/Yaipt.ts:36-40 | in the corrected pass, each visited pixel ends up holding the processed source pixel |
| IntendedPasses.IntendedPassMapsEveryPixel | src/Yaipt.ts:28-43 | the corrected pass maps the image pixel by pixel: every channel of every pixel with `row < height` and `col < width` is the clamped processor result on the same source pixel |
| Image.UpperAscii | src/Yaipt.ts:29 | `toUpperCase` shifts lower-case ASCII letters down by 32 and leaves every other character alone |
| Image.ToUpperCase | src/Yaipt.ts:29 | upper-casing keeps the length and maps each character on its own |
| Image.SameColorSpace | src/Yaipt.ts:29 | `iterate`'s tag check compares the upper-cased tags: equal tags pass, and tags that pass have equal length |
| Image.ColorSpaceChecksDiffer | src/Yaipt.ts:29-31 | `iterate` accepts the tag "rgb" for "RGB", although the `be*` checks, which do not ignore case, reject it |
| Image.ToUpperCaseIdempotent | src/Yaipt.ts:29 | upper-casing twice is upper-casing once |
| Image.IterateOnSelf | src/Yaipt.ts:28 | `iterate` works in place when `onSelf` is left out, and otherwise as the flag says |
| Image.BeOnSelf | src/Yaipt.ts:57 | the `be*` methods pass `!!onSelf` on: copy mode when the flag is left out, and otherwise as the flag says |
| Image.OnSelfDefaultsDiffer | src/Yaipt.ts:28-57 | a missing `onSelf` means in place for `iterate` but copy for `be*` (through `!!onSelf`); a given flag means the same to both |
| Image.Yaipt.Valid | src/Yaipt.ts:14-20 | the buffer holds four bytes per pixel, as an `ImageData` of the image's width and height does; an image without pixels has an empty buffer |
| Image.Yaipt.constructor | src/Yaipt.ts:14-20 | width and height are copied from the input, the tag is "RGB", and the pixel buffer is the input's buffer, wrapped |
| Image.Yaipt.Iterate | src/Yaipt.ts:28-43 | throws on a case-insensitive tag mismatch before touching a pixel. Otherwise the buffer becomes the as-written pass over itself, in every mode. The call fails exactly when the pass stopped. In place it returns this image; in copy mode it returns a new image over a zero buffer that the pass never wrote |
| Image.Yaipt.Scan | src/Yaipt.ts:36-40 | the outer loop leaves the target buffer equal to the pass over it, and reports completion exactly when the pass did not stop |
| Image.Yaipt.ScanRow | src/Yaipt.ts:37-39 | one inner loop extends the pass by one row, or ends the whole pass when `setPixel` throws |
| Image.Yaipt.IterateIntoCopy | src/Yaipt.ts:33-42 | corrected copy mode: the same check, then the pass stores into the fresh buffer and reads the untouched source; it modifies nothing that existed before. On success the new image has a fresh buffer, the same width and height, the tag "RGB", and is valid |
| Image.Yaipt.BeRed | src/Yaipt.ts:50-58 | throws unless the tag is exactly "RGB". Otherwise it always succeeds and leaves the red pass in the image's buffer. It returns this image only when `onSelf` is true; otherwise it returns what `iterate` does: a new valid image of the same width and height, tagged "RGB", over a fresh zero buffer |
| Image.Yaipt.BeGreen | src/Yaipt.ts:65-73 | as `BeRed`, with the green processor |
| Image.Yaipt.BeBlue | src/Yaipt.ts:80-88 | as `BeRed`, with the blue processor |
| Image.Yaipt.BeGray | src/Yaipt.ts:95-104 | as `BeRed`, with the gray processor |
| JsOrder.DigitChar | src/Utils.ts:14 | a digit becomes a character from '0' to '9' |
| JsOrder.Digits | src/Utils.ts:14 | a non-negative integer's decimal form is nonempty and consists of digits; from 10 upward it has at least two |
| JsOrder.StrLeTotal | src/Utils.ts:14 | any two strings are comparable |
| JsOrder.StrLeTransitive | src/Utils.ts:14 | string comparison is transitive |
| JsOrder.StrLeAntisymmetric | src/Utils.ts:14 | string comparison is antisymmetric |
| JsOrder.DigitsInjective | src/Utils.ts:14 | different non-negative integers have different decimal forms |
| JsOrder.DecimalStringInjective | src/Utils.ts:14 | different integers have different decimal strings |
| JsOrder.DecimalString | src/Utils.ts:14 | `String(n)` for an integer: it is nonempty, starts with '-' exactly when `n` is negative, and holds only digits after its first character |
| JsOrder.StrLe | src/Utils.ts:14 | code-unit string comparison: a string comes no later than its extensions, and a string that comes no later than another has a first code unit no greater than the other's |
| JsOrder.JsLe | src/Utils.ts:14 | the default sort's order on numbers: reflexive, with every negative number before every non-negative one |
| JsOrder.JsLeIsTotalOrder | src/Utils.ts:14 | the default sort order is total, transitive and antisymmetric on integers |
| JsOrder.TenBeforeNine | src/Utils.ts:14 | the default order puts 10 before 9, and -1 before -2 |
| Sorting.Insert | src/Utils.ts:14 | insertion adds exactly one copy of the element |
| Sorting.Sort | src/Utils.ts:14 | the sorted array is a permutation of the input |
| Sorting.SortCons | src/Utils.ts:14 | sorting an array that starts with `x` inserts `x` into the sorted rest |
| Sorting.InsertStep | src/Utils.ts:14 | insertion puts `x` before the first element it comes no later than |
| Sorting.InsertSorted | src/Utils.ts:14 | inserting into a sorted sequence keeps it sorted |
| Sorting.SortSorted | src/Utils.ts:14 | the result of the sort is sorted by the order |
| Sorting.CountIfAppend | src/Utils.ts:14 | counting over a concatenation adds the two counts |
| Sorting.CountIfPermutation | src/Utils.ts:14 | a permutation keeps every count |
| Sorting.CountIfAll | src/Utils.ts:14 | when every element qualifies, the count is the length |
| Sorting.CountIfMonotone | src/Utils.ts:14 | a weaker condition counts at least as many elements |
| Sorting.SortedSplit | src/Utils.ts:18-19 | in a sorted sequence, the element at `h` has at least `h + 1` elements no later than it and at least `len - h` no earlier |
| Sorting.SortedBelow | src/Utils.ts:18-19 | in a sorted sequence, at least `h + 1` elements come no later than the one at `h` |
| Sorting.SortedHeadFirst | src/Utils.ts:14 | the first element of a sorted sequence comes no later than any of its elements |
| Sorting.SortedPermutationUnique | src/Utils.ts:14 | under a total, transitive and antisymmetric order, two sorted permutations of the same elements are equal |
| Sorting.SortedAbove | src/Utils.ts:18-19 | in a sorted sequence, at least `len - h` elements come no earlier than the one at `h` |
| Utils.Truncate | src/Utils.ts:17 | truncation toward zero: a non-negative number gives the largest integer not above it, a negative one the smallest integer not below it |
| Utils.ToUint32 | src/Utils.ts:17-19 | the operands of `|` are reduced into [0, 2^32) |
| Utils.OrBits | src/Utils.ts:17-19 | the bitwise OR of `k` bits lies in [0, 2^k) |
| Utils.Signed | src/Utils.ts:17-19 | 32 bits read as two's complement lie in [-2^31, 2^31) |
| Utils.BitOr | src/Utils.ts:17 | the bitwise OR operator on two numbers: the OR of their 32-bit forms, read as signed, so it always lies in [-2^31, 2^31) |
| Utils.OrBitsZero | src/Utils.ts:17-19 | OR with zero keeps the low `k` bits |
| Utils.OrBitsOnes | src/Utils.ts:17 | OR with all ones gives all ones |
| Utils.BitOrZero | src/Utils.ts:17-19 | bitwise OR with 0 truncates a number in [0, 2^31) toward zero |
| Utils.BitOrMinusOne | src/Utils.ts:17 | bitwise OR with -1 gives -1 whatever the other operand is |
| Utils.Elem | src/Utils.ts:17-19 | indexing gives the element inside the array and `undefined` outside it |
| Utils.Add | src/Utils.ts:17 | a sum is a number only when both operands are |
| Utils.Half | src/Utils.ts:17 | halving keeps a number a number and NaN NaN |
| Utils.PickMiddle | src/Utils.ts:15-20 | the index arithmetic after the sort: an even length never gives `undefined`, and an odd length never gives NaN |
| Utils.Median | src/Utils.ts:13-21 | what `getMedian` returns for the array as passed in: an even length never gives `undefined`, and an odd length never gives NaN |
| Utils.GetMedian | src/Utils.ts:13-21 | the array is replaced by its sorted permutation under the default order, and the result is `Median` of the array as it was passed in |
| Utils.HalfFloor | src/Utils.ts:17-19 | `len / 2`, truncated, is the integer half of `len` |
| Utils.PickMiddleAsWritten | src/Utils.ts:15-20 | for an even length, including 0, the index arithmetic gives NaN; for an odd length it gives the element at `len / 2` rounded down |
| Utils.MedianAsWritten | src/Utils.ts:13-21 | `getMedian` gives NaN for an even length and the middle of the sorted array for an odd length |
| Utils.MedianIsElement | src/Utils.ts:18-19 | for an odd length, the result is one of the input's elements |
| Utils.MedianSplits | src/Utils.ts:14-19 | for an odd length, at least `(len + 1) / 2` elements come no later than the result and at least as many come no earlier, in the default order |
| Utils.DefaultSortUnique | src/Utils.ts:14 | any permutation of the array sorted by the default order is `Sort(arr, JsLe)`, so the insertion sort stands for whatever sort the engine runs |
| Utils.MedianOfThree | src/Utils.ts:18-19 | for three elements the result is the middle one after sorting |
| Utils.MedianOfOne | src/Utils.ts:18-19 | the median of a one-element array is its element |
| Utils.OneNineTen | src/Utils.ts:14 | the default order puts 1 before 10 and 10 before 9 |
| Utils.DefaultSortExample | src/Utils.ts:14 | the default order sorts [9, 10, 1] to [1, 10, 9] |
| Utils.StringSortMedianExample | src/Utils.ts:14-19 | [9, 10, 1] sorts to [1, 10, 9], so its median as written is 10 |
| UtilsIntended.NumLe | src/Utils.ts:14 | numeric order, the comparator the intended sort uses: `x` comes no later than `y` exactly when `y` is not smaller |
| UtilsIntended.NumLeIsTotalPreorder | src/Utils.ts:14 | numeric order is total and transitive |
| UtilsIntended.IntendedMedian | src/Utils.ts:13-21 | the intended median is `undefined` exactly for the empty array |
| UtilsIntended.IntendedMedianSplits | src/Utils.ts:13-21 | for any nonempty array, at least `(len + 1) / 2` elements are at most the intended median and at least as many are at least it |
| UtilsIntended.NumericSortExample | src/Utils.ts:14 | numerically, [9, 10, 1] sorts to [1, 9, 10] |
| UtilsIntended.IntendedMedianExample | src/Utils.ts:14-19 | numerically, [9, 10, 1] has median 9 |
| UtilsIntended.NumericSortPair | src/Utils.ts:14 | numerically, two elements sort into ascending order |
| UtilsIntended.PairMedianAsWritten | src/Utils.ts:16-17 | as written, two elements give NaN |
| UtilsIntended.PairMedianIntended | src/Utils.ts:16-17 | as intended, two elements give their mean |
| UtilsIntended.EvenMedianDiffers | src/Utils.ts:16-17 | for two elements the code as written gives NaN, while the intended median is their mean |

## Findings

| source | as written | input that shows it | evidently intended | confidence | as-written member | corrected member |
|---|---|---|---|---|---|---|
| src/PixelArray.ts:17 | the offset is `row * col * 4` | (0,5) and (3,0) both address byte 0; (1,2) and (2,1) address the same bytes | `(row * width + col) * 4` | not executed | PixelsIntended.OffsetCollides | PixelsIntended.IntendedOffsetInjective |
| src/PixelArray.ts:35-36 | `pixel[0]` is stored into the third and fourth bytes | storing [1, 2, 3, 4] reads back as [1, 2, 1, 1] | `pixel[2]` and `pixel[3]` | not executed | PixelsIntended.StoreLosesBlueAndAlpha | PixelsIntended.IntendedStoreRoundTrip |
| src/Yaipt.ts:36-37 | the loops run `row < width`, `col < height` | a 2 by 1 image is visited at (0,0) and (1,0) | `row < height`, `col < width`, which covers every pixel once | not executed | Raster.SwappedBoundsExample | IntendedPasses.IntendedPassMapsEveryPixel |
| src/Yaipt.ts:38 | copy mode still writes into `this.pixels` and returns the untouched zero buffer | `beRed(false)` on a 1 by 1 image [1,2,3,4] leaves [1,0,1,1] in the source | write into `copy`, reading from the unchanged source | not executed | ProcessorPasses.CopyModeChangesSource | Image.Yaipt.IterateIntoCopy |
| src/Utils.ts:17 | the second index expression parses as `(len / 2)` OR `(0 - 1)`, which is -1, so every even length gives NaN | [x, y] gives NaN | the mean of the elements at `len / 2 - 1` and `len / 2` | not executed | Utils.PickMiddleAsWritten | UtilsIntended.EvenMedianDiffers |
| src/Utils.ts:14 | `sort()` without a comparator orders by decimal strings | [9, 10, 1] sorts to [1, 10, 9], median 10 | a numeric sort, median 9 | not executed | Utils.StringSortMedianExample | UtilsIntended.IntendedMedianSplits |

Some calls in src/Yaipt.ts match no constructor or method of `PixelArray` (src/PixelArray.ts:5-38):

- `new PixelArray(imageData, this.width, this.height)` at src/Yaipt.ts:19 passes three arguments.
- `new PixelArray(this.width, this.height)` at src/Yaipt.ts:34 passes two.
- The only constructor, at src/PixelArray.ts:12-14, takes one.
- `generatImageData` at src/Yaipt.ts:42 is not a method of `PixelArray`.

The model uses two constructors instead: `PixelArray.Wrap` wraps a given
buffer, and `PixelArray.Zeroed` allocates a zero-filled buffer of
`width * height * 4` bytes. Building the new `Yaipt` from `generatImageData()`
wraps the copy's buffer.

## Left out

- webpack.config.js holds build configuration only.
- `isUndefined`, `isNumber` and `isObject` in src/Utils.ts are runtime `typeof` tests, which have no counterpart in typed Dafny.
- The browser `ImageData` object: the model takes a width, a height and a byte buffer of `width * height * 4` bytes.
- Floating point: channel values and the gray intensity are exact reals, and NaN as a channel value is not modelled. Storing a value into a cell is still modelled in full, with clamping and round-half-to-even.
- Typed-array reads and writes out of range (`undefined`, dropped writes): `GetPixel` and `SetPixel` require the four bytes to lie inside the buffer. `Iterate` never leaves the buffer (`Raster.RowMajorFits`).
- Pixels.PixelArray.GetPixel: requires its bytes to be in range, while the source returns `undefined` channels outside the buffer.
- Pixels.PixelArray.SetPixel: requires its bytes to be in range when the pixel has four channels, while the source silently drops such writes.
- Unicode case mapping: `ToUpperCase` maps ASCII letters only.
- Processors that throw, or that return something other than an array of numbers: a processor is a total function to a sequence of reals.
- The decimal strings of numbers at or above 1e21, and of non-integers: the sort order is modelled for integers only. `GetMedian` takes an array of integers.
- Utils.GetMedian: the array is at most 2^32 - 1 long in JavaScript. `MedianAsWritten` and `PickMiddleAsWritten` require it, because `len / 2 | 0` stays exact only below 2^31.
- Image.Yaipt.Iterate: the nested loops sit in `Scan` and `ScanRow`, called from `Iterate`, which keeps each proof small.
- IntendedPasses.IntendedPass: the corrected pass is stated for a separate source buffer. Reading the target itself gives the same result, because pixels own disjoint bytes, but that is not proved.
- Corrected members are not wired back into `Yaipt`. Each one repairs a single departure beside the as-written model.
