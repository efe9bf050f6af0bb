/**
 * `getMedian`: sorts its argument in place with the default order, then
 * picks the middle element, or, for an even length, combines two elements
 * picked by the index expressions `len / 2 | 0` and `len / 2 | 0 - 1`.
 */
module Utils {
  import opened JsOrder
  import opened Sorting

  /** A JavaScript value as far as `getMedian` produces one. */
  datatype JsValue = Num(value: real) | NaN | Undefined

  /** The longest a JavaScript array can be. */
  const MaxArrayLength: int := 0x1_0000_0000 - 1

  /** Truncation toward zero. */
  function Truncate(x: real): (r: int)
    ensures x >= 0.0 ==> 0 <= r && r as real <= x < r as real + 1.0
    ensures x < 0.0 ==> r <= 0 && r as real - 1.0 < x <= r as real
  {
    if x >= 0.0 then x.Floor else -((-x).Floor)
  }

  /** `ToUint32`: the truncated value modulo 2^32. */
  function ToUint32(x: real): (r: int)
    ensures 0 <= r < 0x1_0000_0000
  {
    Truncate(x) % 0x1_0000_0000
  }

  function Pow2(k: nat): (r: int)
    ensures r >= 1
  {
    if k == 0 then 1 else 2 * Pow2(k - 1)
  }

  /** The low `k` bits of `a` OR the low `k` bits of `b`, bit by bit. */
  function OrBits(a: nat, b: nat, k: nat): (r: int)
    ensures 0 <= r < Pow2(k)
  {
    if k == 0 then 0
    else (if a % 2 == 1 || b % 2 == 1 then 1 else 0) + 2 * OrBits(a / 2, b / 2, k - 1)
  }

  /** Reads 32 bits as a two's complement integer (the `ToInt32` range). */
  function Signed(u: int): (r: int)
    requires 0 <= u < 0x1_0000_0000
    ensures -0x8000_0000 <= r < 0x8000_0000
  {
    if u < 0x8000_0000 then u else u - 0x1_0000_0000
  }

  /** The `|` operator on two numbers: OR of the 32-bit forms, read signed. */
  function BitOr(a: real, b: real): (r: int)
    ensures -0x8000_0000 <= r < 0x8000_0000
  {
    Pow2Of32();
    Signed(OrBits(ToUint32(a), ToUint32(b), 32))
  }

  /** OR with zero keeps the low `k` bits. */
  lemma {:induction false} OrBitsZero(a: nat, k: nat)
    ensures OrBits(a, 0, k) == a % Pow2(k)
  {
    if k > 0 {
      OrBitsZero(a / 2, k - 1);
      DivModPow2(a, k);
    }
  }

  /** `a % 2^k` is the low bit plus twice `(a / 2) % 2^(k-1)`. */
  lemma DivModPow2(a: nat, k: nat)
    requires k > 0
    ensures a % Pow2(k) == a % 2 + 2 * ((a / 2) % Pow2(k - 1))
  {
    var p := Pow2(k - 1);
    var q, r := (a / 2) / p, (a / 2) % p;
    assert a / 2 == q * p + r;
    assert a == (a / 2) * 2 + a % 2;
    assert a == q * (2 * p) + (2 * r + a % 2);
    assert 0 <= 2 * r + a % 2 < 2 * p;
    ModUnique(a, 2 * p, q, 2 * r + a % 2);
  }

  lemma ModUnique(a: int, n: int, q: int, r: int)
    requires n > 0 && a == q * n + r && 0 <= r < n
    ensures a % n == r
  {
    var q', r' := a / n, a % n;
    assert a == q' * n + r';
    if q' > q {
      MulDistributes(q', q, n);
      MulAtLeast(q' - q, n);
    } else if q' < q {
      MulDistributes(q, q', n);
      MulAtLeast(q - q', n);
    }
  }

  lemma MulDistributes(x: int, y: int, n: int)
    ensures (x - y) * n == x * n - y * n
  {
  }

  lemma MulAtLeast(d: int, n: int)
    requires d >= 1 && n > 0
    ensures d * n >= n
  {
  }

  lemma {:induction false} Pow2Add(a: nat, b: nat)
    ensures Pow2(a + b) == Pow2(a) * Pow2(b)
  {
    if a > 0 {
      Pow2Add(a - 1, b);
    }
  }

  lemma Pow2Of32()
    ensures Pow2(32) == 0x1_0000_0000
  {
    assert Pow2(4) == 16;
    Pow2Add(4, 4);
    Pow2Add(8, 8);
    Pow2Add(16, 16);
  }

  /** OR with all ones gives all ones. */
  lemma {:induction false} OrBitsOnes(a: nat, k: nat)
    ensures OrBits(a, Pow2(k) - 1, k) == Pow2(k) - 1
  {
    if k > 0 {
      var ones := Pow2(k) - 1;
      assert ones % 2 == 1 && ones / 2 == Pow2(k - 1) - 1;
      OrBitsOnes(a / 2, k - 1);
    }
  }

  /** `x | 0` truncates a number in [0, 2^31) toward zero. */
  lemma BitOrZero(x: real)
    requires 0.0 <= x < 0x8000_0000 as real
    ensures BitOr(x, 0.0) == x.Floor
  {
    Pow2Of32();
    var f := x.Floor;
    assert 0 <= f < 0x8000_0000;
    assert Truncate(x) == f;
    ModUnique(f, 0x1_0000_0000, 0, f);
    OrBitsZero(f, 32);
    ModUnique(f, Pow2(32), 0, f);
  }

  /** `x | -1` is -1 whatever `x` is. */
  lemma BitOrMinusOne(x: real)
    ensures BitOr(x, -1.0) == -1
  {
    Pow2Of32();
    assert ToUint32(-1.0) == Pow2(32) - 1;
    OrBitsOnes(ToUint32(x), 32);
  }

  /** `arr[i]`: the element, or `undefined` outside the array. */
  function Elem(s: seq<int>, i: int): (r: JsValue)
    ensures r.Undefined? <==> !(0 <= i < |s|)
    ensures 0 <= i < |s| ==> r == Num(s[i] as real)
  {
    if 0 <= i < |s| then Num(s[i] as real) else Undefined
  }

  /** `a + b` on values that are numbers or `undefined`. */
  function Add(a: JsValue, b: JsValue): (r: JsValue)
    ensures r.Num? <==> a.Num? && b.Num?
  {
    if a.Num? && b.Num? then Num(a.value + b.value) else NaN
  }

  /** `a / 2`. */
  function Half(a: JsValue): (r: JsValue)
    ensures r.Num? <==> a.Num?
  {
    if a.Num? then Num(a.value / 2.0) else NaN
  }

  /**
   * The index arithmetic after the sort: for an even length the sum of the
   * elements at `len / 2 | 0` and `len / 2 | 0 - 1`, halved; otherwise the
   * element at `len / 2 | 0`.
   */
  function PickMiddle(sorted: seq<int>): (r: JsValue)
    ensures |sorted| % 2 == 0 ==> !r.Undefined?
    ensures |sorted| % 2 == 1 ==> !r.NaN?
  {
    var len := |sorted|;
    var half := len as real / 2.0;
    if len % 2 == 0 then
      Half(Add(Elem(sorted, BitOr(half, 0.0)), Elem(sorted, BitOr(half, 0.0 - 1.0))))
    else
      Elem(sorted, BitOr(half, 0.0))
  }

  /** What `getMedian` returns for the array as it was passed in. */
  function Median(arr: seq<int>): (r: JsValue)
    ensures |arr| % 2 == 0 ==> !r.Undefined?
    ensures |arr| % 2 == 1 ==> !r.NaN?
  {
    PickMiddle(Sort(arr, JsLe))
  }

  /**
   * Sorts `arr` in place with the default order and returns what the index
   * arithmetic picks from it.  The sort is a library call, so its effect is
   * stated, not re-implemented: the array is replaced by its sorted
   * permutation.
   */
  method GetMedian(arr: array<int>) returns (m: JsValue)
    modifies arr
    ensures arr[..] == Sort(old(arr[..]), JsLe)
    ensures multiset(arr[..]) == multiset(old(arr[..]))
    ensures m == Median(old(arr[..]))
  {
    var sorted := Sort(arr[..], JsLe);
    forall i | 0 <= i < arr.Length {
      arr[i] := sorted[i];
    }
    assert arr[..] == sorted;
    m := PickMiddle(arr[..]);
  }

  /** `len / 2` as a number, truncated, is `len / 2` on integers. */
  lemma HalfFloor(n: nat)
    ensures (n as real / 2.0).Floor == n / 2
  {
    var q := n / 2;
    assert n == 2 * q || n == 2 * q + 1;
    assert q as real <= n as real / 2.0 < q as real + 1.0;
  }

  /**
   * As written, an even length (the empty array included) gives NaN, since
   * `len / 2 | 0 - 1` is `len / 2 | -1`, which is -1; an odd length gives
   * the element at `len / 2` rounded down.
   */
  lemma PickMiddleAsWritten(sorted: seq<int>)
    requires |sorted| <= MaxArrayLength
    ensures |sorted| % 2 == 0 ==> PickMiddle(sorted) == NaN
    ensures |sorted| % 2 == 1 ==> PickMiddle(sorted) == Num(sorted[|sorted| / 2] as real)
  {
    if |sorted| % 2 == 0 {
      BitOrMinusOne(|sorted| as real / 2.0);
    } else {
      OddPick(sorted);
    }
  }

  /** For an odd length, `len / 2 | 0` is the middle index. */
  lemma OddPick(sorted: seq<int>)
    requires |sorted| <= MaxArrayLength && |sorted| % 2 == 1
    ensures PickMiddle(sorted) == Num(sorted[|sorted| / 2] as real)
  {
    var half := |sorted| as real / 2.0;
    HalfFloor(|sorted|);
    BitOrZero(half);
  }

  /** `getMedian` as written: NaN for an even length, the sorted middle for an odd one. */
  lemma MedianAsWritten(arr: seq<int>)
    requires |arr| <= MaxArrayLength
    ensures |arr| % 2 == 0 ==> Median(arr) == NaN
    ensures |arr| % 2 == 1 ==> Median(arr) == Num(Sort(arr, JsLe)[|arr| / 2] as real)
  {
    PickMiddleAsWritten(Sort(arr, JsLe));
  }
  /**
   * Any sort that returns a permutation sorted by the default order returns
   * `Sort(arr, JsLe)`: the insertion sort stands for the engine's sort.
   */
  lemma DefaultSortUnique(arr: seq<int>, sorted: seq<int>)
    requires multiset(sorted) == multiset(arr) && SortedBy(sorted, JsLe)
    ensures sorted == Sort(arr, JsLe)
  {
    JsLeIsTotalOrder();
    SortSorted(arr, JsLe);
    SortedPermutationUnique(sorted, Sort(arr, JsLe), JsLe);
  }

  /** For an odd length the median is one of the input's elements. */
  lemma MedianIsElement(arr: seq<int>)
    requires |arr| <= MaxArrayLength && |arr| % 2 == 1
    ensures Median(arr).Num?
    ensures exists i :: 0 <= i < |arr| && Median(arr).value == arr[i] as real
  {
    MedianAsWritten(arr);
    var sorted := Sort(arr, JsLe);
    var x := sorted[|arr| / 2];
    assert x in multiset(sorted);
    assert x in multiset(arr);
    var i :| 0 <= i < |arr| && arr[i] == x;
  }

  /**
   * For an odd length, at least half the elements (rounded up) come no
   * later than the median and at least as many come no earlier, in the
   * default order.
   */
  lemma MedianSplits(arr: seq<int>)
    requires |arr| <= MaxArrayLength && |arr| % 2 == 1
    ensures var m := Sort(arr, JsLe)[|arr| / 2];
      && Median(arr) == Num(m as real)
      && CountIf(arr, NoLaterThan(JsLe, m)) >= (|arr| + 1) / 2
      && CountIf(arr, NoEarlierThan(JsLe, m)) >= (|arr| + 1) / 2
  {
    MedianAsWritten(arr);
    var sorted := Sort(arr, JsLe);
    var m := sorted[|arr| / 2];
    JsLeIsTotalOrder();
    SortSorted(arr, JsLe);
    SortedSplit(sorted, JsLe, |arr| / 2);
    CountIfPermutation(arr, sorted, NoLaterThan(JsLe, m));
    CountIfPermutation(arr, sorted, NoEarlierThan(JsLe, m));
  }

  /** The median of a single element is that element. */
  lemma MedianOfOne(arr: seq<int>)
    requires |arr| == 1
    ensures Median(arr) == Num(arr[0] as real)
  {
    assert |arr| % 2 == 1 && |arr| / 2 == 0;
    MedianAsWritten(arr);
    assert arr[1..] == [];
    assert Sort(arr, JsLe) == Insert(arr[0], Sort([], JsLe), JsLe) == [arr[0]];
  }

  /** How the default order compares 1, 9 and 10. */
  lemma OneNineTen()
    ensures JsLe(1, 10) && !JsLe(10, 1) && !JsLe(9, 1) && !JsLe(9, 10)
  {
    assert DecimalString(1) == "1" && DecimalString(9) == "9" && DecimalString(10) == "10";
  }

  /*
   * The examples below take their elements as parameters fixed by `requires`:
   * on constant arguments the verifier would evaluate the sort and the 32-bit
   * OR eagerly, step by step.
   */

  /** `[9, 10, 1]` sorts to `[1, 10, 9]` in the default order. */
  lemma DefaultSortExample(x: int, y: int, z: int)
    requires x == 9 && y == 10 && z == 1
    ensures Sort([x, y, z], JsLe) == [z, y, x]
  {
    OneNineTen();
    SortCons(z, [], JsLe);
    assert Sort([z], JsLe) == [z];
    SortCons(y, [z], JsLe);
    InsertStep(y, z, [], JsLe);
    assert Sort([y, z], JsLe) == [z, y];
    SortCons(x, [y, z], JsLe);
    InsertStep(x, z, [y], JsLe);
    InsertStep(x, y, [], JsLe);
  }

  /** `[9, 10, 1]` sorts to `[1, 10, 9]` by default, so its median is 10. */
  lemma StringSortMedianExample(x: int, y: int, z: int)
    requires x == 9 && y == 10 && z == 1
    ensures Sort([x, y, z], JsLe) == [1, 10, 9]
    ensures Median([x, y, z]) == Num(10.0)
  {
    DefaultSortExample(x, y, z);
    MedianOfThree([x, y, z]);
  }

  /** Three elements: the median is the middle one after sorting. */
  lemma MedianOfThree(arr: seq<int>)
    requires |arr| == 3
    ensures Median(arr) == Num(Sort(arr, JsLe)[1] as real)
  {
    assert |arr| % 2 == 1 && |arr| / 2 == 1;
    MedianAsWritten(arr);
  }
}

/**
 * The median `getMedian` evidently means: sort numerically, take the middle
 * element for an odd length and the mean of the two middle elements for an
 * even one.
 */
module UtilsIntended {
  import opened Sorting
  import opened Utils

  /** Numeric order. */
  predicate NumLe(x: int, y: int): (r: bool)
    ensures r != (y < x)
  {
    x <= y
  }

  lemma NumLeIsTotalPreorder()
    ensures TotalPreorder(NumLe)
  {
  }

  /** The median of a non-empty array, or `undefined` for an empty one. */
  function IntendedMedian(arr: seq<int>): (r: JsValue)
    ensures r.Undefined? <==> arr == []
  {
    var sorted := Sort(arr, NumLe);
    var len := |arr|;
    if len == 0 then Undefined
    else if len % 2 == 0 then Num((sorted[len / 2 - 1] + sorted[len / 2]) as real / 2.0)
    else Num(sorted[len / 2] as real)
  }

  /** Elements at most `m`. */
  function AtMost(m: real): int -> bool {
    x => x as real <= m
  }

  /** Elements at least `m`. */
  function AtLeast(m: real): int -> bool {
    x => x as real >= m
  }

  /**
   * At least half of the elements (rounded up) are at most the median, and
   * at least as many are at least the median.
   */
  lemma IntendedMedianSplits(arr: seq<int>)
    requires arr != []
    ensures IntendedMedian(arr).Num?
    ensures CountIf(arr, AtMost(IntendedMedian(arr).value)) >= (|arr| + 1) / 2
    ensures CountIf(arr, AtLeast(IntendedMedian(arr).value)) >= (|arr| + 1) / 2
  {
    var sorted := Sort(arr, NumLe);
    var n := |arr|;
    var m := IntendedMedian(arr).value;
    NumLeIsTotalPreorder();
    SortSorted(arr, NumLe);
    var lo, hi := if n % 2 == 0 then n / 2 - 1 else n / 2, n / 2;
    assert sorted[lo] as real <= m <= sorted[hi] as real;
    SortedBelow(sorted, NumLe, lo);
    SortedAbove(sorted, NumLe, hi);
    CountIfMonotone(sorted, NoLaterThan(NumLe, sorted[lo]), AtMost(m));
    CountIfMonotone(sorted, NoEarlierThan(NumLe, sorted[hi]), AtLeast(m));
    CountIfPermutation(arr, sorted, AtMost(m));
    CountIfPermutation(arr, sorted, AtLeast(m));
  }

  /** Numerically, `[9, 10, 1]` sorts to `[1, 9, 10]`. */
  lemma NumericSortExample(x: int, y: int, z: int)
    requires x == 9 && y == 10 && z == 1
    ensures Sort([x, y, z], NumLe) == [z, x, y]
  {
    SortCons(z, [], NumLe);
    assert Sort([z], NumLe) == [z];
    SortCons(y, [z], NumLe);
    InsertStep(y, z, [], NumLe);
    assert Sort([y, z], NumLe) == [z, y];
    SortCons(x, [y, z], NumLe);
    InsertStep(x, z, [y], NumLe);
    InsertStep(x, y, [], NumLe);
  }

  /** Numerically, `[9, 10, 1]` has median 9. */
  lemma IntendedMedianExample(x: int, y: int, z: int)
    requires x == 9 && y == 10 && z == 1
    ensures IntendedMedian([x, y, z]) == Num(9.0)
  {
    NumericSortExample(x, y, z);
  }

  /** Two elements sort numerically into ascending order. */
  lemma NumericSortPair(x: int, y: int)
    ensures Sort([x, y], NumLe) == if x <= y then [x, y] else [y, x]
  {
    SortCons(y, [], NumLe);
    assert Sort([y], NumLe) == [y];
    SortCons(x, [y], NumLe);
    InsertStep(x, y, [], NumLe);
  }

  /** As written, two elements give NaN. */
  lemma PairMedianAsWritten(arr: seq<int>)
    requires |arr| == 2
    ensures Median(arr) == NaN
  {
    MedianAsWritten(arr);
  }

  /** As intended, two elements give their mean. */
  lemma PairMedianIntended(x: int, y: int)
    ensures IntendedMedian([x, y]) == Num((x + y) as real / 2.0)
  {
    NumericSortPair(x, y);
    var sorted := Sort([x, y], NumLe);
    assert sorted[0] + sorted[1] == x + y;
  }

  /** For two elements the code as written gives NaN; the intended median is their mean. */
  lemma EvenMedianDiffers(x: int, y: int)
    ensures Median([x, y]) == NaN
    ensures IntendedMedian([x, y]) == Num((x + y) as real / 2.0)
  {
    PairMedianAsWritten([x, y]);
    PairMedianIntended(x, y);
  }
}
