/**
 * The order JavaScript's `Array.prototype.sort` uses when no comparator is
 * given: both numbers are converted to their decimal strings, and the strings
 * are compared code unit by code unit, a proper prefix first.  Numbers are
 * integers here, written without exponent.
 */
module JsOrder {

  function DigitChar(d: int): (c: char)
    requires 0 <= d < 10
    ensures '0' <= c <= '9'
  {
    ('0' as int + d) as char
  }

  /** The decimal digits of `n`, most significant first, no leading zero. */
  function Digits(n: nat): (s: string)
    ensures |s| >= 1
    ensures forall i :: 0 <= i < |s| ==> '0' <= s[i] <= '9'
    ensures n >= 10 ==> |s| >= 2
    decreases n
  {
    if n < 10 then [DigitChar(n)] else Digits(n / 10) + [DigitChar(n % 10)]
  }

  /** `String(n)` for an integer `n`. */
  function DecimalString(n: int): (r: string)
    ensures |r| >= 1 && (r[0] == '-' <==> n < 0)
    ensures forall i :: 1 <= i < |r| ==> '0' <= r[i] <= '9'
  {
    if n < 0 then "-" + Digits(-n) else Digits(n)
  }

  /** String comparison by code unit, a proper prefix before its extensions. */
  predicate StrLe(a: string, b: string): (r: bool)
    ensures a <= b ==> r
    ensures r && a != [] ==> b != [] && a[0] <= b[0]
    decreases |a|
  {
    a == [] || (b != [] && (a[0] < b[0] || (a[0] == b[0] && StrLe(a[1..], b[1..]))))
  }

  /** The default sort's "comes no later than" on numbers. */
  predicate JsLe(x: int, y: int): (r: bool)
    ensures x == y ==> r
    ensures x < 0 <= y ==> r
    ensures y < 0 <= x ==> !r
  {
    StrLe(DecimalString(x), DecimalString(y))
  }

  lemma {:induction false} StrLeTotal(a: string, b: string)
    ensures StrLe(a, b) || StrLe(b, a)
    decreases |a|
  {
    if a != [] && b != [] && a[0] == b[0] {
      StrLeTotal(a[1..], b[1..]);
    }
  }

  lemma {:induction false} StrLeTransitive(a: string, b: string, c: string)
    requires StrLe(a, b) && StrLe(b, c)
    ensures StrLe(a, c)
    decreases |a|
  {
    if a != [] && a[0] == b[0] && b[0] == c[0] {
      StrLeTransitive(a[1..], b[1..], c[1..]);
    }
  }

  lemma {:induction false} StrLeAntisymmetric(a: string, b: string)
    requires StrLe(a, b) && StrLe(b, a)
    ensures a == b
    decreases |a|
  {
    if a != [] {
      StrLeAntisymmetric(a[1..], b[1..]);
      assert a == [a[0]] + a[1..] && b == [b[0]] + b[1..];
    }
  }

  /** Different numbers have different decimal strings. */
  lemma {:induction false} DigitsInjective(m: nat, n: nat)
    requires Digits(m) == Digits(n)
    ensures m == n
    decreases m
  {
    if m >= 10 && n >= 10 {
      var dm, dn := Digits(m), Digits(n);
      assert dm[..|dm| - 1] == Digits(m / 10) && dn[..|dn| - 1] == Digits(n / 10);
      DigitsInjective(m / 10, n / 10);
      assert DigitChar(m % 10) == dm[|dm| - 1] == dn[|dn| - 1] == DigitChar(n % 10);
    } else if m < 10 && n < 10 {
      assert DigitChar(m) == Digits(m)[0] == Digits(n)[0] == DigitChar(n);
    }
  }

  lemma DecimalStringInjective(m: int, n: int)
    requires DecimalString(m) == DecimalString(n)
    ensures m == n
  {
    if m < 0 && n < 0 {
      assert Digits(-m) == DecimalString(m)[1..] == DecimalString(n)[1..] == Digits(-n);
      DigitsInjective(-m, -n);
    } else if m >= 0 && n >= 0 {
      DigitsInjective(m, n);
    } else {
      assert false;
    }
  }

  /**
   * On integers the default order is total, transitive and antisymmetric;
   * `Utils.DefaultSortUnique` uses this to show that a sorted permutation
   * under it is unique.
   */
  lemma JsLeIsTotalOrder()
    ensures forall x, y :: JsLe(x, y) || JsLe(y, x)
    ensures forall x, y, z :: JsLe(x, y) && JsLe(y, z) ==> JsLe(x, z)
    ensures forall x, y :: JsLe(x, y) && JsLe(y, x) ==> x == y
  {
    forall x, y
      ensures JsLe(x, y) || JsLe(y, x)
    {
      StrLeTotal(DecimalString(x), DecimalString(y));
    }
    forall x, y, z | JsLe(x, y) && JsLe(y, z)
      ensures JsLe(x, z)
    {
      StrLeTransitive(DecimalString(x), DecimalString(y), DecimalString(z));
    }
    forall x, y | JsLe(x, y) && JsLe(y, x)
      ensures x == y
    {
      StrLeAntisymmetric(DecimalString(x), DecimalString(y));
      DecimalStringInjective(x, y);
    }
  }

  /** "10" < "9": the default order puts 10 before 9, and -1 before -2. */
  lemma TenBeforeNine()
    ensures JsLe(10, 9) && !JsLe(9, 10)
    ensures JsLe(-1, -2) && !JsLe(-2, -1)
  {
    assert DecimalString(10) == "10" && DecimalString(9) == "9";
    assert DecimalString(-1) == "-1" && DecimalString(-2) == "-2";
  }
}
