/**
 * What `Array.prototype.sort` computes, for an order given as a function:
 * the sorted permutation of its input.  Also counting, to say how many
 * elements lie on either side of a chosen one.
 */
module Sorting {

  /** `le` is total and transitive. */
  ghost predicate TotalPreorder(le: (int, int) -> bool) {
    && (forall x, y :: le(x, y) || le(y, x))
    && (forall x, y, z :: le(x, y) && le(y, z) ==> le(x, z))
  }

  lemma Total(le: (int, int) -> bool, x: int, y: int)
    requires TotalPreorder(le)
    ensures le(x, y) || le(y, x)
  {
  }

  lemma Transitive(le: (int, int) -> bool, x: int, y: int, z: int)
    requires TotalPreorder(le) && le(x, y) && le(y, z)
    ensures le(x, z)
  {
  }

  predicate SortedBy(s: seq<int>, le: (int, int) -> bool) {
    forall i, j :: 0 <= i < j < |s| ==> le(s[i], s[j])
  }

  /** `x` placed before the first element it comes no later than. */
  function Insert(x: int, s: seq<int>, le: (int, int) -> bool): (r: seq<int>)
    ensures multiset(r) == multiset(s) + multiset{x}
  {
    if s == [] then [x]
    else if le(x, s[0]) then [x] + s
    else assert s == [s[0]] + s[1..]; [s[0]] + Insert(x, s[1..], le)
  }

  /** The input, sorted by `le`. */
  function Sort(s: seq<int>, le: (int, int) -> bool): (r: seq<int>)
    ensures multiset(r) == multiset(s)
    ensures |r| == |s|
  {
    if s == [] then []
    else assert s == [s[0]] + s[1..]; Insert(s[0], Sort(s[1..], le), le)
  }

  /** Sorting `[x] + s` inserts `x` into the sorted `s`. */
  lemma SortCons(x: int, s: seq<int>, le: (int, int) -> bool)
    ensures Sort([x] + s, le) == Insert(x, Sort(s, le), le)
  {
    assert ([x] + s)[0] == x && ([x] + s)[1..] == s;
  }

  /** Insertion stops before the first element `x` comes no later than. */
  lemma InsertStep(x: int, y: int, s: seq<int>, le: (int, int) -> bool)
    ensures le(x, y) ==> Insert(x, [y] + s, le) == [x, y] + s
    ensures !le(x, y) ==> Insert(x, [y] + s, le) == [y] + Insert(x, s, le)
  {
    assert ([y] + s)[0] == y && ([y] + s)[1..] == s;
  }

  lemma {:induction false} InsertSorted(x: int, s: seq<int>, le: (int, int) -> bool)
    requires TotalPreorder(le) && SortedBy(s, le)
    ensures SortedBy(Insert(x, s, le), le)
  {
    if s != [] && !le(x, s[0]) {
      InsertSorted(x, s[1..], le);
      InsertPastHead(x, s, le);
    } else if s != [] {
      InsertAtHead(x, s, le);
    }
  }

  /** `x` placed in front of a sorted sequence whose head it comes no later than. */
  lemma InsertAtHead(x: int, s: seq<int>, le: (int, int) -> bool)
    requires TotalPreorder(le) && SortedBy(s, le) && s != [] && le(x, s[0])
    ensures SortedBy([x] + s, le)
  {
    var r := [x] + s;
    forall i, j | 0 <= i < j < |r|
      ensures le(r[i], r[j])
    {
      if i == 0 && j > 1 {
        Transitive(le, x, s[0], s[j - 1]);
      }
    }
  }

  /** `x` inserted past the head: the head stays first, before the sorted rest. */
  lemma InsertPastHead(x: int, s: seq<int>, le: (int, int) -> bool)
    requires TotalPreorder(le) && SortedBy(s, le) && s != [] && !le(x, s[0])
    requires SortedBy(Insert(x, s[1..], le), le)
    ensures SortedBy(Insert(x, s, le), le)
  {
    var rest := Insert(x, s[1..], le);
    forall y | y in rest
      ensures le(s[0], y)
    {
      HeadBeforeInserted(x, s, le, y);
    }
    assert Insert(x, s, le) == [s[0]] + rest;
    HeadBeforeSorted(s[0], rest, le);
  }

  /** The head of a sorted `s` that `x` does not precede comes no later than anything inserted after it. */
  lemma HeadBeforeInserted(x: int, s: seq<int>, le: (int, int) -> bool, y: int)
    requires TotalPreorder(le) && SortedBy(s, le) && s != [] && !le(x, s[0])
    requires y in Insert(x, s[1..], le)
    ensures le(s[0], y)
  {
    assert y in multiset(Insert(x, s[1..], le));
    if y == x {
      Total(le, x, s[0]);
    } else {
      assert y in multiset(s[1..]);
      var k :| 0 <= k < |s[1..]| && s[1..][k] == y;
      assert s[k + 1] == y;
    }
  }

  /** A head that comes no later than every element of a sorted rest gives a sorted sequence. */
  lemma HeadBeforeSorted(h: int, rest: seq<int>, le: (int, int) -> bool)
    requires SortedBy(rest, le) && forall y :: y in rest ==> le(h, y)
    ensures SortedBy([h] + rest, le)
  {
    var r := [h] + rest;
    forall i, j | 0 <= i < j < |r|
      ensures le(r[i], r[j])
    {
      if i == 0 {
        assert r[j] in rest;
      } else {
        assert r[i] == rest[i - 1] && r[j] == rest[j - 1];
      }
    }
  }

  /** The sort's result is in order (and a permutation, by `Sort`'s contract). */
  lemma {:induction false} SortSorted(s: seq<int>, le: (int, int) -> bool)
    requires TotalPreorder(le)
    ensures SortedBy(Sort(s, le), le)
  {
    if s != [] {
      SortSorted(s[1..], le);
      InsertSorted(s[0], Sort(s[1..], le), le);
    }
  }

  /** How many elements of `s` satisfy `p`. */
  function CountIf(s: seq<int>, p: int -> bool): (n: nat)
    ensures n <= |s|
  {
    if s == [] then 0 else (if p(s[0]) then 1 else 0) + CountIf(s[1..], p)
  }

  lemma {:induction false} CountIfAppend(a: seq<int>, b: seq<int>, p: int -> bool)
    ensures CountIf(a + b, p) == CountIf(a, p) + CountIf(b, p)
  {
    if a == [] {
      assert a + b == b;
    } else {
      assert (a + b)[1..] == a[1..] + b;
      CountIfAppend(a[1..], b, p);
    }
  }

  /** Counting does not depend on the order of the elements. */
  lemma {:induction false} CountIfPermutation(a: seq<int>, b: seq<int>, p: int -> bool)
    requires multiset(a) == multiset(b)
    ensures CountIf(a, p) == CountIf(b, p)
    decreases |a|
  {
    if a == [] {
      assert |b| == |multiset(b)| == 0;
    } else {
      assert a[0] in multiset(b);
      var i :| 0 <= i < |b| && b[i] == a[0];
      MultisetRemove(b, i);
      CountIfRemove(b, i, p);
      TailMultiset(a);
      CountIfPermutation(a[1..], b[..i] + b[i + 1..], p);
    }
  }

  /** Dropping the first element removes one copy of it. */
  lemma TailMultiset(s: seq<int>)
    requires s != []
    ensures multiset(s[1..]) == multiset(s) - multiset{s[0]}
  {
    assert s == [s[0]] + s[1..];
  }

  /** Dropping the element at `i` removes one copy of it. */
  lemma MultisetRemove(b: seq<int>, i: int)
    requires 0 <= i < |b|
    ensures multiset(b[..i] + b[i + 1..]) == multiset(b) - multiset{b[i]}
  {
    var front, x, back := b[..i], b[i], b[i + 1..];
    assert b[..i + 1] == front + [x];
    assert b == b[..i + 1] + back;
    RemoveOne(front, x, back);
  }

  /** Dropping the element at `i` removes its share of the count. */
  lemma CountIfRemove(b: seq<int>, i: int, p: int -> bool)
    requires 0 <= i < |b|
    ensures CountIf(b, p) == CountIf(b[..i] + b[i + 1..], p) + (if p(b[i]) then 1 else 0)
  {
    var front, x, back := b[..i], b[i], b[i + 1..];
    assert b[..i + 1] == front + [x];
    assert b == b[..i + 1] + back;
    CountIfAppend(b[..i + 1], back, p);
    CountIfAppend(front, [x], p);
    CountIfAppend(front, back, p);
    assert [x][1..] == [];
  }

  lemma RemoveOne(front: seq<int>, x: int, back: seq<int>)
    ensures multiset(front + back) == multiset((front + [x]) + back) - multiset{x}
  {
    assert multiset((front + [x]) + back) == multiset(front) + multiset{x} + multiset(back);
    assert multiset(front + back) == multiset(front) + multiset(back);
  }

  /** Every element satisfying `p` gives a count of at least the length. */
  lemma {:induction false} CountIfAll(s: seq<int>, p: int -> bool)
    requires forall i :: 0 <= i < |s| ==> p(s[i])
    ensures CountIf(s, p) == |s|
  {
    if s != [] {
      CountIfAll(s[1..], p);
    }
  }

  /** A weaker condition counts at least as many elements. */
  lemma {:induction false} CountIfMonotone(s: seq<int>, p: int -> bool, q: int -> bool)
    requires forall x :: p(x) ==> q(x)
    ensures CountIf(s, p) <= CountIf(s, q)
  {
    if s != [] {
      CountIfMonotone(s[1..], p, q);
    }
  }

  /** "Comes no later than `pivot`" under `le`. */
  function NoLaterThan(le: (int, int) -> bool, pivot: int): int -> bool {
    x => le(x, pivot)
  }

  /** "Comes no earlier than `pivot`" under `le`. */
  function NoEarlierThan(le: (int, int) -> bool, pivot: int): int -> bool {
    x => le(pivot, x)
  }

  /**
   * In a sorted sequence, the element at `h` has at least `h + 1` elements
   * no later than it and at least `|t| - h` no earlier than it.
   */
  lemma SortedSplit(t: seq<int>, le: (int, int) -> bool, h: int)
    requires TotalPreorder(le) && SortedBy(t, le) && 0 <= h < |t|
    ensures CountIf(t, NoLaterThan(le, t[h])) >= h + 1
    ensures CountIf(t, NoEarlierThan(le, t[h])) >= |t| - h
  {
    SortedBelow(t, le, h);
    SortedAbove(t, le, h);
  }

  lemma SortedBelow(t: seq<int>, le: (int, int) -> bool, h: int)
    requires TotalPreorder(le) && SortedBy(t, le) && 0 <= h < |t|
    ensures CountIf(t, NoLaterThan(le, t[h])) >= h + 1
  {
    var p := NoLaterThan(le, t[h]);
    var below, above := t[..h + 1], t[h + 1..];
    assert t == below + above;
    CountIfAppend(below, above, p);
    Total(le, t[h], t[h]);
    assert forall i :: 0 <= i < |below| ==> below[i] == t[i];
    CountIfAll(below, p);
  }

  lemma SortedAbove(t: seq<int>, le: (int, int) -> bool, h: int)
    requires TotalPreorder(le) && SortedBy(t, le) && 0 <= h < |t|
    ensures CountIf(t, NoEarlierThan(le, t[h])) >= |t| - h
  {
    var p := NoEarlierThan(le, t[h]);
    var before, after := t[..h], t[h..];
    assert t == before + after;
    CountIfAppend(before, after, p);
    Total(le, t[h], t[h]);
    assert forall i :: 0 <= i < |after| ==> after[i] == t[h + i];
    CountIfAll(after, p);
  }

  /** `le` never puts two different values each before the other. */
  ghost predicate Antisymmetric(le: (int, int) -> bool) {
    forall x, y :: le(x, y) && le(y, x) ==> x == y
  }

  /** The first element of a sorted sequence comes no later than any of its elements. */
  lemma SortedHeadFirst(a: seq<int>, le: (int, int) -> bool, x: int)
    requires TotalPreorder(le) && SortedBy(a, le) && x in multiset(a)
    ensures a != [] && le(a[0], x)
  {
    var i :| 0 <= i < |a| && a[i] == x;
    if i == 0 {
      Total(le, x, x);
    }
  }

  /** The tail of a sorted sequence is sorted. */
  lemma SortedTail(s: seq<int>, le: (int, int) -> bool)
    requires SortedBy(s, le) && s != []
    ensures SortedBy(s[1..], le)
  {
    forall i, j | 0 <= i < j < |s[1..]|
      ensures le(s[1..][i], s[1..][j])
    {
      assert s[1..][i] == s[i + 1] && s[1..][j] == s[j + 1];
    }
  }

  /**
   * Under a total, transitive and antisymmetric order there is only one
   * sorted permutation of a sequence, so any correct sort returns `Sort`'s
   * result.
   */
  lemma {:induction false} SortedPermutationUnique(a: seq<int>, b: seq<int>, le: (int, int) -> bool)
    requires TotalPreorder(le) && Antisymmetric(le)
    requires multiset(a) == multiset(b) && SortedBy(a, le) && SortedBy(b, le)
    ensures a == b
    decreases |a|
  {
    if a == [] {
      assert |b| == |multiset(b)| == 0;
    } else {
      assert a[0] in multiset(b);
      SortedHeadFirst(b, le, a[0]);
      SortedHeadFirst(a, le, b[0]);
      assert a[0] == b[0];
      TailMultiset(a);
      TailMultiset(b);
      SortedTail(a, le);
      SortedTail(b, le);
      SortedPermutationUnique(a[1..], b[1..], le);
      assert a == [a[0]] + a[1..] && b == [b[0]] + b[1..];
    }
  }
}
