/**
 * `Array.prototype.sort(compare)`, which reorders an array in place and is
 * stable. It is modelled as insertion sort: `compare(a, b) > 0` puts `b`
 * before `a`, anything else keeps the two in place.
 */
module ArraySort {
  import opened Js

  /** A comparator that changes sign when its arguments are swapped. */
  ghost predicate Antisymmetric<T(!new)>(compare: (T, T) -> int) {
    forall a, b :: compare(a, b) == -compare(b, a)
  }

  /** One insertion step: `x` moves left past the elements at the end of `t` that compare after it. */
  function Insert<T>(compare: (T, T) -> int, t: seq<T>, x: T): (r: seq<T>)
    ensures |r| == |t| + 1
  {
    if t == [] then [x]
    else if compare(t[|t| - 1], x) > 0 then Insert(compare, t[..|t| - 1], x) + [t[|t| - 1]]
    else t + [x]
  }

  /** The order the in-place sort leaves. */
  function InsertionSort<T>(compare: (T, T) -> int, s: seq<T>): (r: seq<T>)
    ensures |r| == |s|
  {
    if s == [] then []
    else Insert(compare, InsertionSort(compare, s[..|s| - 1]), s[|s| - 1])
  }

  /** No neighbouring pair is one the comparator would swap. */
  predicate AdjacentInOrder<T>(compare: (T, T) -> int, s: seq<T>) {
    forall i :: 0 <= i < |s| - 1 ==> compare(s[i], s[i + 1]) <= 0
  }

  lemma {:induction false} InsertPermutation<T>(compare: (T, T) -> int, t: seq<T>, x: T)
    ensures multiset(Insert(compare, t, x)) == multiset(t) + multiset{x}
  {
    if t != [] && compare(t[|t| - 1], x) > 0 {
      InsertPermutation(compare, t[..|t| - 1], x);
      assert t == t[..|t| - 1] + [t[|t| - 1]];
    }
  }

  /** Insert ends with `x` or with the last element of `t`. */
  lemma {:induction false} InsertLast<T>(compare: (T, T) -> int, t: seq<T>, x: T)
    ensures var r := Insert(compare, t, x);
      r[|r| - 1] == x || (t != [] && r[|r| - 1] == t[|t| - 1])
  {
    if t != [] && compare(t[|t| - 1], x) > 0 {
      InsertLast(compare, t[..|t| - 1], x);
    }
  }

  lemma {:induction false} InsertInOrder<T(!new)>(compare: (T, T) -> int, t: seq<T>, x: T)
    requires Antisymmetric(compare)
    requires AdjacentInOrder(compare, t)
    ensures AdjacentInOrder(compare, Insert(compare, t, x))
  {
    if t != [] && compare(t[|t| - 1], x) > 0 {
      var init, last := t[..|t| - 1], t[|t| - 1];
      InsertInOrder(compare, init, x);
      InsertLast(compare, init, x);
      var r := Insert(compare, init, x);
      assert compare(x, last) < 0;
      if init != [] {
        assert compare(init[|init| - 1], last) <= 0 by {
          assert init[|init| - 1] == t[|t| - 2];
        }
      }
      assert compare(r[|r| - 1], last) <= 0;
      assert Insert(compare, t, x) == r + [last];
    }
  }

  /** Sorting only reorders: the result is a permutation of the input. */
  lemma {:induction false} SortPermutation<T>(compare: (T, T) -> int, s: seq<T>)
    ensures multiset(InsertionSort(compare, s)) == multiset(s)
  {
    if s != [] {
      var init, x := s[..|s| - 1], s[|s| - 1];
      SortPermutation(compare, init);
      InsertPermutation(compare, InsertionSort(compare, init), x);
      assert s == init + [x];
    }
  }

  /** For an antisymmetric comparator no neighbouring pair of the result is out of order. */
  lemma {:induction false} SortInOrder<T(!new)>(compare: (T, T) -> int, s: seq<T>)
    requires Antisymmetric(compare)
    ensures AdjacentInOrder(compare, InsertionSort(compare, s))
  {
    if s != [] {
      SortInOrder(compare, s[..|s| - 1]);
      InsertInOrder(compare, InsertionSort(compare, s[..|s| - 1]), s[|s| - 1]);
    }
  }

  /** A comparator that never asks for a swap leaves the order as it is. */
  lemma {:induction false} SortWithoutSwaps<T(!new)>(compare: (T, T) -> int, s: seq<T>)
    requires forall a, b :: compare(a, b) <= 0
    ensures InsertionSort(compare, s) == s
  {
    if s != [] {
      SortWithoutSwaps(compare, s[..|s| - 1]);
      assert s == s[..|s| - 1] + [s[|s| - 1]];
    }
  }

  /** No two elements that pass `test` are ever swapped with one another. */
  ghost predicate NeverSwapsWithin<T(!new)>(compare: (T, T) -> int, test: T -> bool) {
    forall a, b :: compare(a, b) > 0 && test(a) ==> !test(b)
  }

  lemma {:induction false} InsertStable<T(!new)>(compare: (T, T) -> int, test: T -> bool, t: seq<T>, x: T)
    requires NeverSwapsWithin(compare, test)
    ensures Filter(test, Insert(compare, t, x)) == Filter(test, t + [x])
  {
    if t != [] && compare(t[|t| - 1], x) > 0 {
      var init, last := t[..|t| - 1], t[|t| - 1];
      InsertStable(compare, test, init, x);
      FilterAppend(test, Insert(compare, init, x), [last]);
      FilterAppend(test, init, [x]);
      FilterAppend(test, init, [last]);
      FilterAppend(test, t, [x]);
      assert t == init + [last];
      assert [x][1..] == [] && [last][1..] == [];
      if test(x) {
        assert Filter(test, [last]) == [];
      } else {
        assert Filter(test, [x]) == [];
      }
    }
  }

  /** Stability: the elements passing `test` keep their relative order. */
  lemma {:induction false} SortStable<T(!new)>(compare: (T, T) -> int, test: T -> bool, s: seq<T>)
    requires NeverSwapsWithin(compare, test)
    ensures Filter(test, InsertionSort(compare, s)) == Filter(test, s)
  {
    if s != [] {
      var init, x := s[..|s| - 1], s[|s| - 1];
      SortStable(compare, test, init);
      InsertStable(compare, test, InsertionSort(compare, init), x);
      FilterAppend(test, InsertionSort(compare, init), [x]);
      FilterAppend(test, init, [x]);
      assert s == init + [x];
    }
  }

  /** Moving `x` past `t[j - 1]` unfolds Insert once. */
  lemma InsertPast<T>(compare: (T, T) -> int, t: seq<T>, j: nat, x: T)
    requires 0 < j <= |t| && compare(t[j - 1], x) > 0
    ensures Insert(compare, t[..j], x) + t[j..] == Insert(compare, t[..j - 1], x) + t[j - 1..]
  {
    assert t[..j][..j - 1] == t[..j - 1];
    assert t[j - 1..] == [t[j - 1]] + t[j..];
  }

  /** Where `x` stops, Insert puts it. */
  lemma InsertStop<T>(compare: (T, T) -> int, t: seq<T>, j: nat, x: T)
    requires j <= |t| && (j == 0 || compare(t[j - 1], x) <= 0)
    ensures Insert(compare, t[..j], x) + t[j..] == t[..j] + [x] + t[j..]
  {
    assert j > 0 ==> t[..j][..j - 1] == t[..j - 1];
  }

  /** One pass of the sort: `a[i]` moves left into the sorted prefix `a[..i]`. */
  method InsertIntoPrefix<T>(a: array<T>, i: nat, compare: (T, T) -> int)
    requires i < a.Length
    modifies a
    ensures a[..] == Insert(compare, old(a[..i]), old(a[i])) + old(a[i + 1..])
  {
    var x := a[i];
    ghost var t, rest := a[..i], a[i + 1..];
    ghost var goal := Insert(compare, t, x);
    var j := i;
    assert t[..j] == t && t[j..] == [];
    assert a[..] == t[..j] + [x] + t[j..] + rest;
    while j > 0 && compare(a[j - 1], x) > 0
      invariant 0 <= j <= i
      invariant a[..] == t[..j] + [a[j]] + t[j..] + rest
      invariant goal == Insert(compare, t[..j], x) + t[j..]
    {
      InsertPast(compare, t, j, x);
      ShiftRight(a[..], t, rest, j);
      ghost var before := a[..];
      a[j] := a[j - 1];
      assert a[..] == before[j := before[j - 1]];
      j := j - 1;
    }
    InsertStop(compare, t, j, x);
    ghost var before := a[..];
    a[j] := x;
    assert a[..] == before[j := x];
    Place(before, t, rest, j, x);
  }

  /** Filling the hole at `j` with `x`. */
  lemma Place<T>(s: seq<T>, t: seq<T>, rest: seq<T>, j: nat, x: T)
    requires j <= |t| && j < |s|
    requires s == t[..j] + [s[j]] + t[j..] + rest
    ensures s[j := x] == t[..j] + [x] + t[j..] + rest
  {
  }

  /** Copying `a[j - 1]` into the hole at `j` moves the hole one place left. */
  lemma ShiftRight<T>(s: seq<T>, t: seq<T>, rest: seq<T>, j: nat)
    requires 0 < j <= |t| && j < |s|
    requires s == t[..j] + [s[j]] + t[j..] + rest
    ensures s[j := s[j - 1]] == t[..j - 1] + [s[j - 1]] + t[j - 1..] + rest
  {
    assert s[j - 1] == t[j - 1];
    assert t[..j] == t[..j - 1] + [t[j - 1]];
    assert t[j - 1..] == [t[j - 1]] + t[j..];
  }

  /** `a.sort(compare)`: the array ends holding InsertionSort of its old contents. */
  method SortInPlace<T>(a: array<T>, compare: (T, T) -> int)
    modifies a
    ensures a[..] == InsertionSort(compare, old(a[..]))
  {
    ghost var s := a[..];
    var i := 0;
    while i < a.Length
      invariant 0 <= i <= a.Length
      invariant a[..i] == InsertionSort(compare, s[..i])
      invariant a[i..] == s[i..]
    {
      assert s[..i + 1] == s[..i] + [s[i]];
      InsertIntoPrefix(a, i, compare);
      assert a[..] == InsertionSort(compare, s[..i + 1]) + s[i + 1..];
      i := i + 1;
    }
    assert a[..] == a[..a.Length] && s == s[..a.Length];
  }
}
