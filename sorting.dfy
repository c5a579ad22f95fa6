/**
 * `Array.prototype.sort(cmp)`, made concrete as an insertion sort: each
 * element in turn moves left past every predecessor `p` with `cmp(p, x) > 0`.
 * With a consistent comparator this is the stable sort the language
 * prescribes; with an inconsistent one it is one of the orders an engine may
 * produce.
 */
module Sorting {
  import opened Seqs

  /** Inserts `x` at the end of `s` and moves it left past every predecessor that compares above it. */
  function Insert<T>(s: seq<T>, x: T, cmp: (T, T) -> int): (r: seq<T>)
    ensures |r| == |s| + 1
    decreases |s|
  {
    if s == [] || cmp(s[|s| - 1], x) <= 0 then s + [x]
    else Insert(s[..|s| - 1], x, cmp) + [s[|s| - 1]]
  }

  /** The order the sort leaves `s` in. */
  function InsertionSort<T>(s: seq<T>, cmp: (T, T) -> int): (r: seq<T>)
    ensures |r| == |s|
    decreases |s|
  {
    if s == [] then []
    else Insert(InsertionSort(s[..|s| - 1], cmp), s[|s| - 1], cmp)
  }

  /** Inserting adds exactly one occurrence of `x`. */
  lemma {:induction false} InsertPermutes<T>(s: seq<T>, x: T, cmp: (T, T) -> int)
    ensures multiset(Insert(s, x, cmp)) == multiset(s) + multiset{x}
    decreases |s|
  {
    if s != [] && cmp(s[|s| - 1], x) > 0 {
      InsertPermutes(s[..|s| - 1], x, cmp);
      assert s == s[..|s| - 1] + [s[|s| - 1]];
    }
  }

  /** The sort only rearranges: its result is a permutation of its input. */
  lemma {:induction false} InsertionSortPermutes<T>(s: seq<T>, cmp: (T, T) -> int)
    ensures multiset(InsertionSort(s, cmp)) == multiset(s)
    decreases |s|
  {
    if s != [] {
      InsertionSortPermutes(s[..|s| - 1], cmp);
      InsertPermutes(InsertionSort(s[..|s| - 1], cmp), s[|s| - 1], cmp);
      assert s == s[..|s| - 1] + [s[|s| - 1]];
    }
  }

  /** `ok(x, y)`: `x` may stand before `y`. */
  ghost predicate Ordered<T>(s: seq<T>, ok: (T, T) -> bool)
  {
    forall i, j :: 0 <= i < j < |s| ==> ok(s[i], s[j])
  }

  /**
   * On the values in `d`, the comparator agrees with `ok`: what it moves
   * behind may follow, what it leaves in place may precede, and `ok` is
   * transitive.
   */
  ghost predicate Agrees<T(!new)>(d: set<T>, cmp: (T, T) -> int, ok: (T, T) -> bool)
  {
    (forall x, y :: x in d && y in d ==> if cmp(x, y) > 0 then ok(y, x) else ok(x, y)) &&
    (forall x, y, z :: x in d && y in d && z in d && ok(x, y) && ok(y, z) ==> ok(x, z))
  }

  lemma {:induction false} InsertOrdered<T(!new)>(s: seq<T>, x: T, cmp: (T, T) -> int, ok: (T, T) -> bool, d: set<T>)
    requires Agrees(d, cmp, ok)
    requires x in d && forall i :: 0 <= i < |s| ==> s[i] in d
    requires Ordered(s, ok)
    ensures Ordered(Insert(s, x, cmp), ok)
    decreases |s|
  {
    if s == [] {
    } else if cmp(s[|s| - 1], x) <= 0 {
      var r := s + [x];
      forall i, j | 0 <= i < j < |r| ensures ok(r[i], r[j]) {
        if j == |s| && i < |s| - 1 {
          assert ok(s[i], s[|s| - 1]);
        }
      }
    } else {
      var init, last := s[..|s| - 1], s[|s| - 1];
      InsertOrdered(init, x, cmp, ok, d);
      var m := Insert(init, x, cmp);
      InsertPermutes(init, x, cmp);
      forall k | 0 <= k < |m| ensures ok(m[k], last) {
        assert m[k] in multiset(m);
        if m[k] != x {
          assert m[k] in multiset(init);
          var i :| 0 <= i < |init| && init[i] == m[k];
          assert ok(s[i], s[|s| - 1]);
        }
      }
    }
  }

  /** With a comparator that agrees with `ok` on its elements, the result is ordered by `ok`. */
  lemma {:induction false} InsertionSortOrdered<T(!new)>(s: seq<T>, cmp: (T, T) -> int, ok: (T, T) -> bool, d: set<T>)
    requires Agrees(d, cmp, ok)
    requires forall i :: 0 <= i < |s| ==> s[i] in d
    ensures Ordered(InsertionSort(s, cmp), ok)
    decreases |s|
  {
    if s != [] {
      var init := s[..|s| - 1];
      InsertionSortOrdered(init, cmp, ok, d);
      var sorted := InsertionSort(init, cmp);
      InsertionSortPermutes(init, cmp);
      forall k | 0 <= k < |sorted| ensures sorted[k] in d {
        assert sorted[k] in multiset(init);
      }
      InsertOrdered(sorted, s[|s| - 1], cmp, ok, d);
    }
  }

  lemma {:induction false} InsertStable<T(!new)>(s: seq<T>, x: T, cmp: (T, T) -> int, p: T -> bool, d: set<T>)
    requires forall a, b :: a in d && b in d && p(a) && p(b) ==> cmp(a, b) <= 0
    requires x in d && forall i :: 0 <= i < |s| ==> s[i] in d
    ensures Keep(Insert(s, x, cmp), p) == Keep(s, p) + Keep([x], p)
    decreases |s|
  {
    if s == [] || cmp(s[|s| - 1], x) <= 0 {
      KeepConcat(s, [x], p);
    } else {
      var init, last := s[..|s| - 1], s[|s| - 1];
      InsertStable(init, x, cmp, p, d);
      KeepConcat(Insert(init, x, cmp), [last], p);
      KeepConcat(init, [last], p);
      assert s == init + [last];
      assert !(p(last) && p(x));
    }
  }

  /**
   * Stability: among the elements of one class of `p` whose members never
   * compare above each other, the sort keeps their original order.
   */
  lemma {:induction false} InsertionSortStable<T(!new)>(s: seq<T>, cmp: (T, T) -> int, p: T -> bool, d: set<T>)
    requires forall a, b :: a in d && b in d && p(a) && p(b) ==> cmp(a, b) <= 0
    requires forall i :: 0 <= i < |s| ==> s[i] in d
    ensures Keep(InsertionSort(s, cmp), p) == Keep(s, p)
    decreases |s|
  {
    if s != [] {
      var init, x := s[..|s| - 1], s[|s| - 1];
      InsertionSortStable(init, cmp, p, d);
      var sorted := InsertionSort(init, cmp);
      InsertionSortPermutes(init, cmp);
      forall k | 0 <= k < |sorted| ensures sorted[k] in d {
        assert sorted[k] in multiset(init);
      }
      InsertStable(sorted, x, cmp, p, d);
      KeepConcat(init, [x], p);
      assert s == init + [x];
    }
  }

  /** Unfolds one step of moving `x` left past `s[j - 1]`. */
  lemma InsertStep<T>(s: seq<T>, j: nat, x: T, cmp: (T, T) -> int)
    requires 0 < j <= |s| && cmp(s[j - 1], x) > 0
    ensures Insert(s[..j], x, cmp) == Insert(s[..j - 1], x, cmp) + [s[j - 1]]
  {
    assert s[..j][..j - 1] == s[..j - 1];
  }

  /** Moving `x` left past a run of elements that all compare above it. */
  lemma {:induction false} InsertPast<T>(s: seq<T>, j: nat, x: T, cmp: (T, T) -> int)
    requires j <= |s|
    requires forall k :: j <= k < |s| ==> cmp(s[k], x) > 0
    ensures Insert(s, x, cmp) == Insert(s[..j], x, cmp) + s[j..]
    decreases |s| - j
  {
    if j < |s| {
      ghost var head, rest := Insert(s[..j], x, cmp), s[j + 1..];
      assert Insert(s, x, cmp) == Insert(s[..j + 1], x, cmp) + rest by {
        InsertPast(s, j + 1, x, cmp);
      }
      assert Insert(s[..j + 1], x, cmp) == head + [s[j]] by {
        InsertStep(s, j + 1, x, cmp);
      }
      assert s[j..] == [s[j]] + rest;
      assert (head + [s[j]]) + rest == head + ([s[j]] + rest);
    } else {
      assert s[..j] == s;
    }
  }

  /** A sequence laid out as the insertion leaves it is the inserted sequence. */
  lemma InsertPlaced<T>(sorted: seq<T>, j: nat, x: T, cmp: (T, T) -> int, t: seq<T>)
    requires j <= |sorted| && |t| == |sorted| + 1
    requires j == 0 || cmp(sorted[j - 1], x) <= 0
    requires forall k :: j <= k < |sorted| ==> cmp(sorted[k], x) > 0
    requires forall k :: 0 <= k < j ==> t[k] == sorted[k]
    requires t[j] == x
    requires forall k :: j < k < |t| ==> t[k] == sorted[k - 1]
    ensures t == Insert(sorted, x, cmp)
  {
    InsertPast(sorted, j, x, cmp);
    assert Insert(sorted[..j], x, cmp) == sorted[..j] + [x];
    ghost var r := sorted[..j] + [x] + sorted[j..];
    assert |r| == |t| && r[j] == x;
    assert forall k :: 0 <= k < j ==> r[k] == sorted[k];
    assert forall k :: j < k < |t| ==> r[k] == sorted[k - 1];
    assert t == r;
  }

  /** Moves `a[i]` left into the prefix `a[..i]`, shifting what it passes one place right. */
  method InsertInPlace<T>(a: array<T>, i: nat, cmp: (T, T) -> int)
    requires i < a.Length
    modifies a
    ensures a[..i + 1] == Insert(old(a[..i]), old(a[i]), cmp)
    ensures a[i + 1..] == old(a[i + 1..])
  {
    ghost var sorted := a[..i];
    var x := a[i];
    var j := i;
    while j > 0 && cmp(a[j - 1], x) > 0
      invariant 0 <= j <= i
      invariant forall k :: 0 <= k < j ==> a[k] == sorted[k]
      invariant forall k :: j < k <= i ==> a[k] == sorted[k - 1]
      invariant forall k :: j <= k < i ==> cmp(sorted[k], x) > 0
      invariant forall k :: i < k < a.Length ==> a[k] == old(a[k])
    {
      a[j] := a[j - 1];
      j := j - 1;
    }
    a[j] := x;
    InsertPlaced(sorted, j, x, cmp, a[..i + 1]);
  }

  /** The sort, in place on an array, as the source's `.sort` call works. */
  method SortInPlace<T>(a: array<T>, cmp: (T, T) -> int)
    modifies a
    ensures a[..] == InsertionSort(old(a[..]), cmp)
  {
    ghost var input := a[..];
    for i := 0 to a.Length
      invariant a[..i] == InsertionSort(input[..i], cmp)
      invariant a[i..] == input[i..]
    {
      assert input[..i + 1][..i] == input[..i];
      InsertInPlace(a, i, cmp);
    }
    assert input[..a.Length] == input;
  }
}
