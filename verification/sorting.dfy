/** `Array.prototype.sort` with a comparator of the form
    `(a, b) => key(b) - key(a)`, i.e. by an integer key, largest first.
    Since the 2019 edition ECMA-262 requires this sort to be stable (section
    23.1.3.30 "Array.prototype.sort" of the 2023 edition), so elements with
    equal keys keep their relative order. `IsStableSortOf` states that
    requirement, `InsertionSort` is one function meeting it, and
    `StableSortUnique` shows that every function meeting it gives the same
    result, so the model does not depend on which algorithm the engine runs. */
module Sorting {

  /** Keys never increase from left to right. */
  predicate SortedDesc<T>(s: seq<T>, key: T -> int)
  {
    forall i, j :: 0 <= i < j < |s| ==> key(s[i]) >= key(s[j])
  }

  /** The elements of `s` whose key is `k`, in their order in `s`. */
  function Select<T>(s: seq<T>, key: T -> int, k: int): (r: seq<T>)
    ensures |r| <= |s|
  {
    if s == [] then []
    else (if key(s[0]) == k then [s[0]] else []) + Select(s[1..], key, k)
  }

  predicate Distinct<T(==)>(s: seq<T>)
  {
    forall i, j :: 0 <= i < j < |s| ==> s[i] != s[j]
  }

  /** `r` is what a stable sort of `s` by descending key yields: sorted, and
      for every key the elements carrying it appear in the same order as in
      `s` (which also makes `r` a permutation of `s`). */
  ghost predicate IsStableSortOf<T>(r: seq<T>, s: seq<T>, key: T -> int)
  {
    && SortedDesc(r, key)
    && forall k :: Select(r, key, k) == Select(s, key, k)
  }

  /** Insert `x` into `t` after every element whose key is at least `x`'s. */
  function Insert<T>(t: seq<T>, x: T, key: T -> int): (r: seq<T>)
    ensures |r| == |t| + 1
  {
    if t == [] || key(t[|t| - 1]) >= key(x) then t + [x]
    else Insert(t[..|t| - 1], x, key) + [t[|t| - 1]]
  }

  /** Stable insertion sort, largest key first. */
  function InsertionSort<T>(s: seq<T>, key: T -> int): (r: seq<T>)
    ensures |r| == |s|
  {
    if s == [] then [] else Insert(InsertionSort(s[..|s| - 1], key), s[|s| - 1], key)
  }

  lemma {:induction false} SelectAppend<T>(a: seq<T>, b: seq<T>, key: T -> int, k: int)
    ensures Select(a + b, key, k) == Select(a, key, k) + Select(b, key, k)
  {
    if a != [] {
      assert (a + b)[1..] == a[1..] + b;
      SelectAppend(a[1..], b, key, k);
    } else {
      assert a + b == b;
    }
  }

  lemma {:induction false} InsertSelect<T>(t: seq<T>, x: T, key: T -> int, k: int)
    ensures Select(Insert(t, x, key), key, k) == Select(t, key, k) + Select([x], key, k)
  {
    if t == [] || key(t[|t| - 1]) >= key(x) {
      SelectAppend(t, [x], key, k);
    } else {
      var t', last := t[..|t| - 1], t[|t| - 1];
      assert t == t' + [last];
      InsertSelect(t', x, key, k);
      SelectAppend(Insert(t', x, key), [last], key, k);
      SelectAppend(t', [last], key, k);
      SelectAppend(t', [x], key, k);
      if key(last) == k {
        assert Select([x], key, k) == [];
      }
    }
  }

  /** Insertion sort keeps the order of equal keys. */
  lemma {:induction false} InsertionSortStable<T>(s: seq<T>, key: T -> int, k: int)
    ensures Select(InsertionSort(s, key), key, k) == Select(s, key, k)
  {
    if s != [] {
      var s', x := s[..|s| - 1], s[|s| - 1];
      assert s == s' + [x];
      InsertionSortStable(s', key, k);
      InsertSelect(InsertionSort(s', key), x, key, k);
      SelectAppend(s', [x], key, k);
    }
  }

  lemma {:induction false} InsertMultiset<T>(t: seq<T>, x: T, key: T -> int)
    ensures multiset(Insert(t, x, key)) == multiset(t) + multiset{x}
  {
    if !(t == [] || key(t[|t| - 1]) >= key(x)) {
      var t', last := t[..|t| - 1], t[|t| - 1];
      assert t == t' + [last];
      InsertMultiset(t', x, key);
    }
  }

  /** Insertion sort yields a permutation of its input. */
  lemma {:induction false} InsertionSortPermutation<T>(s: seq<T>, key: T -> int)
    ensures multiset(InsertionSort(s, key)) == multiset(s)
  {
    if s != [] {
      var s', x := s[..|s| - 1], s[|s| - 1];
      assert s == s' + [x];
      InsertionSortPermutation(s', key);
      InsertMultiset(InsertionSort(s', key), x, key);
    }
  }

  /** Appending an element whose key is at most every key of a sorted
      sequence keeps it sorted. */
  lemma AppendSorted<T>(u: seq<T>, last: T, key: T -> int)
    requires SortedDesc(u, key)
    requires forall y :: y in multiset(u) ==> key(y) >= key(last)
    ensures SortedDesc(u + [last], key)
  {
    forall i, j | 0 <= i < j < |u + [last]|
      ensures key((u + [last])[i]) >= key((u + [last])[j])
    {
      if j == |u| {
        assert (u + [last])[i] == u[i];
        assert u[i] in multiset(u);
      }
    }
  }

  lemma {:induction false} InsertSorted<T>(t: seq<T>, x: T, key: T -> int)
    requires SortedDesc(t, key)
    ensures SortedDesc(Insert(t, x, key), key)
  {
    if t == [] || key(t[|t| - 1]) >= key(x) {
      AppendSorted(t, x, key);
    } else {
      var t', last := t[..|t| - 1], t[|t| - 1];
      InsertSorted(t', x, key);
      var u := Insert(t', x, key);
      InsertMultiset(t', x, key);
      forall y | y in multiset(u)
        ensures key(y) >= key(last)
      {
        if y != x {
          assert y in multiset(t');
          var i :| 0 <= i < |t'| && t'[i] == y;
          assert t[i] == y;
        }
      }
      AppendSorted(u, last, key);
    }
  }

  /** Insertion sort's result is sorted by descending key. */
  lemma {:induction false} InsertionSortSorted<T>(s: seq<T>, key: T -> int)
    ensures SortedDesc(InsertionSort(s, key), key)
  {
    if s != [] {
      InsertionSortSorted(s[..|s| - 1], key);
      InsertSorted(InsertionSort(s[..|s| - 1], key), s[|s| - 1], key);
    }
  }

  /** Insertion sort is a stable sort. */
  lemma InsertionSortIsStableSort<T>(s: seq<T>, key: T -> int)
    ensures IsStableSortOf(InsertionSort(s, key), s, key)
    ensures multiset(InsertionSort(s, key)) == multiset(s)
  {
    InsertionSortSorted(s, key);
    InsertionSortPermutation(s, key);
    forall k ensures Select(InsertionSort(s, key), key, k) == Select(s, key, k) {
      InsertionSortStable(s, key, k);
    }
  }

  lemma {:induction false} SelectHead<T>(s: seq<T>, key: T -> int)
    requires s != []
    ensures Select(s, key, key(s[0])) != [] && Select(s, key, key(s[0]))[0] == s[0]
  {
  }

  lemma {:induction false} SelectMember<T>(s: seq<T>, key: T -> int, k: int, y: T)
    requires y in Select(s, key, k)
    ensures y in s && key(y) == k
  {
    if s != [] && y !in (if key(s[0]) == k then [s[0]] else []) {
      SelectMember(s[1..], key, k, y);
    }
  }

  lemma {:induction false} SelectNonEmpty<T>(s: seq<T>, key: T -> int, i: int)
    requires 0 <= i < |s|
    ensures Select(s, key, key(s[i])) != []
  {
    if i > 0 {
      SelectNonEmpty(s[1..], key, i - 1);
    }
  }

  /** When `r1`'s first key occurs in `r2`, which is sorted, it is at most
      `r2`'s first key. */
  lemma {:induction false} HeadKeyAtMost<T>(r1: seq<T>, r2: seq<T>, key: T -> int)
    requires r1 != [] && r2 != [] && SortedDesc(r2, key)
    requires Select(r1, key, key(r1[0])) == Select(r2, key, key(r1[0]))
    ensures key(r1[0]) <= key(r2[0])
  {
    SelectHead(r1, key);
    var y := Select(r2, key, key(r1[0]))[0];
    SelectMember(r2, key, key(r1[0]), y);
    var i :| 0 <= i < |r2| && r2[i] == y;
    if i > 0 { assert key(r2[0]) >= key(r2[i]); }
  }

  /** Dropping a common first element keeps every key's elements equal. */
  lemma SelectTails<T>(r1: seq<T>, r2: seq<T>, key: T -> int)
    requires r1 != [] && r2 != [] && r1[0] == r2[0]
    requires forall k :: Select(r1, key, k) == Select(r2, key, k)
    ensures forall k :: Select(r1[1..], key, k) == Select(r2[1..], key, k)
  {
    forall k ensures Select(r1[1..], key, k) == Select(r2[1..], key, k) {
      var h := if key(r1[0]) == k then [r1[0]] else [];
      assert Select(r1, key, k) == h + Select(r1[1..], key, k);
      assert Select(r2, key, k) == h + Select(r2[1..], key, k);
      assert Select(r1[1..], key, k) == Select(r1, key, k)[|h|..];
      assert Select(r2[1..], key, k) == Select(r2, key, k)[|h|..];
    }
  }

  /** Two sequences sorted by descending key that agree on every key's
      elements are equal: a stable sort has only one possible result. */
  lemma {:induction false} StableSortUnique<T>(r1: seq<T>, r2: seq<T>, key: T -> int)
    requires SortedDesc(r1, key) && SortedDesc(r2, key)
    requires forall k :: Select(r1, key, k) == Select(r2, key, k)
    ensures r1 == r2
    decreases |r1|
  {
    if r1 == [] {
      if r2 != [] {
        SelectNonEmpty(r2, key, 0);
      }
    } else if r2 == [] {
      SelectNonEmpty(r1, key, 0);
    } else {
      HeadKeyAtMost(r1, r2, key);
      HeadKeyAtMost(r2, r1, key);
      // both heads lead the elements of the same key, so they coincide
      SelectHead(r1, key);
      SelectHead(r2, key);
      assert r1[0] == Select(r1, key, key(r1[0]))[0] == Select(r2, key, key(r2[0]))[0] == r2[0];
      SelectTails(r1, r2, key);
      StableSortUnique(r1[1..], r2[1..], key);
      assert r1 == [r1[0]] + r1[1..] && r2 == [r2[0]] + r2[1..];
    }
  }

  /** Whatever stable sort produced `r`, it is the insertion sort of `s`. */
  lemma StableSortIsInsertionSort<T>(r: seq<T>, s: seq<T>, key: T -> int)
    requires IsStableSortOf(r, s, key)
    ensures r == InsertionSort(s, key)
  {
    InsertionSortIsStableSort(s, key);
    StableSortUnique(r, InsertionSort(s, key), key);
  }

  /** Ordered by descending key, and by ascending `tie` among equal keys. */
  predicate SortedDescThenAsc<T>(s: seq<T>, key: T -> int, tie: T -> int)
  {
    forall i, j :: 0 <= i < j < |s| ==>
      key(s[i]) > key(s[j]) || (key(s[i]) == key(s[j]) && tie(s[i]) < tie(s[j]))
  }

  predicate StrictlyIncreasing<T>(s: seq<T>, tie: T -> int)
  {
    forall i, j :: 0 <= i < j < |s| ==> tie(s[i]) < tie(s[j])
  }

  lemma AppendTieOrder<T>(u: seq<T>, z: T, key: T -> int, tie: T -> int)
    requires SortedDescThenAsc(u, key, tie)
    requires forall y :: y in u ==> key(y) > key(z) || (key(y) == key(z) && tie(y) < tie(z))
    ensures SortedDescThenAsc(u + [z], key, tie)
  {
    forall i, j | 0 <= i < j < |u + [z]|
      ensures key((u + [z])[i]) > key((u + [z])[j])
           || (key((u + [z])[i]) == key((u + [z])[j]) && tie((u + [z])[i]) < tie((u + [z])[j]))
    {
      if j == |u| {
        assert (u + [z])[i] == u[i] && u[i] in u;
      }
    }
  }

  lemma {:induction false} InsertTieOrder<T>(t: seq<T>, x: T, key: T -> int, tie: T -> int)
    requires SortedDescThenAsc(t, key, tie)
    requires forall y :: y in t ==> tie(y) < tie(x)
    ensures SortedDescThenAsc(Insert(t, x, key), key, tie)
  {
    if t == [] || key(t[|t| - 1]) >= key(x) {
      forall y | y in t
        ensures key(y) > key(x) || (key(y) == key(x) && tie(y) < tie(x))
      {
        var i :| 0 <= i < |t| && t[i] == y;
        if i < |t| - 1 {
          assert key(t[i]) >= key(t[|t| - 1]);
        }
      }
      AppendTieOrder(t, x, key, tie);
    } else {
      var t', last := t[..|t| - 1], t[|t| - 1];
      assert forall y :: y in t' ==> y in t;
      InsertTieOrder(t', x, key, tie);
      var u := Insert(t', x, key);
      InsertMultiset(t', x, key);
      forall y | y in u
        ensures key(y) > key(last) || (key(y) == key(last) && tie(y) < tie(last))
      {
        assert y in multiset(u);
        if y != x {
          assert y in multiset(t');
          var i :| 0 <= i < |t'| && t'[i] == y;
          assert t[i] == y;
        }
      }
      AppendTieOrder(u, last, key, tie);
    }
  }

  /** When the input is strictly increasing in `tie`, stability means that
      equal keys come out in ascending `tie` order. */
  lemma {:induction false} InsertionSortTieOrder<T>(s: seq<T>, key: T -> int, tie: T -> int)
    requires StrictlyIncreasing(s, tie)
    ensures SortedDescThenAsc(InsertionSort(s, key), key, tie)
  {
    if s != [] {
      var s', x := s[..|s| - 1], s[|s| - 1];
      InsertionSortTieOrder(s', key, tie);
      InsertionSortPermutation(s', key);
      forall y | y in InsertionSort(s', key)
        ensures tie(y) < tie(x)
      {
        assert y in multiset(InsertionSort(s', key));
        var i :| 0 <= i < |s'| && s'[i] == y;
      }
      InsertTieOrder(InsertionSort(s', key), x, key, tie);
    }
  }

  lemma {:induction false} InsertDistinct<T>(t: seq<T>, x: T, key: T -> int)
    requires Distinct(t) && x !in t
    ensures Distinct(Insert(t, x, key))
  {
    if !(t == [] || key(t[|t| - 1]) >= key(x)) {
      var t', last := t[..|t| - 1], t[|t| - 1];
      assert t == t' + [last];
      InsertDistinct(t', x, key);
      InsertMultiset(t', x, key);
      var u := Insert(t', x, key);
      assert last !in multiset(u);
      forall i, j | 0 <= i < j < |u + [last]|
        ensures (u + [last])[i] != (u + [last])[j]
      {
        if j == |u| {
          assert (u + [last])[i] == u[i];
          assert u[i] in multiset(u);
        }
      }
    }
  }

  /** Sorting a sequence without repetitions yields one without repetitions. */
  lemma {:induction false} InsertionSortDistinct<T>(s: seq<T>, key: T -> int)
    requires Distinct(s)
    ensures Distinct(InsertionSort(s, key))
  {
    if s != [] {
      var s', x := s[..|s| - 1], s[|s| - 1];
      assert s == s' + [x];
      InsertionSortDistinct(s', key);
      InsertionSortPermutation(s', key);
      assert x !in multiset(s');
      InsertDistinct(InsertionSort(s', key), x, key);
    }
  }

  /** `Insert` places `x` right after the last element whose key is at
      least `x`'s: at position `j` when every element from `j` on has a
      smaller key and the one before `j` (if any) does not. */
  lemma {:induction false} InsertPosition<T>(p: seq<T>, x: T, key: T -> int, j: nat)
    requires j <= |p|
    requires j == 0 || key(p[j - 1]) >= key(x)
    requires forall k :: j <= k < |p| ==> key(p[k]) < key(x)
    ensures Insert(p, x, key) == p[..j] + [x] + p[j..]
    decreases |p|
  {
    if j == |p| {
      assert p[..j] == p && p[j..] == [];
    } else {
      var p', last := p[..|p| - 1], p[|p| - 1];
      assert p'[..j] == p[..j];
      if j > 0 { assert p'[j - 1] == p[j - 1]; }
      InsertPosition(p', x, key, j);
      assert p[j..] == p'[j..] + [last];
    }
  }

  /** One step of insertion sort: `a[i]` moves left past every element of
      the prefix `a[..i]` with a smaller key. */
  method InsertAt<T>(a: array<T>, i: nat, key: T -> int)
    requires i < a.Length
    modifies a
    ensures a[..i + 1] == Insert(old(a[..i]), old(a[i]), key)
    ensures a[i + 1..] == old(a[i + 1..])
  {
    ghost var p := a[..i];
    ghost var tail := a[i + 1..];
    var x := a[i];
    var j := i;
    while 0 < j && key(a[j - 1]) < key(x)
      invariant 0 <= j <= i
      invariant forall k :: 0 <= k < j ==> a[k] == p[k]
      invariant a[j] == x
      invariant forall k :: j < k <= i ==> a[k] == p[k - 1]
      invariant forall k :: i < k < a.Length ==> a[k] == old(a[k])
      invariant forall k :: j <= k < i ==> key(p[k]) < key(x)
    {
      a[j - 1], a[j] := x, a[j - 1];
      j := j - 1;
    }
    InsertPosition(p, x, key, j);
    assert a[..i + 1] == p[..j] + [x] + p[j..];
    assert a[i + 1..] == tail by {
      forall k | 0 <= k < |tail| ensures a[i + 1..][k] == tail[k] {
        assert a[i + 1 + k] == old(a[i + 1 + k]);
      }
    }
  }

  /** An in-place stable insertion sort standing for the engine's
      `Array.prototype.sort`; `StableSortIsInsertionSort` makes the choice
      of algorithm immaterial. */
  method SortInPlace<T>(a: array<T>, key: T -> int)
    modifies a
    ensures a[..] == InsertionSort(old(a[..]), key)
  {
    ghost var s := a[..];
    var i := 0;
    while i < a.Length
      invariant 0 <= i <= a.Length
      invariant a[..i] == InsertionSort(s[..i], key)
      invariant a[i..] == s[i..]
    {
      InsertAt(a, i, key);
      assert s[..i + 1][..i] == s[..i];
      i := i + 1;
    }
    assert a[..] == a[..a.Length] && s == s[..a.Length];
  }

  /** Sorts a freshly built array holding `s` (the array that `filter` or
      `Object.entries` returns) and yields its contents. */
  method SortArrayOf<T>(s: seq<T>, key: T -> int) returns (r: seq<T>)
    ensures r == InsertionSort(s, key)
  {
    var a := new T[|s|](i requires 0 <= i < |s| => s[i]);
    assert a[..] == s;
    SortInPlace(a, key);
    r := a[..];
  }
}
