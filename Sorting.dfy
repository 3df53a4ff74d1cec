/** The stable sort that `Array.prototype.sort` performs when it is given a
    comparator that compares one real-valued key with `<` and `>` and answers
    0 on ties. The result of a stable sort is determined by the key alone, so
    it is specified here by a stable insertion sort on sequences, and the
    in-place array version used by the callers is proved equal to it. */
module Sorting {

  /** Non-decreasing by `key`. */
  ghost predicate SortedBy<T>(s: seq<T>, key: T -> real)
  {
    forall i, j :: 0 <= i < j < |s| ==> key(s[i]) <= key(s[j])
  }

  /** The elements of `s` whose key is `v`, in their order in `s`. Two
      sequences that agree on this for every `v` list equal-keyed elements in
      the same relative order. */
  function KeyedAs<T>(s: seq<T>, key: T -> real, v: real): seq<T>
  {
    if s == [] then []
    else KeyedAs(s[..|s| - 1], key, v) + (if key(s[|s| - 1]) == v then [s[|s| - 1]] else [])
  }

  /** Inserts `x` after every element of `s` whose key is not above `x`'s
      (scanning from the right, as the swap loop of SortInPlace does). */
  function Insert<T>(s: seq<T>, x: T, key: T -> real): (r: seq<T>)
    ensures |r| == |s| + 1
  {
    if s == [] || key(s[|s| - 1]) <= key(x) then s + [x]
    else Insert(s[..|s| - 1], x, key) + [s[|s| - 1]]
  }

  /** Stable insertion sort, inserting the elements left to right. */
  function SortByKey<T>(s: seq<T>, key: T -> real): (r: seq<T>)
    ensures |r| == |s|
  {
    if s == [] then [] else Insert(SortByKey(s[..|s| - 1], key), s[|s| - 1], key)
  }

  lemma {:induction false} KeyedAsConcat<T>(a: seq<T>, b: seq<T>, key: T -> real, v: real)
    ensures KeyedAs(a + b, key, v) == KeyedAs(a, key, v) + KeyedAs(b, key, v)
    decreases |b|
  {
    if b == [] {
      assert a + b == a;
    } else {
      assert (a + b)[..|a + b| - 1] == a + b[..|b| - 1];
      KeyedAsConcat(a, b[..|b| - 1], key, v);
    }
  }

  lemma {:induction false} InsertPermutes<T>(s: seq<T>, x: T, key: T -> real)
    ensures |Insert(s, x, key)| == |s| + 1
    ensures multiset(Insert(s, x, key)) == multiset(s) + multiset{x}
    decreases |s|
  {
    if s == [] || key(s[|s| - 1]) <= key(x) {
    } else {
      var init, last := s[..|s| - 1], s[|s| - 1];
      assert s == init + [last];
      InsertPermutes(init, x, key);
    }
  }

  lemma {:induction false} InsertKeepsSorted<T>(s: seq<T>, x: T, key: T -> real)
    requires SortedBy(s, key)
    ensures SortedBy(Insert(s, x, key), key)
    decreases |s|
  {
    if s == [] || key(s[|s| - 1]) <= key(x) {
    } else {
      var init, last := s[..|s| - 1], s[|s| - 1];
      InsertKeepsSorted(init, x, key);
      InsertPermutes(init, x, key);
      var r := Insert(init, x, key);
      forall k | 0 <= k < |r| ensures key(r[k]) <= key(last) {
        assert r[k] in multiset(r);
        assert r[k] in multiset(init) + multiset{x};
        if r[k] != x {
          assert r[k] in multiset(init);
          var i :| 0 <= i < |init| && init[i] == r[k];
          assert s[i] == init[i];
        }
      }
    }
  }

  lemma {:induction false} InsertIsStable<T>(s: seq<T>, x: T, key: T -> real, v: real)
    ensures KeyedAs(Insert(s, x, key), key, v)
         == KeyedAs(s, key, v) + (if key(x) == v then [x] else [])
    decreases |s|
  {
    if s == [] || key(s[|s| - 1]) <= key(x) {
      KeyedAsConcat(s, [x], key, v);
      assert KeyedAs([x], key, v) == KeyedAs([], key, v) + (if key(x) == v then [x] else []) by {
        assert [x][..0] == [];
      }
    } else {
      var init, last := s[..|s| - 1], s[|s| - 1];
      InsertIsStable(init, x, key, v);
      KeyedAsConcat(Insert(init, x, key), [last], key, v);
      assert [last][..0] == [];
      assert s == init + [last];
      KeyedAsConcat(init, [last], key, v);
    }
  }

  /** SortByKey orders by key, permutes its input and keeps the input order
      of elements with equal keys. */
  lemma {:induction false} SortByKeyIsStableSort<T>(s: seq<T>, key: T -> real)
    ensures SortedBy(SortByKey(s, key), key)
    ensures multiset(SortByKey(s, key)) == multiset(s)
    ensures |SortByKey(s, key)| == |s|
    ensures forall v :: KeyedAs(SortByKey(s, key), key, v) == KeyedAs(s, key, v)
    decreases |s|
  {
    if s != [] {
      var init, last := s[..|s| - 1], s[|s| - 1];
      assert s == init + [last];
      SortByKeyIsStableSort(init, key);
      InsertKeepsSorted(SortByKey(init, key), last, key);
      InsertPermutes(SortByKey(init, key), last, key);
      forall v ensures KeyedAs(SortByKey(s, key), key, v) == KeyedAs(s, key, v) {
        InsertIsStable(SortByKey(init, key), last, key, v);
      }
    }
  }

  /** Sorting a sequence that is already in order leaves it as it is. */
  lemma {:induction false} SortOfSorted<T>(s: seq<T>, key: T -> real)
    requires SortedBy(s, key)
    ensures SortByKey(s, key) == s
  {
    if s != [] {
      var init := s[..|s| - 1];
      assert SortedBy(init, key) by {
        forall i, j | 0 <= i < j < |init| ensures key(init[i]) <= key(init[j]) {
          assert init[i] == s[i] && init[j] == s[j];
        }
      }
      SortOfSorted(init, key);
      if init != [] {
        assert key(init[|init| - 1]) <= key(s[|s| - 1]);
      }
      assert init + [s[|s| - 1]] == s;
    }
  }

  /** A prefix of length `k` of the stable sort: ordered, drawn from the
      input, per key a prefix of the input's elements with that key, and no
      element left out has a smaller key than an element kept. */
  lemma SortedPrefix<T>(s: seq<T>, key: T -> real, k: nat)
    requires k <= |s|
    ensures SortedBy(SortByKey(s, key)[..k], key)
    ensures multiset(SortByKey(s, key)[..k]) <= multiset(s)
    ensures forall v :: KeyedAs(SortByKey(s, key)[..k], key, v) <= KeyedAs(s, key, v)
    ensures forall x, i :: x in multiset(s) - multiset(SortByKey(s, key)[..k]) && 0 <= i < k ==>
              key(SortByKey(s, key)[i]) <= key(x)
  {
    var sorted := SortByKey(s, key);
    SortByKeyIsStableSort(s, key);
    PrefixOfSorted(sorted, key, k);
    CutIsNoSmaller(sorted, key, k);
  }

  /** A prefix of a sorted sequence is sorted, is drawn from it, and lists
      per key a prefix of its elements with that key. */
  lemma PrefixOfSorted<T>(sorted: seq<T>, key: T -> real, k: nat)
    requires k <= |sorted| && SortedBy(sorted, key)
    ensures SortedBy(sorted[..k], key)
    ensures multiset(sorted[..k]) <= multiset(sorted)
    ensures forall v :: KeyedAs(sorted[..k], key, v) <= KeyedAs(sorted, key, v)
  {
    var top, rest := sorted[..k], sorted[k..];
    assert sorted == top + rest;
    assert SortedBy(top, key) by {
      forall i, j | 0 <= i < j < |top| ensures key(top[i]) <= key(top[j]) {
        assert top[i] == sorted[i] && top[j] == sorted[j];
      }
    }
    assert multiset(sorted) == multiset(top) + multiset(rest);
    forall v ensures KeyedAs(top, key, v) <= KeyedAs(sorted, key, v) {
      KeyedAsConcat(top, rest, key, v);
    }
  }

  lemma CutIsNoSmaller<T>(sorted: seq<T>, key: T -> real, k: nat)
    requires k <= |sorted| && SortedBy(sorted, key)
    ensures forall x, i :: x in multiset(sorted) - multiset(sorted[..k]) && 0 <= i < k ==>
              key(sorted[i]) <= key(x)
  {
    var top, rest := sorted[..k], sorted[k..];
    assert sorted == top + rest;
    assert multiset(sorted) - multiset(top) == multiset(rest);
    forall x, i | x in multiset(rest) && 0 <= i < k
      ensures key(sorted[i]) <= key(x)
    {
      var j :| 0 <= j < |rest| && rest[j] == x;
      assert sorted[k + j] == x;
    }
  }

  /** Insert places `x` at position `p` when every element from `p` on has
      a larger key and the element before `p`, if any, does not. */
  lemma {:induction false} InsertAt<T>(s: seq<T>, x: T, key: T -> real, p: nat)
    requires p <= |s| && (p == 0 || key(s[p - 1]) <= key(x))
    requires forall i :: p <= i < |s| ==> key(s[i]) > key(x)
    ensures Insert(s, x, key) == s[..p] + [x] + s[p..]
    decreases |s| - p
  {
    if p == |s| {
      assert s[..p] == s;
    } else {
      var init := s[..|s| - 1];
      assert forall i :: p <= i < |init| ==> init[i] == s[i];
      assert p == 0 || init[p - 1] == s[p - 1];
      InsertAt(init, x, key, p);
      assert init[..p] == s[..p];
      assert s[p..] == init[p..] + [s[|s| - 1]];
    }
  }

  /** One step of SortByKey over a prefix: the next element goes to the
      position InsertAt describes. */
  lemma SortStep<T>(s: seq<T>, key: T -> real, k: nat, sorted: seq<T>, p: nat)
    requires k < |s| && SortByKey(s[..k], key) == sorted
    requires p <= k && (p == 0 || key(sorted[p - 1]) <= key(s[k]))
    requires forall i :: p <= i < k ==> key(sorted[i]) > key(s[k])
    ensures SortByKey(s[..k + 1], key) == sorted[..p] + [s[k]] + sorted[p..]
  {
    assert s[..k + 1][..k] == s[..k];
    InsertAt(sorted, s[k], key, p);
  }

  /** Insertion sort of `a`, in place, by adjacent swaps. */
  method SortInPlace<T>(a: array<T>, key: T -> real)
    modifies a
    ensures a[..] == SortByKey(old(a[..]), key)
  {
    ghost var input := a[..];
    for i := 0 to a.Length
      invariant a[..i] == SortByKey(input[..i], key)
      invariant a[i..] == input[i..]
    {
      assert input[..i + 1][..i] == input[..i];
      assert input[i] == a[i];
      InsertLast(a, i, key);
      assert a[i + 1..] == input[i + 1..];
    }
    assert input[..a.Length] == input;
  }

  /** Moves `a[i]` leftwards past the elements of the sorted prefix `a[..i]`
      whose key is above its own. */
  method InsertLast<T>(a: array<T>, i: nat, key: T -> real)
    requires i < a.Length
    modifies a
    ensures a[..i + 1] == Insert(old(a[..i]), old(a[i]), key)
    ensures a[i + 1..] == old(a[i + 1..])
  {
    ghost var sorted := a[..i];
    var x := a[i];
    var j := i;
    while j > 0 && key(a[j - 1]) > key(x)
      invariant 0 <= j <= i
      invariant a[j] == x
      invariant Insert(a[..j], x, key) + a[j + 1..i + 1] == Insert(sorted, x, key)
      invariant a[i + 1..] == old(a[i + 1..])
    {
      ghost var before := a[..];
      SwapStep(before, j, i, x, key);
      a[j - 1], a[j] := a[j], a[j - 1];
      assert a[..j - 1] == before[..j - 1];
      assert a[j..i + 1] == [before[j - 1]] + before[j + 1..i + 1];
      assert a[i + 1..] == before[i + 1..];
      j := j - 1;
    }
    assert a[..i + 1] == a[..j] + [x] + a[j + 1..i + 1];
  }

  lemma SwapStep<T>(s: seq<T>, j: nat, i: nat, x: T, key: T -> real)
    requires 0 < j <= i < |s| && key(s[j - 1]) > key(x)
    ensures Insert(s[..j], x, key) + s[j + 1..i + 1]
         == Insert(s[..j - 1], x, key) + ([s[j - 1]] + s[j + 1..i + 1])
  {
    assert s[..j][..j - 1] == s[..j - 1];
  }
}
