/**
 * The test bed around the merge: an array whose two halves are each sorted
 * is split into two fresh buffers, which are merged back into it.
 */
module Driver {
  import opened Ordering
  import opened Merging
  import opened ArrayMerge

  /**
   * Copies the halves `a[..m)` and `a[m..)`, where `m` is half the length
   * rounded down, into fresh buffers `L` and `R`, and merges them back into
   * `a` under `<`. The halves must already be sorted; `a` ends up sorted and
   * holding the same elements.
   */
  method MergeHalves(a: array<int>)
    requires Sorted(Less, a[..a.Length / 2]) && Sorted(Less, a[a.Length / 2..])
    modifies a
    ensures a[..] == Merged(Less, old(a[..a.Length / 2]), old(a[a.Length / 2..]))
    ensures Sorted(Less, a[..])
    ensures multiset(a[..]) == old(multiset(a[..]))
  {
    ghost var left, right := a[..a.Length / 2], a[a.Length / 2..];
    var m := a.Length / 2;
    var lSize := m;
    var rSize := a.Length - lSize;
    var L := new int[lSize];
    var R := new int[rSize];
    Copy(a, 0, m, L, 0);
    Copy(a, m, a.Length, R, 0);
    assert L[0..lSize] == left;
    assert R[0..rSize] == right;
    Merge(Less, L, 0, lSize, R, 0, rSize, a, 0);
    assert a[..] == Merged(Less, left, right);
    HalvesMerged(old(a[..]), m, a[..]);
  }

  /** Merging the sorted halves of `s` at `m` gives a sorted permutation of `s`. */
  lemma HalvesMerged(s: seq<int>, m: nat, merged: seq<int>)
    requires m <= |s| && Sorted(Less, s[..m]) && Sorted(Less, s[m..])
    requires merged == Merged(Less, s[..m], s[m..])
    ensures Sorted(Less, merged) && multiset(merged) == multiset(s)
  {
    LessIsStrictWeakOrder();
    MergedSorted(Less, s[..m], s[m..]);
    MergedPermutation(Less, s[..m], s[m..]);
    assert s == s[..m] + s[m..];
  }

  /** `main`'s array once both halves are sorted, merged. */
  method Demo() returns (a: array<int>)
    ensures a[..] == [0, 1, 2, 3, 4, 5, 6, 7, 8, 9, 10]
  {
    a := new int[] [1, 2, 8, 9, 10, 0, 3, 4, 5, 6, 7];
    assert a[..5] == [1, 2, 8, 9, 10] && a[5..] == [0, 3, 4, 5, 6, 7];
    MergeHalves(a);
    DriverExample();
  }

  /** The halves of `main`'s array merge into `0` to `10` in order. */
  lemma DriverExample()
    ensures Merged(Less, [1, 2, 8, 9, 10], [0, 3, 4, 5, 6, 7]) == [0, 1, 2, 3, 4, 5, 6, 7, 8, 9, 10]
  {
    var l, r := [1, 2, 8, 9, 10], [0, 3, 4, 5, 6, 7];
    assert MergeFrom(Less, l, r, 2, 4) == [6, 7, 8, 9, 10];
    assert MergeFrom(Less, l, r, 2, 1) == [3, 4, 5, 6, 7, 8, 9, 10];
    assert MergeFrom(Less, l, r, 0, 1) == [1, 2, 3, 4, 5, 6, 7, 8, 9, 10];
  }

  /** The same merge under `>`: descending inputs give a descending result. */
  lemma DescendingExample()
    ensures Merged((x: int, y: int) => x > y, [9, 5, 1], [8, 2]) == [9, 8, 5, 2, 1]
  {
  }

  /** Compares by tens only, so `12` and `15` are equivalent. */
  const ByTens: Comp := (x: int, y: int) => x / 10 < y / 10

  /** On a tie the element of `R` is written first. */
  lemma TieExample()
    ensures Equivalent(ByTens, 15, 12)
    ensures Merged(ByTens, [15], [12]) == [12, 15]
  {
  }

  /** With `R` unsorted, the element of `L` can come first on a tie: the `3` of `L` precedes the `3` of `R`. */
  lemma UnsortedTieExample()
    ensures !Sorted(Less, [5, 3])
    ensures Merged(Less, [1, 3], [5, 3]) == [1, 3, 5, 3]
    ensures Schedule(Less, [1, 3], [5, 3]) == [Left(0), Left(1), Right(0), Right(1)]
  {
    var s := [5, 3];
    assert Less(s[1], s[0]);
  }
}
