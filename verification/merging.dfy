/**
 * The two-way merge: the sorted ranges `L` and `R` are interleaved into a
 * destination range that starts at a given offset. `MergeFrom` is what the
 * merge writes once its cursors stand at `i` in `L` and `j` in `R`;
 * `ScheduleFrom` says which source cell each written element is copied from.
 * The imperative merge over arrays is proved against `Merged`.
 */
module Merging {
  import opened Ordering

  /**
   * The elements the merge writes from cursor `i` in `l` and cursor `j` in
   * `r` on, in the order it writes them: once `l` is exhausted the rest of
   * `r`; once `r` is exhausted the rest of `l`; otherwise the head of `l`
   * when it must precede the head of `r`, and the head of `r` in every
   * other case, ties included.
   */
  function MergeFrom(comp: Comp, l: seq<int>, r: seq<int>, i: nat, j: nat): (m: seq<int>)
    requires i <= |l| && j <= |r|
    ensures |m| == (|l| - i) + (|r| - j)
    decreases (|l| - i) + (|r| - j)
  {
    if i == |l| then r[j..]
    else if j == |r| then l[i..]
    else if comp(l[i], r[j]) then [l[i]] + MergeFrom(comp, l, r, i + 1, j)
    else [r[j]] + MergeFrom(comp, l, r, i, j + 1)
  }

  /** The whole merge of `l` and `r`. */
  function Merged(comp: Comp, l: seq<int>, r: seq<int>): seq<int> {
    MergeFrom(comp, l, r, 0, 0)
  }

  /** A source cell: offset `i` of `L`, or offset `j` of `R`. */
  datatype Cell = Left(i: nat) | Right(j: nat)

  /** `c` is a cell of `l` at or after `i`, or a cell of `r` at or after `j`. */
  predicate Unread(c: Cell, l: seq<int>, r: seq<int>, i: nat, j: nat) {
    match c
    case Left(x) => i <= x < |l|
    case Right(y) => j <= y < |r|
  }

  /** `c` may be copied before `d`: when both are cells of the same input, `c` is the earlier one. */
  predicate InOrder(c: Cell, d: Cell) {
    match (c, d)
    case (Left(x), Left(y)) => x < y
    case (Right(x), Right(y)) => x < y
    case _ => true
  }

  /** The element stored in cell `c`. */
  function Value(c: Cell, l: seq<int>, r: seq<int>): int
    requires Unread(c, l, r, 0, 0)
  {
    match c
    case Left(x) => l[x]
    case Right(y) => r[y]
  }

  /**
   * The cells the merge copies from, in the order it writes them, from
   * cursors `i` and `j` on. Only unread cells are copied; that each is copied
   * exactly once is `ScheduleCopiesEachCellOnce`.
   */
  function ScheduleFrom(comp: Comp, l: seq<int>, r: seq<int>, i: nat, j: nat): (s: seq<Cell>)
    requires i <= |l| && j <= |r|
    ensures |s| == (|l| - i) + (|r| - j)
    ensures forall k :: 0 <= k < |s| ==> Unread(s[k], l, r, i, j)
    decreases (|l| - i) + (|r| - j)
  {
    if i == |l| then
      seq(|r| - j, k requires 0 <= k < |r| - j => Right(j + k))
    else if j == |r| then
      seq(|l| - i, k requires 0 <= k < |l| - i => Left(i + k))
    else if comp(l[i], r[j]) then
      [Left(i)] + ScheduleFrom(comp, l, r, i + 1, j)
    else
      [Right(j)] + ScheduleFrom(comp, l, r, i, j + 1)
  }

  /** The cells the whole merge copies from, in the order it writes them. */
  function Schedule(comp: Comp, l: seq<int>, r: seq<int>): seq<Cell> {
    ScheduleFrom(comp, l, r, 0, 0)
  }

  /** Each input's cells are copied in increasing order. */
  lemma {:induction false} ScheduleFromInOrder(comp: Comp, l: seq<int>, r: seq<int>, i: nat, j: nat)
    requires i <= |l| && j <= |r|
    ensures forall p, q :: 0 <= p < q < |ScheduleFrom(comp, l, r, i, j)| ==>
      InOrder(ScheduleFrom(comp, l, r, i, j)[p], ScheduleFrom(comp, l, r, i, j)[q])
    decreases (|l| - i) + (|r| - j)
  {
    var s := ScheduleFrom(comp, l, r, i, j);
    if i == |l| || j == |r| {
    } else if comp(l[i], r[j]) {
      ScheduleFromInOrder(comp, l, r, i + 1, j);
      var t := ScheduleFrom(comp, l, r, i + 1, j);
      forall p, q | 0 <= p < q < |s| ensures InOrder(s[p], s[q]) {
        if p == 0 {
          assert Unread(t[q - 1], l, r, i + 1, j);
        } else {
          assert InOrder(t[p - 1], t[q - 1]);
        }
      }
    } else {
      ScheduleFromInOrder(comp, l, r, i, j + 1);
      var t := ScheduleFrom(comp, l, r, i, j + 1);
      forall p, q | 0 <= p < q < |s| ensures InOrder(s[p], s[q]) {
        if p == 0 {
          assert Unread(t[q - 1], l, r, i, j + 1);
        } else {
          assert InOrder(t[p - 1], t[q - 1]);
        }
      }
    }
  }

  /** Every unread cell is copied. */
  lemma {:induction false} ScheduleFromCovers(comp: Comp, l: seq<int>, r: seq<int>, i: nat, j: nat, c: Cell)
    requires i <= |l| && j <= |r| && Unread(c, l, r, i, j)
    ensures c in ScheduleFrom(comp, l, r, i, j)
    decreases (|l| - i) + (|r| - j)
  {
    var s := ScheduleFrom(comp, l, r, i, j);
    if i == |l| {
      assert s[c.j - j] == c;
    } else if j == |r| {
      assert s[c.i - i] == c;
    } else if comp(l[i], r[j]) {
      if c != Left(i) {
        ScheduleFromCovers(comp, l, r, i + 1, j, c);
      }
      assert s == [Left(i)] + ScheduleFrom(comp, l, r, i + 1, j);
    } else {
      if c != Right(j) {
        ScheduleFromCovers(comp, l, r, i, j + 1, c);
      }
      assert s == [Right(j)] + ScheduleFrom(comp, l, r, i, j + 1);
    }
  }

  /**
   * The schedule copies every cell of `l` and `r` exactly once, and the cells
   * of each input in their original order.
   */
  lemma ScheduleCopiesEachCellOnce(comp: Comp, l: seq<int>, r: seq<int>)
    ensures forall c :: c in Schedule(comp, l, r) <==> Unread(c, l, r, 0, 0)
    ensures forall p, q :: 0 <= p < q < |Schedule(comp, l, r)| ==>
      Schedule(comp, l, r)[p] != Schedule(comp, l, r)[q] && InOrder(Schedule(comp, l, r)[p], Schedule(comp, l, r)[q])
  {
    ScheduleFromInOrder(comp, l, r, 0, 0);
    forall c | Unread(c, l, r, 0, 0) ensures c in Schedule(comp, l, r) {
      ScheduleFromCovers(comp, l, r, 0, 0, c);
    }
  }

  /** The k-th element written is the value of the k-th cell of the schedule. */
  lemma {:induction false} ScheduleYieldsFrom(comp: Comp, l: seq<int>, r: seq<int>, i: nat, j: nat)
    requires i <= |l| && j <= |r|
    ensures forall k :: 0 <= k < |MergeFrom(comp, l, r, i, j)| ==>
      MergeFrom(comp, l, r, i, j)[k] == Value(ScheduleFrom(comp, l, r, i, j)[k], l, r)
    decreases (|l| - i) + (|r| - j)
  {
    if i == |l| || j == |r| {
    } else if comp(l[i], r[j]) {
      ScheduleYieldsFrom(comp, l, r, i + 1, j);
    } else {
      ScheduleYieldsFrom(comp, l, r, i, j + 1);
    }
  }

  /** The whole merge has `|l| + |r|` elements, the k-th copied from the k-th cell of the schedule. */
  lemma ScheduleYields(comp: Comp, l: seq<int>, r: seq<int>)
    ensures |Merged(comp, l, r)| == |Schedule(comp, l, r)| == |l| + |r|
    ensures forall k :: 0 <= k < |l| + |r| ==>
      Merged(comp, l, r)[k] == Value(Schedule(comp, l, r)[k], l, r)
  {
    ScheduleYieldsFrom(comp, l, r, 0, 0);
  }

  lemma DropFirst(s: seq<int>, i: nat)
    requires i < |s|
    ensures multiset(s[i..]) == multiset{s[i]} + multiset(s[i + 1..])
  {
    assert s[i..] == [s[i]] + s[i + 1..];
  }

  /** Nothing is lost or duplicated: what is written is a permutation of what is unread. */
  lemma {:induction false} MergeFromPermutation(comp: Comp, l: seq<int>, r: seq<int>, i: nat, j: nat)
    requires i <= |l| && j <= |r|
    ensures multiset(MergeFrom(comp, l, r, i, j)) == multiset(l[i..]) + multiset(r[j..])
    decreases (|l| - i) + (|r| - j)
  {
    if i == |l| {
      assert l[i..] == [];
    } else if j == |r| {
      assert r[j..] == [];
    } else if comp(l[i], r[j]) {
      MergeFromPermutation(comp, l, r, i + 1, j);
      DropFirst(l, i);
      assert MergeFrom(comp, l, r, i, j) == [l[i]] + MergeFrom(comp, l, r, i + 1, j);
    } else {
      MergeFromPermutation(comp, l, r, i, j + 1);
      DropFirst(r, j);
      assert MergeFrom(comp, l, r, i, j) == [r[j]] + MergeFrom(comp, l, r, i, j + 1);
    }
  }

  /** The merge is a permutation of `l ++ r`. */
  lemma MergedPermutation(comp: Comp, l: seq<int>, r: seq<int>)
    ensures multiset(Merged(comp, l, r)) == multiset(l) + multiset(r)
  {
    MergeFromPermutation(comp, l, r, 0, 0);
    assert l[0..] == l && r[0..] == r;
  }

  /** A bound that no unread element falls below holds of every element written. */
  lemma {:induction false} MergeFromAbove(comp: Comp, l: seq<int>, r: seq<int>, i: nat, j: nat, b: int)
    requires i <= |l| && j <= |r|
    requires forall k :: i <= k < |l| ==> !comp(l[k], b)
    requires forall k :: j <= k < |r| ==> !comp(r[k], b)
    ensures forall k :: 0 <= k < |MergeFrom(comp, l, r, i, j)| ==> !comp(MergeFrom(comp, l, r, i, j)[k], b)
    decreases (|l| - i) + (|r| - j)
  {
    if i == |l| || j == |r| {
    } else if comp(l[i], r[j]) {
      MergeFromAbove(comp, l, r, i + 1, j, b);
    } else {
      MergeFromAbove(comp, l, r, i, j + 1, b);
    }
  }

  /** From any pair of cursors on, sorted inputs are written in sorted order. */
  lemma {:induction false} MergeFromSorted(comp: Comp, l: seq<int>, r: seq<int>, i: nat, j: nat)
    requires i <= |l| && j <= |r|
    requires StrictWeakOrder(comp) && Sorted(comp, l) && Sorted(comp, r)
    ensures Sorted(comp, MergeFrom(comp, l, r, i, j))
    decreases (|l| - i) + (|r| - j)
  {
    if i == |l| || j == |r| {
    } else if comp(l[i], r[j]) {
      MergeFromSorted(comp, l, r, i + 1, j);
      forall k | j <= k < |r| ensures !comp(r[k], l[i]) {
        if k > j {
          assert !comp(r[k], r[j]);
        } else {
          Irreflexivity(comp, r[j]);
        }
        PrecedesThenNotBelow(comp, l[i], r[j], r[k]);
      }
      MergeFromAbove(comp, l, r, i + 1, j, l[i]);
    } else {
      MergeFromSorted(comp, l, r, i, j + 1);
      forall k | i <= k < |l| ensures !comp(l[k], r[j]) {
        if k > i {
          assert !comp(l[k], l[i]);
        } else {
          Irreflexivity(comp, l[i]);
        }
        if comp(l[k], r[j]) {
          NotAboveThenPrecedes(comp, l[k], r[j], l[i]);
        }
      }
      MergeFromAbove(comp, l, r, i, j + 1, r[j]);
    }
  }

  /** If `L` and `R` are sorted under a strict weak ordering, so is their merge. */
  lemma MergedSorted(comp: Comp, l: seq<int>, r: seq<int>)
    requires StrictWeakOrder(comp) && Sorted(comp, l) && Sorted(comp, r)
    ensures Sorted(comp, Merged(comp, l, r))
  {
    MergeFromSorted(comp, l, r, 0, 0);
  }

  /** `WriteOrder` for the cells unread at cursors `ci` and `cj`. */
  lemma {:induction false} WriteOrderFrom(comp: Comp, l: seq<int>, r: seq<int>, ci: nat, cj: nat,
                                          i: nat, j: nat, p: nat, q: nat)
    requires ci <= |l| && cj <= |r|
    requires StrictWeakOrder(comp) && Sorted(comp, l) && Sorted(comp, r)
    requires i < |l| && j < |r|
    requires p < |ScheduleFrom(comp, l, r, ci, cj)| && ScheduleFrom(comp, l, r, ci, cj)[p] == Right(j)
    requires q < |ScheduleFrom(comp, l, r, ci, cj)| && ScheduleFrom(comp, l, r, ci, cj)[q] == Left(i)
    ensures q < p <==> comp(l[i], r[j])
    decreases (|l| - ci) + (|r| - cj)
  {
    var s := ScheduleFrom(comp, l, r, ci, cj);
    assert Unread(s[p], l, r, ci, cj) && Unread(s[q], l, r, ci, cj);
    if comp(l[ci], r[cj]) {
      if q == 0 {
        if j > cj {
          assert !comp(r[j], r[cj]);
        } else {
          Irreflexivity(comp, r[j]);
        }
        PrecedesThenNotBelow(comp, l[ci], r[cj], r[j]);
      } else {
        WriteOrderFrom(comp, l, r, ci + 1, cj, i, j, p - 1, q - 1);
      }
    } else {
      if p == 0 {
        if i > ci {
          assert !comp(l[i], l[ci]);
        } else {
          Irreflexivity(comp, l[i]);
        }
        if comp(l[i], r[j]) {
          NotAboveThenPrecedes(comp, l[i], r[j], l[ci]);
        }
      } else {
        WriteOrderFrom(comp, l, r, ci, cj + 1, i, j, p - 1, q - 1);
      }
    }
  }

  /**
   * Where cell `i` of `L` and cell `j` of `R` are written relative to each
   * other: `L`'s element comes first exactly when it must precede `R`'s.
   * So on a tie `R`'s element is written first.
   */
  lemma WriteOrder(comp: Comp, l: seq<int>, r: seq<int>, i: nat, j: nat, p: nat, q: nat)
    requires StrictWeakOrder(comp) && Sorted(comp, l) && Sorted(comp, r)
    requires i < |l| && j < |r|
    requires p < |Schedule(comp, l, r)| && Schedule(comp, l, r)[p] == Right(j)
    requires q < |Schedule(comp, l, r)| && Schedule(comp, l, r)[q] == Left(i)
    ensures q < p <==> comp(l[i], r[j])
    ensures Equivalent(comp, l[i], r[j]) ==> p < q
  {
    WriteOrderFrom(comp, l, r, 0, 0, i, j, p, q);
  }

  /** With `L` empty, the merge is the tail copy of `R`. */
  lemma MergedLeftEmpty(comp: Comp, r: seq<int>)
    ensures Merged(comp, [], r) == r
  {
  }

  /** With `R` empty, the merge is the early copy of `L`. */
  lemma MergedRightEmpty(comp: Comp, l: seq<int>)
    ensures Merged(comp, l, []) == l
  {
  }
}
