/** The in-place merge over arrays, proved against `Merged`. */
module ArrayMerge {
  import opened Ordering
  import opened Merging

  /** One step of the loop: the next element written, and what remains after it. */
  lemma Advance(comp: Comp, l: seq<int>, r: seq<int>, i: nat, j: nat, m: seq<int>, k: nat)
    requires i < |l| && j < |r| && k <= |m|
    requires m[k..] == MergeFrom(comp, l, r, i, j)
    ensures k < |m|
    ensures comp(l[i], r[j]) ==> m[k] == l[i] && m[k + 1..] == MergeFrom(comp, l, r, i + 1, j)
    ensures !comp(l[i], r[j]) ==> m[k] == r[j] && m[k + 1..] == MergeFrom(comp, l, r, i, j + 1)
  {
  }

  /** Once `L` is exhausted the rest of the merge is the rest of `R`, read off `r` in place. */
  lemma RightTail(comp: Comp, L: seq<int>, r: array<int>, rFirst: nat, rCur: nat, rLast: nat, m: seq<int>, k: nat)
    requires rFirst <= rCur <= rLast <= r.Length && k <= |m|
    requires m[k..] == MergeFrom(comp, L, r[rFirst..rLast], |L|, rCur - rFirst)
    ensures |m| == k + (rLast - rCur)
    ensures forall q :: k <= q < |m| ==> m[q] == r[rCur + (q - k)]
  {
  }

  /** Once `R` is exhausted the rest of the merge is the rest of `L`, read off `l` in place. */
  lemma LeftTail(comp: Comp, l: array<int>, lFirst: nat, lCur: nat, lLast: nat, R: seq<int>, m: seq<int>, k: nat)
    requires lFirst <= lCur <= lLast <= l.Length && k <= |m|
    requires m[k..] == MergeFrom(comp, l[lFirst..lLast], R, lCur - lFirst, |R|)
    ensures |m| == k + (lLast - lCur)
    ensures forall q :: k <= q < |m| ==> m[q] == l[lCur + (q - k)]
  {
  }

  /** `std::copy` of `src[first..last)` into `dst` from offset `at`; nothing else of `dst` changes. */
  method Copy(src: array<int>, first: nat, last: nat, dst: array<int>, at: nat)
    requires first <= last <= src.Length
    requires at + (last - first) <= dst.Length
    requires src != dst
    modifies dst
    ensures forall p :: 0 <= p < dst.Length ==>
      dst[p] == if at <= p < at + (last - first) then src[first + (p - at)] else old(dst[p])
  {
    var k := 0;
    while k < last - first
      invariant 0 <= k <= last - first
      invariant forall p :: 0 <= p < dst.Length ==>
        dst[p] == if at <= p < at + k then src[first + (p - at)] else old(dst[p])
    {
      dst[at + k] := src[first + k];
      k := k + 1;
    }
  }

  /**
   * Merges `l[lFirst..lLast)` and `r[rFirst..rLast)` into `a` from offset
   * `aFirst`: the `|L| + |R|` cells from there receive `Merged(comp, L, R)`
   * and every other cell of `a` keeps its value. The destination is a
   * different array from both sources, which are only read.
   */
  method Merge(comp: Comp, l: array<int>, lFirst: nat, lLast: nat,
               r: array<int>, rFirst: nat, rLast: nat,
               a: array<int>, aFirst: nat)
    requires lFirst <= lLast <= l.Length && rFirst <= rLast <= r.Length
    requires aFirst + (lLast - lFirst) + (rLast - rFirst) <= a.Length
    requires a != l && a != r
    modifies a
    ensures forall p :: 0 <= p < (lLast - lFirst) + (rLast - rFirst) ==>
      a[aFirst + p] == Merged(comp, old(l[lFirst..lLast]), old(r[rFirst..rLast]))[p]
    ensures forall p :: 0 <= p < a.Length && !(aFirst <= p < aFirst + (lLast - lFirst) + (rLast - rFirst)) ==>
      a[p] == old(a[p])
    ensures unchanged(l) && unchanged(r)
  {
    ghost var L, R := l[lFirst..lLast], r[rFirst..rLast];
    ghost var M := Merged(comp, L, R);
    // i, j and k are the distances the three cursors have advanced.
    ghost var i, j, k := 0, 0, 0;
    var lCur, rCur, aCur := lFirst, rFirst, aFirst;
    while lCur != lLast
      invariant lCur == lFirst + i <= lLast && rCur == rFirst + j <= rLast
      invariant aCur == aFirst + k && k == i + j
      invariant unchanged(l) && unchanged(r)
      invariant M[k..] == MergeFrom(comp, L, R, i, j)
      invariant forall p :: 0 <= p < a.Length ==> a[p] == if aFirst <= p < aCur then M[p - aFirst] else old(a[p])
      decreases (lLast - lCur) + (rLast - rCur)
    {
      if rCur == rLast {
        Copy(l, lCur, lLast, a, aCur);
        LeftTail(comp, l, lFirst, lCur, lLast, R, M, k);
        return;
      } else {
        Advance(comp, L, R, i, j, M, k);
        assert l[lCur] == L[i] && r[rCur] == R[j];
        var x;
        if comp(l[lCur], r[rCur]) {
          x := l[lCur];
          lCur, i := lCur + 1, i + 1;
        } else {
          x := r[rCur];
          rCur, j := rCur + 1, j + 1;
        }
        a[aCur] := x;
        aCur, k := aCur + 1, k + 1;
      }
    }
    Copy(r, rCur, rLast, a, aCur);
    RightTail(comp, L, r, rFirst, rCur, rLast, M, k);
  }
}
