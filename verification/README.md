# Two-way merge of sorted ranges

This project models the `merge` primitive of a small C++ merge/mergesort
test bed, `driver_merge_students.cpp`, together with the driver in `main`
that uses it. `merge` receives two half-open ranges `L = [l_first, l_last)`
and `R = [r_first, r_last)`, each sorted under a comparison `comp` (by
default `std::less<int>`), and writes them interleaved into a destination
range that starts at `a_first`. It has three cursors. While `L` is not
exhausted, it either bulk-copies the rest of `L` and returns once `R` is
exhausted, or writes the head of `L` when `comp(*l_first, *r_first)` holds
and the head of `R` otherwise. When `L` runs out, it bulk-copies the rest of `R`.

The model is organised in four modules:

- `Ordering` (`ordering.dfy`) holds the comparison type and the strict weak ordering requirement. It also defines sortedness: no later element must precede an earlier one.
- `Merging` (`merging.dfy`) is the pure specification.
  - `MergeFrom` is what the merge writes once its cursors stand at `i` and `j`.
  - `Merged` is the whole merge.
  - `ScheduleFrom` / `Schedule` record which source cell each written element comes from.
  - Lemmas prove the output is a permutation of `L ++ R`, that it is sorted, how elements of `L` and `R` are ordered relative to each other, and the empty-input cases.
- `ArrayMerge` (`array_merge.dfy`) holds the imperative merge over arrays and the `std::copy` it calls. They are proved against `Merged`. The cursors are indices into the arrays.
- `Driver` (`driver.dfy`) is `main`'s split / copy / merge step and its concrete vector.

Ties follow the code. A stable merge would write the element of `L` first
on a tie. This code tests `comp(*l_first, *r_first)` (line 51), which is
false on a tie, so it writes the element of `R` first. `MergeFrom` does the
same. For inputs sorted under a strict weak ordering, `WriteOrder` proves
that an element of `R` is written before an equivalent element of `L`, and
`TieExample` shows a concrete case. For unsorted inputs this does not hold:
`UnsortedTieExample` shows an element of `L` written before an equal element
of `R`.

## Model

| member | source | states |
|---|---|---|
| Ordering.LessIsStrictWeakOrder | driver_merge_students.cpp:44 | the default comparison `std::less<int>` is a strict weak ordering, so it meets the merge's requirement |
| Merging.MergeFrom | driver_merge_students.cpp:46-55 | from cursors `i`, `j` the merge writes `(|L|-i)+(|R|-j)` elements, one per unread cell |
| Merging.ScheduleFrom | driver_merge_students.cpp:46-55 | every cell the merge copies from cursors `i`, `j` on is one not yet read, and there are as many as unread cells |
| Merging.ScheduleFromInOrder | driver_merge_students.cpp:46-55 | from any cursors on, the cells of each input are copied in increasing order |
| Merging.ScheduleFromCovers | driver_merge_students.cpp:46-55 | every cell unread at cursors `i`, `j` is copied |
| Merging.ScheduleCopiesEachCellOnce | driver_merge_students.cpp:46-55 | every cell of `L` and `R`, and no other, is copied exactly once, and each input's cells in their original order |
| Merging.ScheduleYieldsFrom | driver_merge_students.cpp:48-55 | the k-th element written from cursors `i`, `j` is the value of the k-th cell copied |
| Merging.ScheduleYields | driver_merge_students.cpp:46-55 | the merge writes exactly `|L|+|R|` elements, the k-th being the value of the k-th cell copied |
| Merging.MergeFromPermutation | driver_merge_students.cpp:46-55 | from cursors `i`, `j` the multiset written equals the multiset of the unread elements |
| Merging.MergedPermutation | driver_merge_students.cpp:46-55 | the merge's output is a permutation of `L ++ R`: nothing is lost or duplicated |
| Merging.MergeFromAbove | driver_merge_students.cpp:46-55 | an element that no unread element must precede is preceded by no element written |
| Merging.MergeFromSorted | driver_merge_students.cpp:29-40 | from any cursors on, sorted inputs under a strict weak ordering are written in sorted order |
| Merging.MergedSorted | driver_merge_students.cpp:29-40 | if `L` and `R` are sorted under a strict weak ordering `comp`, the merge is sorted under `comp` |
| Merging.WriteOrderFrom | driver_merge_students.cpp:51 | for inputs sorted under a strict weak ordering, and cells unread at cursors `ci`, `cj`, cell `i` of `L` is copied before cell `j` of `R` exactly when `comp(L[i], R[j])` |
| Merging.WriteOrder | driver_merge_students.cpp:51 | for inputs sorted under a strict weak ordering, `L[i]` is written before `R[j]` if and only if `comp(L[i], R[j])`; on a tie `R[j]` is written first |
| Merging.MergedLeftEmpty | driver_merge_students.cpp:46-55 | with `L` empty the output is exactly `R`, through the tail copy |
| Merging.MergedRightEmpty | driver_merge_students.cpp:47-49 | with `R` empty the output is exactly `L`, through the early-return copy |
| ArrayMerge.Advance | driver_merge_students.cpp:51 | proof step of `ArrayMerge.Merge`'s loop, one case of `MergeFrom`: one iteration writes the head of `L` when `comp` says it precedes the head of `R`, otherwise the head of `R`, and advances only that cursor |
| ArrayMerge.LeftTail | driver_merge_students.cpp:47-48 | proof step of `ArrayMerge.Merge`, one case of `MergeFrom`: once `R` is exhausted, the rest of the merge is the rest of `L`, read in place |
| ArrayMerge.RightTail | driver_merge_students.cpp:55 | proof step of `ArrayMerge.Merge`, one case of `MergeFrom`: once `L` is exhausted, the rest of the merge is the rest of `R`, read in place |
| ArrayMerge.Copy | driver_merge_students.cpp:48-55 | `std::copy` of `src[first..last)` puts `src[first + (p - at)]` in each cell `p` of `dst` from `at` on, and leaves every other cell of `dst` alone |
| ArrayMerge.Merge | driver_merge_students.cpp:42-56 | writes `Merged(comp, L, R)` into the `|L|+|R|` cells of `a` from `aFirst` on, leaves every other cell of `a` unchanged, and does not modify `L` or `R`; each iteration writes one cell and advances one source cursor, so the loop terminates |
| Driver.MergeHalves | driver_merge_students.cpp:70-95 | with both halves sorted, copying them into fresh buffers and merging back leaves `a` holding the merge of the halves, sorted and a permutation of the original |
| Driver.HalvesMerged | driver_merge_students.cpp:75-95 | merging the two sorted halves of an array under `<` gives a sorted permutation of the whole array |
| Driver.Demo | driver_merge_students.cpp:64-95 | `main`'s array, once both halves are sorted (`[1,2,8,9,10]` and `[0,3,4,5,6,7]`), ends as `[0,1,...,10]` |
| Driver.DriverExample | driver_merge_students.cpp:64-95 | merging `[1,2,8,9,10]` with `[0,3,4,5,6,7]` under `<` yields `[0,1,...,10]` |
| Driver.DescendingExample | driver_merge_students.cpp:40-44 | a caller-supplied comparison `>` merges descending inputs into a descending output |
| Driver.TieExample | driver_merge_students.cpp:51 | under a comparison for which `15` and `12` are equivalent, merging `[15]` with `[12]` writes `12` first |
| Driver.UnsortedTieExample | driver_merge_students.cpp:46-55 | with the unsorted input `[5, 3]` as `R`, merging `[1, 3]` under `<` writes the `3` of `L` before the equal `3` of `R`, so the tie rule needs sorted inputs |

## Left out

- `print` (driver_merge_students.cpp:21-26) is console output with no algorithmic content.
- `std::sort` of each half (driver_merge_students.cpp:75-76) is a library call. Its effect is the sortedness precondition of `Driver.MergeHalves`. `Driver.Demo` starts from the array as it stands after both sorts.
- `new[]`/`delete[]` of the buffers (driver_merge_students.cpp:87-88, 98-99) are memory management. Fresh Dafny arrays stand for the buffers, and release is not modelled.
- Pointer aliasing: the destination is a separate array from both sources (`a != l && a != r`). Ranges of one array, overlapping or not, are not modelled.
- Pointer arithmetic becomes array indices: each range is an array plus `[first, last)` indices.
- `std::copy`'s returned iterator is ignored by the code and is not modelled.
- The `std::function` wrapper and its default argument (driver_merge_students.cpp:16, 44) become a plain total function `(int, int) -> bool`. `Less` is the default.
- `value_type` is `int` (driver_merge_students.cpp:15). It is modelled as Dafny's unbounded `int`. The merge only compares and copies elements, so width does not matter, except through a caller's comparison.
- The code never checks that its inputs are sorted (driver_merge_students.cpp:29-40 only asks for it). The model has no such check either: an unsorted input is merged by the same rule, and `Merging.MergeFrom` describes that output too. Only the sortedness lemmas (`MergeFromSorted`, `MergedSorted`) and the write-order lemmas (`WriteOrderFrom`, `WriteOrder`) require sorted inputs.
