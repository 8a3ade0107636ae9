/**
 * The ordering relation a merge is parameterised by. `comp(x, y)` holds when
 * `x` must precede `y`; the merge requires it to be a strict weak ordering, and
 * defaults to `<` on the element type, which is `int`.
 */
module Ordering {

  /** A caller-supplied comparison on the element type. */
  type Comp = (int, int) -> bool

  /** The default comparison, `std::less<int>`. */
  const Less: Comp := (x: int, y: int) => x < y

  ghost predicate Irreflexive(comp: Comp) {
    forall x :: !comp(x, x)
  }

  ghost predicate Transitive(comp: Comp) {
    forall x, y, z :: comp(x, y) && comp(y, z) ==> comp(x, z)
  }

  /** Neither element must precede the other. */
  predicate Equivalent(comp: Comp, x: int, y: int) {
    !comp(x, y) && !comp(y, x)
  }

  ghost predicate EquivalenceTransitive(comp: Comp) {
    forall x, y, z :: Equivalent(comp, x, y) && Equivalent(comp, y, z) ==> Equivalent(comp, x, z)
  }

  ghost predicate StrictWeakOrder(comp: Comp) {
    Irreflexive(comp) && Transitive(comp) && EquivalenceTransitive(comp)
  }

  /** No later element of `s` must precede an earlier one. */
  ghost predicate Sorted(comp: Comp, s: seq<int>) {
    forall i, j :: 0 <= i < j < |s| ==> !comp(s[j], s[i])
  }


  lemma Irreflexivity(comp: Comp, a: int)
    requires StrictWeakOrder(comp)
    ensures !comp(a, a)
  {
  }

  /** If `a` precedes `b` and `c` does not precede `b`, then `a` precedes `c`. */
  lemma PrecedesThenNotBelow(comp: Comp, a: int, b: int, c: int)
    requires StrictWeakOrder(comp)
    requires comp(a, b) && !comp(c, b)
    ensures comp(a, c)
  {
    if !comp(b, c) {
      assert Equivalent(comp, c, b);
      assert Equivalent(comp, a, c) ==> Equivalent(comp, a, b);
      assert comp(c, a) ==> comp(c, b);
    }
  }

  /** If `a` precedes `b` and `a` does not precede `c`, then `c` precedes `b`. */
  lemma NotAboveThenPrecedes(comp: Comp, a: int, b: int, c: int)
    requires StrictWeakOrder(comp)
    requires comp(a, b) && !comp(a, c)
    ensures comp(c, b)
  {
    if !comp(c, a) {
      assert Equivalent(comp, a, c);
      assert Equivalent(comp, c, b) ==> Equivalent(comp, a, b);
      assert comp(b, c) ==> comp(a, c);
    }
  }

  /** The default comparison meets the merge's requirement. */
  lemma LessIsStrictWeakOrder()
    ensures StrictWeakOrder(Less)
  {
  }
}
