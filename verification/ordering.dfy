/**
 * Properties of a priority comparator. `comp(a, b)` reads "a has priority over b",
 * the meaning the heap gives its `PComparator`.
 */
module Ordering {

  ghost predicate Irreflexive<T(!new)>(comp: (T, T) -> bool) {
    forall a :: !comp(a, a)
  }

  ghost predicate Transitive<T(!new)>(comp: (T, T) -> bool) {
    forall a, b, c :: comp(a, b) && comp(b, c) ==> comp(a, c)
  }

  /** Neither of `a` and `b` has priority over the other. */
  ghost predicate Equivalent<T>(comp: (T, T) -> bool, a: T, b: T) {
    !comp(a, b) && !comp(b, a)
  }

  ghost predicate EquivalenceTransitive<T(!new)>(comp: (T, T) -> bool) {
    forall a, b, c :: Equivalent(comp, a, b) && Equivalent(comp, b, c) ==> Equivalent(comp, a, c)
  }

  /** The strict weak ordering a C++ comparator must be. */
  ghost predicate StrictWeakOrder<T(!new)>(comp: (T, T) -> bool) {
    Irreflexive(comp) && Transitive(comp) && EquivalenceTransitive(comp)
  }

  /**
   * "Does not have priority over" is transitive. This is the fact the heap needs on top of
   * transitivity: a strict partial order alone would not let the root dominate its grandchildren.
   */
  lemma NoPriorityTransitive<T(!new)>(comp: (T, T) -> bool, a: T, b: T, c: T)
    requires StrictWeakOrder(comp)
    ensures !comp(a, b) && !comp(b, c) ==> !comp(a, c)
  {
    // The instances of transitivity and of equivalence-transitivity the argument uses.
    assert comp(b, a) && comp(a, c) ==> comp(b, c);
    assert comp(a, c) && comp(c, b) ==> comp(a, b);
    assert Equivalent(comp, a, b) && Equivalent(comp, b, c) ==> Equivalent(comp, a, c);
  }
}
