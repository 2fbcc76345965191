/** What the containers ask of the comparators they are given. */
module Orders {
  /** The comparator is a strict order; equivalent keys are those it does not separate. */
  ghost predicate StrictOrder<K(!new)>(less: (K, K) -> bool) {
    && (forall a :: !less(a, a))
    && (forall a, b, c :: less(a, b) && less(b, c) ==> less(a, c))
  }

  predicate Equivalent<K>(less: (K, K) -> bool, a: K, b: K) { !less(a, b) && !less(b, a) }

  lemma Transitive<K(!new)>(less: (K, K) -> bool, a: K, b: K, c: K)
    requires StrictOrder(less) && less(a, b) && less(b, c)
    ensures less(a, c)
  {
  }

  /** A strict weak order: keys that are not separated form classes. */
  ghost predicate WeakOrder<K(!new)>(less: (K, K) -> bool) {
    && StrictOrder(less)
    && (forall a, b, c :: Equivalent(less, a, b) && Equivalent(less, b, c) ==> Equivalent(less, a, c))
  }
}
