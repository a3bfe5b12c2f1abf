// Comparison callbacks: less than zero, zero or greater than zero, as for qsort.
module Compare {
  type Cmp<!K> = (K, K) -> int

  // The comparison is a total preorder; it is used one triple of keys at a time.
  ghost predicate Triple<K>(cmp: Cmp<K>, a: K, b: K, c: K) {
    && (cmp(a, b) < 0 <==> cmp(b, a) > 0)
    && (cmp(a, b) <= 0 && cmp(b, c) <= 0 ==> cmp(a, c) <= 0)
  }

  ghost predicate GoodCmp<K(!new)>(cmp: Cmp<K>) {
    forall a, b, c {:trigger Triple(cmp, a, b, c)} :: Triple(cmp, a, b, c)
  }
}
