/**
 * The caller-supplied comparator (avl_compare): its result is negative, zero
 * or positive as the first key sorts before, together with, or after the
 * second. The tree is only meaningful for a comparator that is a total
 * preorder read off that sign; IsComparator states exactly that.
 */
module Comparator {

  ghost predicate IsComparator<K(!new)>(cmp: (K, K) -> int) {
    (forall a :: cmp(a, a) == 0) &&
    (forall a, b :: cmp(a, b) < 0 <==> cmp(b, a) > 0) &&
    (forall a, b, c :: cmp(a, b) <= 0 && cmp(b, c) <= 0 ==> cmp(a, c) <= 0)
  }

  /** Strict and non-strict comparisons chain: a < b <= c and a <= b < c give a < c. */
  lemma LessChain<K(!new)>(cmp: (K, K) -> int, a: K, b: K, c: K)
    requires IsComparator(cmp)
    requires (cmp(a, b) < 0 && cmp(b, c) <= 0) || (cmp(a, b) <= 0 && cmp(b, c) < 0)
    ensures cmp(a, c) < 0
  {
    if cmp(a, b) < 0 {
      assert cmp(b, a) > 0;
    } else {
      assert cmp(c, b) > 0;
    }
  }
}
