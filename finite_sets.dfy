/**
 * A cardinality fact about finite sets that the relabelling proofs and the
 * VP-tree proofs both use.
 */
module FiniteSets {

  /** A subset of a finite set is no larger. */
  lemma SubsetCard(a: set<int>, b: set<int>)
    requires a <= b
    ensures |a| <= |b|
  {
    assert b == a + (b - a);
  }
}
