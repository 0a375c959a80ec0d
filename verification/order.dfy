/**
 * The contract a caller-supplied comparator must meet. The containers that
 * order their elements take `cmp(a, b)`, which is positive when `a` has the
 * higher order, negative when `b` has, and 0 when both have the same order.
 */
module Order {

  /** The transitivity instance for `x`, `y`, `z`. */
  ghost predicate Chained<T>(cmp: (T, T) -> int, x: T, y: T, z: T) {
    cmp(x, y) >= 0 && cmp(y, z) >= 0 ==> cmp(x, z) >= 0
  }

  /**
   * `cmp` is a total preorder: reflexive, sign-antisymmetric and transitive.
   * Transitivity is only instantiated through `Trans`, which keeps proofs
   * about long index chains small.
   */
  ghost predicate TotalPreorder<T(!new)>(cmp: (T, T) -> int) {
    && (forall x :: cmp(x, x) == 0)
    && (forall x, y :: cmp(x, y) < 0 <==> cmp(y, x) > 0)
    && (forall x, y, z {:trigger Chained(cmp, x, y, z)} :: Chained(cmp, x, y, z))
  }

  lemma Trans<T(!new)>(cmp: (T, T) -> int, x: T, y: T, z: T)
    requires TotalPreorder(cmp)
    requires cmp(x, y) >= 0 && cmp(y, z) >= 0
    ensures cmp(x, z) >= 0
  {
    assert Chained(cmp, x, y, z);
  }

  /** `xs` lists its elements from the highest order down. */
  ghost predicate Descending<T>(cmp: (T, T) -> int, xs: seq<T>) {
    forall i, j :: 0 <= i < j < |xs| ==> cmp(xs[i], xs[j]) >= 0
  }
}
