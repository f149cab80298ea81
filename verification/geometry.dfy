/**
 * Planar distance. The square root is not modelled: every distance is computed
 * by a caller-supplied `root` applied to the squared distance, so the model
 * holds for any deterministic square-root routine.
 */
module Geometry {

  /** `(x2-x1)*(x2-x1) + (y2-y1)*(y2-y1)` */
  function SqDist(x1: real, y1: real, x2: real, y2: real): real {
    (x2 - x1) * (x2 - x1) + (y2 - y1) * (y2 - y1)
  }

  /** `sqrt` of the squared distance, with the supplied square root. */
  function Distance(root: real -> real, x1: real, y1: real, x2: real, y2: real): (d: real)
    ensures x1 == x2 && y1 == y2 ==> d == root(0.0)
    ensures d == root(SqDist(x2, y2, x1, y1))
  {
    assert (x2 - x1) * (x2 - x1) == (x1 - x2) * (x1 - x2);
    assert (y2 - y1) * (y2 - y1) == (y1 - y2) * (y1 - y2);
    assert x1 == x2 && y1 == y2 ==> SqDist(x1, y1, x2, y2) == 0.0;
    root(SqDist(x1, y1, x2, y2))
  }

  /** `d` is the exact square root of `q`. */
  predicate IsRootOf(d: real, q: real) {
    d >= 0.0 && d * d == q
  }

  /** The distance does not depend on the order of the end points. */
  lemma DistanceSymmetric(root: real -> real, x1: real, y1: real, x2: real, y2: real)
    ensures SqDist(x1, y1, x2, y2) == SqDist(x2, y2, x1, y1) >= 0.0
    ensures Distance(root, x1, y1, x2, y2) == Distance(root, x2, y2, x1, y1)
  {
    assert (x2 - x1) * (x2 - x1) == (x1 - x2) * (x1 - x2);
    assert (y2 - y1) * (y2 - y1) == (y1 - y2) * (y1 - y2);
  }

  /**
   * Comparing an exact distance with a cost can be done without the root:
   * `d > c` holds exactly when the cost is negative or the squared distance
   * exceeds the squared cost.
   */
  lemma ExceedsIffSquared(d: real, q: real, c: real)
    requires IsRootOf(d, q)
    ensures d > c <==> (c < 0.0 || q > c * c)
  {
    if c >= 0.0 {
      if d > c {
        assert d * d > c * c by {
          assert d * d - c * c == (d - c) * (d + c);
          assert d - c > 0.0 && d + c > 0.0;
          assert (d - c) * (d + c) > 0.0;
        }
      } else {
        assert d * d <= c * c by {
          assert c * c - d * d == (c - d) * (c + d);
          assert c - d >= 0.0 && c + d >= 0.0;
          assert (c - d) * (c + d) >= 0.0;
        }
      }
    }
  }

  /** The squared-distance test for `sqrt(q) > c`: `c` is negative or `q` exceeds its square. */
  predicate SqExceeds(q: real, c: real) {
    c < 0.0 || q > c * c
  }

  /** With an exact square root, the distance exceeds `c` exactly when the squared test says so. */
  lemma DistanceExceeds(root: real -> real, x1: real, y1: real, x2: real, y2: real, c: real)
    requires forall q :: q >= 0.0 ==> IsRootOf(root(q), q)
    ensures Distance(root, x1, y1, x2, y2) > c <==> SqExceeds(SqDist(x1, y1, x2, y2), c)
  {
    var q := SqDist(x1, y1, x2, y2);
    DistanceSymmetric(root, x1, y1, x2, y2);
    ExceedsIffSquared(root(q), q, c);
  }
}
