/**
 * The deterministic pseudo-random backoff generator.
 */
module Backoff {

  /**
   * The backoff a node draws at tick `ticks` for window `window`: the
   * remainder of node id plus tick divided by the window. All operands are
   * non-negative, so the remainder of C++'s truncating `%` equals Dafny's.
   */
  function GenerateBackoff(nodeId: int, ticks: int, window: int): (backoff: int)
    requires nodeId >= 0 && ticks >= 0 && window > 0
    ensures 0 <= backoff < window
    ensures (nodeId + ticks) / window * window + backoff == nodeId + ticks
  {
    (nodeId + ticks) % window
  }

  /** A value written as q * m + r with 0 <= r < m has remainder r. */
  lemma ModOfDecomposition(a: int, m: int, q: int, r: int)
    requires m > 0 && 0 <= r < m && a == q * m + r
    ensures a % m == r
  {
    var q', r' := a / m, a % m;
    var d := q - q';
    assert d * m == q * m - q' * m;
    assert d * m == r' - r;
  }

  /** Adding one to a value moves its remainder to the next one, wrapping at m. */
  lemma ModSuccessor(x: int, m: int)
    requires m > 0
    ensures (x + 1) % m == if x % m == m - 1 then 0 else x % m + 1
  {
    var q := x / m;
    if x % m == m - 1 {
      ModOfDecomposition(x + 1, m, q + 1, 0);
    } else {
      ModOfDecomposition(x + 1, m, q, x % m + 1);
    }
  }

  /** Adding k to a value or to its remainder gives the same remainder. */
  lemma ModAddMod(x: int, k: int, m: int)
    requires m > 0
    ensures (x % m + k) % m == (x + k) % m
  {
    var q := x / m;
    var q2 := (x % m + k) / m;
    ModOfDecomposition(x + k, m, q + q2, (x % m + k) % m);
  }

  /**
   * Two nodes drawing at the same tick for the same window get the same
   * backoff exactly when their ids are congruent modulo the window.
   */
  lemma BackoffsCoincide(id1: int, id2: int, ticks: int, window: int)
    requires id1 >= 0 && id2 >= 0 && ticks >= 0 && window > 0
    ensures GenerateBackoff(id1, ticks, window) == GenerateBackoff(id2, ticks, window)
            <==> (id1 - id2) % window == 0
  {
    var a, b := id1 + ticks, id2 + ticks;
    var qa, qb := a / window, b / window;
    var ra, rb := a % window, b % window;
    if ra == rb {
      ModOfDecomposition(id1 - id2, window, qa - qb, 0);
    } else if ra > rb {
      ModOfDecomposition(id1 - id2, window, qa - qb, ra - rb);
    } else {
      ModOfDecomposition(id1 - id2, window, qa - qb - 1, window + ra - rb);
    }
  }

  /** Successive draws of one node for one window step through the window cyclically. */
  lemma BackoffAdvances(nodeId: int, ticks: int, window: int)
    requires nodeId >= 0 && ticks >= 0 && window > 0
    ensures GenerateBackoff(nodeId, ticks + 1, window)
            == if GenerateBackoff(nodeId, ticks, window) == window - 1 then 0
               else GenerateBackoff(nodeId, ticks, window) + 1
  {
    ModSuccessor(nodeId + ticks, window);
  }
}
