/**
 * Fixed-stride layouts: row `i` of rows that are `n` slots wide starts at
 * `i * n`. The start is defined by repeated addition so that proofs about
 * slot ranges stay linear; `RowStartIsProduct` connects it to the product
 * the source computes.
 */
module Strides {
  function RowStart(i: nat, n: nat): nat {
    if i == 0 then 0 else RowStart(i - 1, n) + n
  }

  lemma {:induction false} RowStartIsProduct(i: nat, n: nat)
    ensures RowStart(i, n) == i * n
  {
    if i > 0 {
      RowStartIsProduct(i - 1, n);
      assert (i - 1) * n + n == i * n;
    }
  }

  /** Distinct rows occupy disjoint slot ranges. */
  lemma {:induction false} RowsApart(i: nat, j: nat, n: nat)
    requires i < j
    ensures RowStart(i, n) + n <= RowStart(j, n)
    decreases j - i
  {
    if i < j - 1 {
      RowsApart(i, j - 1, n);
    }
  }
}
