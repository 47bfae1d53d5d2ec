/** The graph every counter reads: an adjacency pattern stored as a
    Compressed Sparse Column matrix. It is built once, before any counter
    runs, and never changed. */
module CscGraph {
  import opened ArrayUtils

  /** Column `i` lists its row indices in `rows[cols[i]..cols[i + 1]]`
      (`rowsCsc` and `colsCsc` in the C code). */
  datatype Csc = Csc(rows: seq<nat>, cols: seq<nat>) {

    /** What the COO-to-CSC conversion guarantees: `nc + 1` column
        pointers, starting at 0, non-decreasing and ending at `nnz`; every
        row index names a vertex; each column lists its rows strictly
        ascending. Self-loops are allowed: the counters skip them. */
    predicate Valid() {
      && |cols| > 0
      && cols[0] == 0
      && cols[|cols| - 1] == |rows|
      && (forall i, j :: 0 <= i <= j < |cols| ==> cols[i] <= cols[j])
      && (forall p :: 0 <= p < |rows| ==> rows[p] < |cols| - 1)
      && (forall i :: 0 <= i < |cols| - 1 ==> ColumnSorted(i))
    }

    /** Column `i` lists its rows strictly ascending. */
    predicate ColumnSorted(i: nat)
      requires i + 1 < |cols| && cols[i] <= cols[i + 1] <= |rows|
    {
      StrictlySorted(rows[cols[i]..cols[i + 1]])
    }

    /** The number of vertices, `nc`. */
    function N(): nat
      requires |cols| > 0
    {
      |cols| - 1
    }

    /** The rows stored in column `i`. */
    function Column(i: nat): (s: seq<nat>)
      requires Valid() && i < N()
      ensures |s| == cols[i + 1] - cols[i]
      ensures forall x :: x in s ==> x < N()
    {
      rows[cols[i]..cols[i + 1]]
    }

    /** Column `i` is strictly ascending (kept out of the contract of
        `Column`, so that only the proofs that need it pay for it). */
    lemma ColumnAscending(i: nat)
      requires Valid() && i < N()
      ensures StrictlySorted(Column(i))
    {
      assert ColumnSorted(i);
    }

    /** Every stored entry lies strictly below the diagonal, as when only
        the lower triangle of a symmetric matrix is kept. */
    predicate LowerTriangular()
      requires Valid()
    {
      forall i, x :: 0 <= i < N() && x in Column(i) ==> i < x
    }

    /** `u` and `v` are adjacent: one of them is stored in the other's
        column. */
    predicate Adjacent(u: nat, v: nat)
      requires Valid()
    {
      (u < N() && v in Column(u)) || (v < N() && u in Column(v))
    }
  }
}
