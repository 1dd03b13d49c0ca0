/**
 * The three CSR classes built on the generic container: IMatrixCsr (int
 * values, the loop-incidence matrix K), DMatrixCsr (double values) and
 * ZMatrixCsr (complex values). They differ in the value type, in what `get`
 * answers for an absent entry and in the initial buffer capacities.
 */
module IMatrixCsr {
  import opened DynamicArrays
  import Csr

  type IMatrix = Csr.Csr<int>

  ghost predicate Valid(m: IMatrix) {
    Csr.Valid(m) && m.zero == 0 && m.growth == CopyBuffer
  }

  /** `IMatrixCsr(numCols)`: `rows == [0]`, no entries, no rows. */
  function New(numCols: nat): (m: IMatrix)
    ensures Valid(m) && Csr.NumRows(m) == 0 && Csr.NzCnt(m) == 0 && Csr.RowsOf(m) == []
    ensures m.rows.Contents() == [0] && m.cols.Contents() == [] && m.data.Contents() == []
    ensures m.numCols == numCols
  {
    Csr.New(numCols, numCols / 4 * 12, 0, CopyBuffer)
  }

  /** `last(arr)`: the last live element. */
  function Last(a: DynArray<int>): (x: int)
    requires a.Valid() && a.size >= 1
    ensures x == a.Contents()[a.size - 1]
  {
    a.data[a.size - 1]
  }

  /** `incLast(arr, amount)`: adds `amount` to the last live element and to nothing else. */
  function IncLast(a: DynArray<int>, amount: int): (r: DynArray<int>)
    requires a.Valid() && a.size >= 1
    ensures r.Valid() && r.size == a.size && r.Capacity() == a.Capacity()
    ensures r.Contents() == a.Contents()[a.size - 1 := a.Contents()[a.size - 1] + amount]
  {
    Set(a, a.size - 1, a.data[a.size - 1] + amount)
  }
}

module DMatrixCsr {
  import opened DynamicArrays
  import Csr

  type DMatrix = Csr.Csr<real>

  ghost predicate Valid(m: DMatrix) {
    Csr.Valid(m) && m.zero == 0.0 && m.growth == CopyLive
  }

  /** `DMatrixCsr(numCols)`: `rows == [0]`, no entries, no rows. */
  function New(numCols: nat): (m: DMatrix)
    ensures Valid(m) && Csr.NumRows(m) == 0 && Csr.NzCnt(m) == 0 && Csr.RowsOf(m) == []
    ensures m.rows.Contents() == [0] && m.cols.Contents() == [] && m.data.Contents() == []
    ensures m.numCols == numCols
  {
    Csr.New(numCols, numCols * 12, 0.0, CopyLive)
  }

  /** `reset(n)`: zero rows, zero entries, `n` columns. */
  function Reset(m: DMatrix, n: int): (r: DMatrix)
    requires Csr.Buffers(m) && m.zero == 0.0 && m.growth == CopyLive
    ensures Valid(r) && Csr.NumRows(r) == 0 && Csr.NzCnt(r) == 0 && Csr.RowsOf(r) == []
    ensures r.numCols == n
  {
    Csr.Reset(m, n)
  }

  /** `addRow`: an empty row at the end, the entry count unchanged. */
  function AddRow(m: DMatrix): (r: DMatrix)
    requires Valid(m)
    ensures Valid(r) && Csr.RowsOf(r) == Csr.RowsOf(m) + [[]] && Csr.NzCnt(r) == Csr.NzCnt(m)
  {
    Csr.AddRow(m)
  }

  /** `append(c, v)`: only the last row grows, by the entry `(c, v)`. */
  function Append(m: DMatrix, c: int, v: real): (r: DMatrix)
    requires Valid(m) && Csr.NumRows(m) >= 1
    ensures Valid(r) && Csr.NzCnt(r) == Csr.NzCnt(m) + 1
    ensures Csr.RowsOf(r) == Csr.RowsOf(m)[..Csr.NumRows(m) - 1] + [Csr.RowsOf(m)[Csr.NumRows(m) - 1] + [Csr.Entry(c, v)]]
  {
    Csr.Append(m, c, v)
  }

  /** `get(i, j)`: the first stored value of column `j` in row `i`, else `0.0`. */
  method Get(m: DMatrix, i: int, j: int) returns (v: real)
    requires Valid(m) && 0 <= i < Csr.NumRows(m)
    ensures (forall k :: 0 <= k < |Csr.RowsOf(m)[i]| ==> Csr.RowsOf(m)[i][k].col != j) ==> v == 0.0
    ensures forall k :: (0 <= k < |Csr.RowsOf(m)[i]| && Csr.RowsOf(m)[i][k].col == j
                         && (forall p :: 0 <= p < k ==> Csr.RowsOf(m)[i][p].col != j)) ==> v == Csr.RowsOf(m)[i][k].val
  {
    v := Csr.Get(m, i, j);
  }
}

module ZMatrixCsr {
  import opened DynamicArrays
  import Csr

  /** The complex value buffer is modelled as one buffer of pairs (see `DynamicArrays.Zip`). */
  type ZMatrix = Csr.Csr<Complex>

  ghost predicate Valid(m: ZMatrix) {
    Csr.Valid(m) && m.zero == ComplexZero && m.growth == CopyBuffer
  }

  /** `ZMatrixCsr(numCols)`: `rows == [0]`, no entries, no rows. */
  function New(numCols: nat): (m: ZMatrix)
    ensures Valid(m) && Csr.NumRows(m) == 0 && Csr.NzCnt(m) == 0 && Csr.RowsOf(m) == []
    ensures m.rows.Contents() == [0] && m.cols.Contents() == [] && m.data.Contents() == []
    ensures m.numCols == numCols
  {
    Csr.New(numCols, numCols * 12, ComplexZero, CopyBuffer)
  }

  /** `numRows() == |rows| - 1` and `nzCnt() == |cols|`, which is also the number of stored pairs. */
  lemma Counts(m: ZMatrix)
    requires Valid(m)
    ensures Csr.NumRows(m) == |m.rows.Contents()| - 1 == |Csr.RowsOf(m)|
    ensures Csr.NzCnt(m) == |m.cols.Contents()| == |m.data.Contents()|
  {
  }

  /** `reset(n)`: zero rows, zero entries, `n` columns. */
  function Reset(m: ZMatrix, n: int): (r: ZMatrix)
    requires Csr.Buffers(m) && m.zero == ComplexZero && m.growth == CopyBuffer
    ensures Valid(r) && Csr.NumRows(r) == 0 && Csr.NzCnt(r) == 0 && Csr.RowsOf(r) == []
    ensures r.numCols == n
  {
    Csr.Reset(m, n)
  }

  /** `addRow`: the last row pointer repeated, which opens an empty row; columns and values untouched. */
  function AddRow(m: ZMatrix): (r: ZMatrix)
    requires Valid(m)
    ensures Valid(r) && Csr.RowsOf(r) == Csr.RowsOf(m) + [[]] && Csr.NzCnt(r) == Csr.NzCnt(m)
    ensures r.rows.Contents() == m.rows.Contents() + [Csr.NzCnt(m)] && r.cols == m.cols && r.data == m.data
  {
    Csr.AddRow(m)
  }

  /** `append(c, re, im)`: the pair is stored at the same index as the column `c`. */
  function Append(m: ZMatrix, c: int, re: real, im: real): (r: ZMatrix)
    requires Valid(m) && Csr.NumRows(m) >= 1
    ensures Valid(r) && Csr.NzCnt(r) == Csr.NzCnt(m) + 1
    ensures r.cols.Contents()[Csr.NzCnt(m)] == c && r.data.Contents()[Csr.NzCnt(m)] == Complex(re, im)
    ensures Csr.RowsOf(r) == Csr.RowsOf(m)[..Csr.NumRows(m) - 1]
                             + [Csr.RowsOf(m)[Csr.NumRows(m) - 1] + [Csr.Entry(c, Complex(re, im))]]
  {
    Csr.Append(m, c, Complex(re, im))
  }

  /** `get(i, j, dest)`: the first stored pair of column `j` in row `i`, else `(0, 0)`. */
  method Get(m: ZMatrix, i: int, j: int) returns (z: Complex)
    requires Valid(m) && 0 <= i < Csr.NumRows(m)
    ensures (forall k :: 0 <= k < |Csr.RowsOf(m)[i]| ==> Csr.RowsOf(m)[i][k].col != j) ==> z == Complex(0.0, 0.0)
    ensures forall k :: (0 <= k < |Csr.RowsOf(m)[i]| && Csr.RowsOf(m)[i][k].col == j
                         && (forall p :: 0 <= p < k ==> Csr.RowsOf(m)[i][p].col != j)) ==> z == Csr.RowsOf(m)[i][k].val
  {
    z := Csr.Get(m, i, j);
  }
}
