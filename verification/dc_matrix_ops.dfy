/** ZMatrixDc: the diagonal branch-resistance matrix of the DC solver, stored as its diagonal. */
module ZMatrixDc {
  datatype ZDiag = ZDiag(data: seq<real>)

  /** `ZMatrixDc(size)`: `size` zero resistances. */
  function New(size: nat): (z: ZDiag)
    ensures Size(z) == size && forall i :: 0 <= i < size ==> Get(z, i) == 0.0
  {
    ZDiag(seq(size, _ => 0.0))
  }

  function Size(z: ZDiag): nat {
    |z.data|
  }

  function Get(z: ZDiag, i: int): real
    requires 0 <= i < Size(z)
  {
    z.data[i]
  }

  /** `set(idx, value)`: `idx` reads `value` afterwards, every other index is unchanged. */
  function Set(z: ZDiag, i: int, v: real): (r: ZDiag)
    requires 0 <= i < Size(z)
    ensures Size(r) == Size(z) && Get(r, i) == v
    ensures forall j :: 0 <= j < Size(z) && j != i ==> Get(r, j) == Get(z, j)
  {
    ZDiag(z.data[i := v])
  }
}

/** DcMatrixOps.KZ: the product `K * Z` of the loop-incidence matrix and the diagonal resistances. */
module DcMatrixOps {
  import opened DynamicArrays
  import Csr
  import IMatrixCsr
  import DMatrixCsr
  import ZMatrixDc

  /** Every column index stored in `K` addresses a resistance. */
  ghost predicate ColumnsIn(k: Csr.Csr<int>, z: ZMatrixDc.ZDiag)
    requires Csr.Valid(k)
  {
    forall i :: 0 <= i < k.cols.size ==> 0 <= k.cols.data[i] < ZMatrixDc.Size(z)
  }

  /** `K.data.get(i) * Z.get(...)`: the int entry widened to double. */
  function Times(k: int, r: real): real {
    k as real * r
  }

  /** One row of `K * Z`: each entry scaled by the resistance of its column. */
  function ScaleRow(row: seq<Csr.Entry<int>>, z: ZMatrixDc.ZDiag): (s: seq<Csr.Entry<real>>)
    requires forall k :: 0 <= k < |row| ==> 0 <= row[k].col < ZMatrixDc.Size(z)
    ensures |s| == |row|
  {
    seq(|row|, k requires 0 <= k < |row| && 0 <= row[k].col < ZMatrixDc.Size(z) =>
          Csr.Entry(row[k].col, Times(row[k].val, ZMatrixDc.Get(z, row[k].col))))
  }

  lemma ScaleRowAt(row: seq<Csr.Entry<int>>, z: ZMatrixDc.ZDiag, e: int)
    requires forall k :: 0 <= k < |row| ==> 0 <= row[k].col < ZMatrixDc.Size(z)
    requires 0 <= e < |row|
    ensures ScaleRow(row, z)[e] == Csr.Entry(row[e].col, Times(row[e].val, ZMatrixDc.Get(z, row[e].col)))
  {
  }

  /**
   * `KZ(K, Z, dest)`: `dest` takes `K`'s row pointers and columns, and
   * `dest.data[i] = K.data[i] * Z[K.cols[i]]`. `dest`'s column count is left
   * as it was.
   */
  method KZ(k: Csr.Csr<int>, z: ZMatrixDc.ZDiag, dest: Csr.Csr<real>) returns (r: Csr.Csr<real>)
    requires IMatrixCsr.Valid(k) && ColumnsIn(k, z)
    requires Csr.Buffers(dest) && dest.zero == 0.0 && dest.growth == CopyLive
    ensures DMatrixCsr.Valid(r) && r.numCols == dest.numCols
    ensures r.rows.Contents() == k.rows.Contents() && r.cols.Contents() == k.cols.Contents()
    ensures forall i :: 0 <= i < Csr.NzCnt(k) ==>
              r.data.Contents()[i] == Times(k.data.Contents()[i], ZMatrixDc.Get(z, k.cols.Contents()[i]))
    ensures Csr.NumRows(r) == Csr.NumRows(k)
    ensures forall i :: 0 <= i < Csr.NumRows(k) ==>
              (forall e :: 0 <= e < |Csr.RowsOf(k)[i]| ==> 0 <= Csr.RowsOf(k)[i][e].col < ZMatrixDc.Size(z))
              && Csr.RowsOf(r)[i] == ScaleRow(Csr.RowsOf(k)[i], z)
  {
    var rows := CopyTo(k.rows, dest.rows, 0, CopyBuffer);
    var cols := CopyTo(k.cols, dest.cols, 0, CopyBuffer);
    var data := SetSize(dest.data, k.data.size, 0.0, CopyLive);
    var n := k.cols.size;
    var i := 0;
    while i < n
      invariant 0 <= i <= n
      invariant data.Valid() && data.size == n
      invariant forall j :: 0 <= j < i ==> data.data[j] == Times(k.data.data[j], ZMatrixDc.Get(z, k.cols.data[j]))
    {
      data := DynamicArrays.Set(data, i, Times(k.data.data[i], ZMatrixDc.Get(z, k.cols.data[i])));
      i := i + 1;
    }
    r := dest.(rows := rows, cols := cols, data := data);
    assert forall j :: 0 <= j < k.rows.size ==> rows.data[j] == rows.Contents()[j] == k.rows.Contents()[j];
    assert forall j :: 0 <= j < n ==> cols.data[j] == cols.Contents()[j] == k.cols.Contents()[j];
    KZRows(k, z, r);
  }

  /** Entries of row `i` of `K`, read through the CSR layout. */
  lemma RowInRange(k: Csr.Csr<int>, z: ZMatrixDc.ZDiag, i: int)
    requires Csr.Valid(k) && ColumnsIn(k, z) && 0 <= i < Csr.NumRows(k)
    ensures forall e :: 0 <= e < |Csr.Row(k, i)| ==> 0 <= Csr.Row(k, i)[e].col < ZMatrixDc.Size(z)
  {
  }

  /** One row of a matrix laid out like `K` with scaled values is `K`'s row scaled. */
  lemma ScaledRowAt(k: Csr.Csr<int>, z: ZMatrixDc.ZDiag, r: Csr.Csr<real>, i: int)
    requires Csr.Valid(k) && Csr.Valid(r) && ColumnsIn(k, z) && 0 <= i < Csr.NumRows(k)
    requires r.rows.size == k.rows.size && r.cols.size == k.cols.size
    requires forall j :: 0 <= j < k.rows.size ==> r.rows.data[j] == k.rows.data[j]
    requires forall j :: 0 <= j < k.cols.size ==>
               r.cols.data[j] == k.cols.data[j] && r.data.data[j] == Times(k.data.data[j], ZMatrixDc.Get(z, k.cols.data[j]))
    ensures forall e :: 0 <= e < |Csr.Row(k, i)| ==> 0 <= Csr.Row(k, i)[e].col < ZMatrixDc.Size(z)
    ensures Csr.Row(r, i) == ScaleRow(Csr.Row(k, i), z)
  {
    RowInRange(k, z, i);
    var row, rk := Csr.Row(r, i), Csr.Row(k, i);
    assert |row| == |rk|;
    var b := Csr.Begin(k, i);
    assert Csr.Begin(r, i) == b;
    forall e | 0 <= e < |rk| ensures row[e] == ScaleRow(rk, z)[e] {
      assert rk[e] == Csr.Entry(k.cols.data[b + e], k.data.data[b + e]);
      assert row[e] == Csr.Entry(r.cols.data[b + e], r.data.data[b + e]);
      assert b + e < k.cols.size;
      ScaleRowAt(rk, z, e);
    }
  }

  /** Row by row, the result of `KZ` is `K` with every entry scaled by its column's resistance. */
  lemma KZRows(k: Csr.Csr<int>, z: ZMatrixDc.ZDiag, r: Csr.Csr<real>)
    requires IMatrixCsr.Valid(k) && ColumnsIn(k, z) && DMatrixCsr.Valid(r)
    requires r.rows.Contents() == k.rows.Contents() && r.cols.Contents() == k.cols.Contents()
    requires forall i :: 0 <= i < Csr.NzCnt(k) ==>
               r.data.Contents()[i] == Times(k.data.Contents()[i], ZMatrixDc.Get(z, k.cols.Contents()[i]))
    ensures Csr.NumRows(r) == Csr.NumRows(k)
    ensures forall i :: 0 <= i < Csr.NumRows(k) ==>
              (forall e :: 0 <= e < |Csr.RowsOf(k)[i]| ==> 0 <= Csr.RowsOf(k)[i][e].col < ZMatrixDc.Size(z))
              && Csr.RowsOf(r)[i] == ScaleRow(Csr.RowsOf(k)[i], z)
  {
    assert forall j :: 0 <= j < k.rows.size ==> r.rows.data[j] == r.rows.Contents()[j] == k.rows.Contents()[j] == k.rows.data[j];
    assert forall j :: 0 <= j < k.cols.size ==> r.cols.data[j] == r.cols.Contents()[j] == k.cols.Contents()[j] == k.cols.data[j];
    assert forall j :: 0 <= j < k.cols.size ==>
      r.data.data[j] == r.data.Contents()[j] == Times(k.data.Contents()[j], ZMatrixDc.Get(z, k.cols.data[j]));
    forall i | 0 <= i < Csr.NumRows(k)
      ensures Csr.Row(r, i) == ScaleRow(Csr.Row(k, i), z)
      ensures forall e :: 0 <= e < |Csr.Row(k, i)| ==> 0 <= Csr.Row(k, i)[e].col < ZMatrixDc.Size(z)
    {
      ScaledRowAt(k, z, r, i);
    }
    Csr.RowsOfIndex(k);
    Csr.RowsOfIndex(r);
  }
}
