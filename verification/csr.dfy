/**
 * The append-only compressed-sparse-row container shared by IMatrixCsr,
 * DMatrixCsr and ZMatrixCsr: a row-pointer array `rows` (numRows + 1
 * entries) and the parallel `cols`/`data` arrays of stored entries.
 *
 * The abstract view of a matrix is `RowsOf(m)`: one sequence of
 * (column, value) entries per row, in insertion order. Every operation is
 * specified by what it does to that view.
 */
module Csr {
  import opened Wrappers
  import opened DynamicArrays

  datatype Entry<T> = Entry(col: int, val: T)

  /**
   * `zero` is what `get` answers for an absent entry and what fresh buffer
   * slots hold; `growth` is the growth policy of the value buffer. Both are
   * fixed by the matrix class.
   */
  datatype Csr<T> = Csr(rows: DynArray<int>, cols: DynArray<int>, data: DynArray<T>,
                        numCols: int, zero: T, growth: Growth)

  ghost predicate Buffers<T>(m: Csr<T>) {
    m.rows.Valid() && m.cols.Valid() && m.data.Valid()
  }

  /** The row-pointer invariant of every CSR matrix. */
  ghost predicate Valid<T>(m: Csr<T>) {
    RowPointers(m)
  }

  ghost predicate RowPointers<T>(m: Csr<T>) {
    && Buffers(m)
    && m.rows.size >= 1
    && m.rows.data[0] == 0
    && m.rows.data[m.rows.size - 1] == m.cols.size == m.data.size
    && (forall i :: 0 <= i < m.rows.size ==> 0 <= m.rows.data[i] <= m.cols.size)
    && (forall i, j :: 0 <= i <= j < m.rows.size ==> m.rows.data[i] <= m.rows.data[j])
  }

  function NumRows<T>(m: Csr<T>): int {
    m.rows.size - 1
  }

  function NzCnt<T>(m: Csr<T>): int {
    m.cols.size
  }

  /** First slot of row `i` in `cols`/`data`. */
  function Begin<T>(m: Csr<T>, i: int): (b: int)
    requires Valid(m) && 0 <= i < NumRows(m)
    ensures 0 <= b <= NzCnt(m)
  {
    m.rows.data[i]
  }

  /** One past the last slot of row `i`; it is where row `i + 1` begins. */
  function End<T>(m: Csr<T>, i: int): (e: int)
    requires Valid(m) && 0 <= i < NumRows(m)
    ensures Begin(m, i) <= e <= NzCnt(m)
    ensures i + 1 < NumRows(m) ==> e == Begin(m, i + 1)
  {
    m.rows.data[i + 1]
  }

  /** The entries of row `i`, in storage order. */
  function Row<T>(m: Csr<T>, i: int): (row: seq<Entry<T>>)
    requires Valid(m) && 0 <= i < NumRows(m)
    ensures |row| == End(m, i) - Begin(m, i)
  {
    var b := Begin(m, i);
    seq(End(m, i) - b, k requires 0 <= k < End(m, i) - b => Entry(m.cols.data[b + k], m.data.data[b + k]))
  }

  /** Rows `i..` of the matrix as entry lists. */
  function RowsFrom<T>(m: Csr<T>, i: nat): (rs: seq<seq<Entry<T>>>)
    requires Valid(m) && i <= NumRows(m)
    ensures |rs| == NumRows(m) - i
    decreases NumRows(m) - i
  {
    if i == NumRows(m) then [] else [Row(m, i)] + RowsFrom(m, i + 1)
  }

  /** The abstract matrix: its rows as entry lists. */
  function RowsOf<T>(m: Csr<T>): (rs: seq<seq<Entry<T>>>)
    requires Valid(m)
    ensures |rs| == NumRows(m)
  {
    RowsFrom(m, 0)
  }

  lemma {:induction false} RowsFromIndex<T>(m: Csr<T>, i: nat)
    requires Valid(m) && i <= NumRows(m)
    ensures forall k :: 0 <= k < NumRows(m) - i ==> RowsFrom(m, i)[k] == Row(m, i + k)
    decreases NumRows(m) - i
  {
    if i < NumRows(m) {
      RowsFromIndex(m, i + 1);
    }
  }

  /** Row `k` of the abstract matrix is the `k`-th slot range of `cols`/`data`. */
  lemma RowsOfIndex<T>(m: Csr<T>)
    requires Valid(m)
    ensures forall k :: 0 <= k < NumRows(m) ==> RowsOf(m)[k] == Row(m, k)
  {
    RowsFromIndex(m, 0);
  }

  /** The constructor: one row pointer (0), no rows, no entries. */
  function New<T>(numCols: nat, dataCapacity: nat, zero: T, growth: Growth): (m: Csr<T>)
    ensures Valid(m) && NumRows(m) == 0 && NzCnt(m) == 0 && RowsOf(m) == []
    ensures m.rows.Contents() == [0] && m.cols.Contents() == [] && m.data.Contents() == []
    ensures m.numCols == numCols
  {
    var rows := DynamicArrays.Append(Create(12, 0), 0, 0, CopyBuffer);
    assert rows.data[0] == rows.Contents()[0];
    Csr(rows, Create(numCols / 4 * 12, 0), Create(dataCapacity, zero), numCols, zero, growth)
  }

  /** `reset(n)`: back to the empty state with `n` columns; buffers keep their capacity. */
  function Reset<T>(m: Csr<T>, n: int): (r: Csr<T>)
    requires Buffers(m)
    ensures Valid(r) && NumRows(r) == 0 && NzCnt(r) == 0 && RowsOf(r) == []
    ensures r.rows.Contents() == [0] && r.cols.Contents() == [] && r.data.Contents() == []
    ensures r.numCols == n && r.zero == m.zero && r.growth == m.growth
    ensures r.rows.Capacity() >= m.rows.Capacity() && r.cols.Capacity() == m.cols.Capacity()
    ensures r.data.Capacity() == m.data.Capacity()
  {
    var data := SetSize(m.data, 0, m.zero, m.growth);
    var rows := DynamicArrays.Set(SetSize(m.rows, 1, 0, CopyBuffer), 0, 0);
    var cols := SetSize(m.cols, 0, 0, CopyBuffer);
    assert rows.data[0] == 0;
    m.(rows := rows, cols := cols, data := data, numCols := n)
  }

  /** Two matrices whose row `i` spans the same slots holding the same entries agree on that row. */
  lemma SameRow<T>(a: Csr<T>, b: Csr<T>, i: int)
    requires Valid(a) && Valid(b) && 0 <= i < NumRows(a) && i < NumRows(b)
    requires a.rows.data[i] == b.rows.data[i] && a.rows.data[i + 1] == b.rows.data[i + 1]
    requires forall k :: a.rows.data[i] <= k < a.rows.data[i + 1] ==>
               a.cols.data[k] == b.cols.data[k] && a.data.data[k] == b.data.data[k]
    ensures Row(a, i) == Row(b, i)
  {
  }

  /** The state `addRow` leaves behind: the last row pointer repeated. */
  function Added<T>(m: Csr<T>): Csr<T>
    requires Valid(m)
  {
    m.(rows := DynamicArrays.Append(m.rows, m.rows.data[m.rows.size - 1], 0, CopyBuffer))
  }

  lemma AddedValid<T>(m: Csr<T>)
    requires Valid(m)
    ensures Valid(Added(m)) && Added(m).rows.size == m.rows.size + 1
    ensures forall i :: 0 <= i < m.rows.size ==> Added(m).rows.data[i] == m.rows.data[i]
    ensures Added(m).rows.data[m.rows.size] == m.rows.data[m.rows.size - 1]
  {
    var rows := Added(m).rows;
    assert forall i :: 0 <= i < m.rows.size ==> rows.data[i] == rows.Contents()[i] == m.rows.Contents()[i];
    assert rows.data[m.rows.size] == rows.Contents()[m.rows.size];
  }

  lemma AddedRows<T>(m: Csr<T>)
    requires Valid(m)
    ensures Valid(Added(m)) && RowsOf(Added(m)) == RowsOf(m) + [[]]
  {
    var r := Added(m);
    AddedValid(m);
    forall i | 0 <= i < NumRows(m) ensures Row(r, i) == Row(m, i) {
      SameRow(r, m, i);
    }
    RowsOfIndex(m);
    RowsOfIndex(r);
  }

  /** `addRow`: closes the current row and opens an empty one. */
  function AddRow<T>(m: Csr<T>): (r: Csr<T>)
    requires Valid(m)
    ensures Valid(r) && NumRows(r) == NumRows(m) + 1 && NzCnt(r) == NzCnt(m)
    ensures RowsOf(r) == RowsOf(m) + [[]]
    ensures r.rows.Contents() == m.rows.Contents() + [NzCnt(m)]
    ensures r.cols == m.cols && r.data == m.data && r.numCols == m.numCols
    ensures r.zero == m.zero && r.growth == m.growth
  {
    AddedRows(m);
    Added(m)
  }

  /** The state `append(c, v)` leaves behind: last row pointer bumped, entry pushed onto `cols`/`data`. */
  function Appended<T>(m: Csr<T>, c: int, v: T): Csr<T>
    requires Valid(m) && NumRows(m) >= 1
  {
    var n := m.rows.size - 1;
    m.(rows := DynamicArrays.Set(m.rows, n, m.rows.data[n] + 1),
       cols := DynamicArrays.Append(m.cols, c, 0, CopyBuffer),
       data := DynamicArrays.Append(m.data, v, m.zero, m.growth))
  }

  lemma AppendedBuffers<T>(m: Csr<T>, c: int, v: T)
    requires Valid(m) && NumRows(m) >= 1
    ensures var r := Appended(m, c, v);
            && Buffers(r) && r.rows.size == m.rows.size
            && r.cols.size == m.cols.size + 1 && r.data.size == m.data.size + 1
            && (forall i :: 0 <= i < m.rows.size - 1 ==> r.rows.data[i] == m.rows.data[i])
            && r.rows.data[m.rows.size - 1] == m.rows.data[m.rows.size - 1] + 1
            && (forall k :: 0 <= k < m.cols.size ==> r.cols.data[k] == m.cols.data[k] && r.data.data[k] == m.data.data[k])
            && r.cols.data[m.cols.size] == c && r.data.data[m.data.size] == v
            && r.cols.Contents() == m.cols.Contents() + [c] && r.data.Contents() == m.data.Contents() + [v]
            && r.rows.Contents() == m.rows.Contents()[m.rows.size - 1 := m.rows.data[m.rows.size - 1] + 1]
  {
    var r := Appended(m, c, v);
    assert forall k :: 0 <= k < m.cols.size ==> r.cols.data[k] == r.cols.Contents()[k] == m.cols.Contents()[k];
    assert forall k :: 0 <= k < m.data.size ==> r.data.data[k] == r.data.Contents()[k] == m.data.Contents()[k];
    assert r.cols.data[m.cols.size] == r.cols.Contents()[m.cols.size];
    assert r.data.data[m.data.size] == r.data.Contents()[m.data.size];
  }

  lemma AppendedRows<T>(m: Csr<T>, c: int, v: T)
    requires Valid(m) && NumRows(m) >= 1
    ensures Valid(Appended(m, c, v))
    ensures RowsOf(Appended(m, c, v)) == RowsOf(m)[..NumRows(m) - 1] + [RowsOf(m)[NumRows(m) - 1] + [Entry(c, v)]]
  {
    var r := Appended(m, c, v);
    var n := NumRows(m);
    AppendedBuffers(m, c, v);
    assert Valid(r);
    forall i | 0 <= i < n - 1 ensures Row(r, i) == Row(m, i) {
      SameRow(r, m, i);
    }
    assert Row(r, n - 1) == Row(m, n - 1) + [Entry(c, v)];
    RowsOfIndex(m);
    RowsOfIndex(r);
  }

  /**
   * `append(c, v)`: adds an entry to the last row. Duplicate columns and
   * zero values are not rejected. With no row opened the source would
   * bump `rows[0]`, so at least one row is required.
   */
  function Append<T>(m: Csr<T>, c: int, v: T): (r: Csr<T>)
    requires Valid(m) && NumRows(m) >= 1
    ensures Valid(r) && NumRows(r) == NumRows(m) && NzCnt(r) == NzCnt(m) + 1
    ensures RowsOf(r) == RowsOf(m)[..NumRows(m) - 1] + [RowsOf(m)[NumRows(m) - 1] + [Entry(c, v)]]
    ensures r.rows.Contents() == m.rows.Contents()[NumRows(m) := m.rows.data[NumRows(m)] + 1]
    ensures r.cols.Contents() == m.cols.Contents() + [c] && r.data.Contents() == m.data.Contents() + [v]
    ensures r.numCols == m.numCols && r.zero == m.zero && r.growth == m.growth
  {
    AppendedBuffers(m, c, v);
    AppendedRows(m, c, v);
    Appended(m, c, v)
  }

  /** Value of the first entry with column `j`, or `zero` when there is none. */
  function Lookup<T>(row: seq<Entry<T>>, j: int, zero: T): (v: T)
    ensures (forall k :: 0 <= k < |row| ==> row[k].col != j) ==> v == zero
    ensures forall k :: 0 <= k < |row| && row[k].col == j && (forall p :: 0 <= p < k ==> row[p].col != j)
              ==> v == row[k].val
  {
    if |row| == 0 then zero
    else if row[0].col == j then row[0].val
    else
      var v := Lookup(row[1..], j, zero);
      assert forall k :: 1 <= k < |row| ==> row[k] == row[1..][k - 1];
      v
  }

  /** `get(i, j)`: linear scan of row `i` for column `j`. */
  method Get<T>(m: Csr<T>, i: int, j: int) returns (v: T)
    requires Valid(m) && 0 <= i < NumRows(m)
    ensures v == Lookup(RowsOf(m)[i], j, m.zero)
  {
    RowsOfIndex(m);
    var k := m.rows.data[i];
    var e := m.rows.data[i + 1];
    while k < e
      invariant Begin(m, i) <= k <= e == End(m, i)
      invariant forall p :: Begin(m, i) <= p < k ==> m.cols.data[p] != j
    {
      if m.cols.data[k] == j {
        var row := Row(m, i);
        assert row[k - Begin(m, i)].col == j;
        assert forall p :: 0 <= p < k - Begin(m, i) ==> row[p].col != j;
        return m.data.data[k];
      }
      k := k + 1;
    }
    v := m.zero;
  }

  /** Sequence algebra behind `FillRow`: extending the last row twice extends it once. */
  lemma ExtendLastTwice<E>(rs: seq<seq<E>>, rs1: seq<seq<E>>, rs2: seq<seq<E>>, e: E, tail: seq<E>)
    requires |rs| >= 1
    requires rs1 == rs[..|rs| - 1] + [rs[|rs| - 1] + [e]]
    requires rs2 == rs1[..|rs| - 1] + [rs1[|rs| - 1] + tail]
    ensures rs2 == rs[..|rs| - 1] + [rs[|rs| - 1] + ([e] + tail)]
  {
    var n := |rs| - 1;
    assert rs1[..n] == rs[..n];
    assert rs1[n] == rs[n] + [e];
    assert rs[n] + [e] + tail == rs[n] + ([e] + tail);
  }

  /** Sequence algebra behind `Fill`: an empty row extended by `row`, then more rows. */
  lemma OpenFillThenRest<E>(rs: seq<seq<E>>, rs0: seq<seq<E>>, rs1: seq<seq<E>>, rs2: seq<seq<E>>,
                            row: seq<E>, tail: seq<seq<E>>)
    requires rs0 == rs + [[]]
    requires rs1 == rs0[..|rs|] + [rs0[|rs|] + row]
    requires rs2 == rs1 + tail
    ensures rs2 == rs + ([row] + tail)
  {
    assert rs0[..|rs|] == rs;
    assert rs0[|rs|] + row == row;
  }

  /** Appends `entries` to the last row, one `append` each. */
  function FillRow<T>(m: Csr<T>, entries: seq<Entry<T>>): (r: Csr<T>)
    requires Valid(m) && NumRows(m) >= 1
    ensures Valid(r) && NumRows(r) == NumRows(m)
    ensures r.numCols == m.numCols && r.zero == m.zero && r.growth == m.growth
    decreases |entries|
  {
    if entries == [] then m
    else FillRow(Append(m, entries[0].col, entries[0].val), entries[1..])
  }

  /** `FillRow` extends the last row by exactly `entries`, in order. */
  lemma {:induction false} FillRowRows<T>(m: Csr<T>, entries: seq<Entry<T>>)
    requires Valid(m) && NumRows(m) >= 1
    ensures RowsOf(FillRow(m, entries)) == RowsOf(m)[..NumRows(m) - 1] + [RowsOf(m)[NumRows(m) - 1] + entries]
    decreases |entries|
  {
    var rs := RowsOf(m);
    if entries == [] {
      assert rs[NumRows(m) - 1] + entries == rs[NumRows(m) - 1];
      assert rs[..NumRows(m) - 1] + [rs[NumRows(m) - 1]] == rs;
    } else {
      var m1 := Append(m, entries[0].col, entries[0].val);
      FillRowRows(m1, entries[1..]);
      ExtendLastTwice(rs, RowsOf(m1), RowsOf(FillRow(m1, entries[1..])), entries[0], entries[1..]);
      assert [entries[0]] + entries[1..] == entries;
    }
  }

  /** One row: `addRow`, then an `append` per entry; the abstract view gains exactly `row`. */
  function AddFilledRow<T>(m: Csr<T>, row: seq<Entry<T>>): (r: Csr<T>)
    requires Valid(m)
    ensures Valid(r) && NumRows(r) == NumRows(m) + 1 && RowsOf(r) == RowsOf(m) + [row]
    ensures r.numCols == m.numCols && r.zero == m.zero && r.growth == m.growth
  {
    var m0 := AddRow(m);
    FillRowRows(m0, row);
    OpenFillThenRest(RowsOf(m), RowsOf(m0), RowsOf(FillRow(m0, row)), RowsOf(FillRow(m0, row)), row, []);
    FillRow(m0, row)
  }

  /** Sequence algebra behind `Fill`: the first row, then the rest. */
  lemma ConsRest<E>(a: seq<E>, rs: seq<E>)
    requires |rs| > 0
    ensures a + [rs[0]] + rs[1..] == a + rs
  {
    assert [rs[0]] + rs[1..] == rs;
  }

  /** Builds rows one after another. */
  function Fill<T>(m: Csr<T>, rs: seq<seq<Entry<T>>>): (r: Csr<T>)
    requires Valid(m)
    ensures Valid(r) && NumRows(r) == NumRows(m) + |rs|
    ensures r.numCols == m.numCols && r.zero == m.zero && r.growth == m.growth
    decreases |rs|
  {
    if rs == [] then m
    else Fill(AddFilledRow(m, rs[0]), rs[1..])
  }

  /** `Fill` appends exactly the rows `rs` to the abstract view. */
  lemma {:induction false} FillRows<T>(m: Csr<T>, rs: seq<seq<Entry<T>>>)
    requires Valid(m)
    ensures RowsOf(Fill(m, rs)) == RowsOf(m) + rs
    decreases |rs|
  {
    if rs == [] {
      assert RowsOf(m) + rs == RowsOf(m);
    } else {
      var m1 := AddFilledRow(m, rs[0]);
      FillRows(m1, rs[1..]);
      assert Fill(m, rs) == Fill(m1, rs[1..]);
      ConsRest(RowsOf(m), rs);
    }
  }

  /** Rows `0..i` of two matrices with the same abstract rows occupy the same slots. */
  lemma {:induction false} SamePrefix<T>(a: Csr<T>, b: Csr<T>, i: nat)
    requires Valid(a) && Valid(b) && RowsOf(a) == RowsOf(b) && i <= NumRows(a)
    ensures a.rows.data[i] == b.rows.data[i]
    ensures forall k :: 0 <= k < a.rows.data[i] ==> a.cols.data[k] == b.cols.data[k] && a.data.data[k] == b.data.data[k]
  {
    if i > 0 {
      SamePrefix(a, b, i - 1);
      RowsOfIndex(a);
      RowsOfIndex(b);
      var ra, rb := Row(a, i - 1), Row(b, i - 1);
      assert ra == RowsOf(a)[i - 1] == RowsOf(b)[i - 1] == rb;
      var s := a.rows.data[i - 1];
      forall k | s <= k < a.rows.data[i]
        ensures a.cols.data[k] == b.cols.data[k] && a.data.data[k] == b.data.data[k]
      {
        assert ra[k - s] == rb[k - s];
      }
    }
  }

  /** The stored arrays are determined by the abstract rows alone. */
  lemma Extensional<T>(a: Csr<T>, b: Csr<T>)
    requires Valid(a) && Valid(b) && RowsOf(a) == RowsOf(b)
    ensures a.rows.Contents() == b.rows.Contents()
    ensures a.cols.Contents() == b.cols.Contents()
    ensures a.data.Contents() == b.data.Contents()
  {
    forall i | 0 <= i <= NumRows(a) ensures a.rows.data[i] == b.rows.data[i] {
      SamePrefix(a, b, i);
    }
    SamePrefix(a, b, NumRows(a));
  }

  /**
   * Reusing a matrix through `reset` and rebuilding it gives byte-identical
   * live arrays to building the same rows into a freshly constructed one.
   */
  lemma ResetRebuildIsFresh<T>(used: Csr<T>, n: nat, dataCapacity: nat, rs: seq<seq<Entry<T>>>)
    requires Buffers(used)
    ensures var a := Fill(Reset(used, n), rs);
            var b := Fill(New(n, dataCapacity, used.zero, used.growth), rs);
            && RowsOf(a) == RowsOf(b) == rs
            && a.rows.Contents() == b.rows.Contents()
            && a.cols.Contents() == b.cols.Contents()
            && a.data.Contents() == b.data.Contents()
  {
    var a := Fill(Reset(used, n), rs);
    var b := Fill(New(n, dataCapacity, used.zero, used.growth), rs);
    FillRows(Reset(used, n), rs);
    FillRows(New(n, dataCapacity, used.zero, used.growth), rs);
    assert [] + rs == rs;
    assert RowsOf(a) == RowsOf(b);
    Extensional(a, b);
  }

  /** The sparse form of a dense row: its non-zero positions, in ascending column order. */
  function SparseRow<T(==)>(dense: seq<T>, zero: T, from: nat): (row: seq<Entry<T>>)
    requires from <= |dense|
    ensures forall k :: 0 <= k < |row| ==>
              (from <= row[k].col < |dense| && row[k].val == dense[row[k].col] && row[k].val != zero)
    ensures forall k, p :: 0 <= k < p < |row| ==> row[k].col < row[p].col
    decreases |dense| - from
  {
    if from == |dense| then []
    else
      var rest := SparseRow(dense, zero, from + 1);
      if dense[from] != zero then
        var row := [Entry(from, dense[from])] + rest;
        assert forall k :: 1 <= k < |row| ==> row[k] == rest[k - 1];
        row
      else rest
  }

  /** Every non-zero position of the dense row is listed in its sparse form. */
  lemma {:induction false} SparseRowComplete<T>(dense: seq<T>, zero: T, from: nat, c: int)
    requires from <= c < |dense| && dense[c] != zero
    ensures Entry(c, dense[c]) in SparseRow(dense, zero, from)
    decreases |dense| - from
  {
    if c > from {
      SparseRowComplete(dense, zero, from + 1, c);
    }
  }

  /**
   * Filling a matrix with the sparse forms of dense rows, one `addRow` and
   * then an `append` per nonzero cell, and reading any cell of a new row
   * back gives the dense value.
   */
  lemma FillSparseReadBack<T>(m: Csr<T>, dense: seq<seq<T>>, rs: seq<seq<Entry<T>>>, i: int, j: int)
    requires Valid(m) && |rs| == |dense| && forall k :: 0 <= k < |rs| ==> rs[k] == SparseRow(dense[k], m.zero, 0)
    requires 0 <= i < |dense| && 0 <= j < |dense[i]|
    ensures Lookup(RowsOf(Fill(m, rs))[NumRows(m) + i], j, m.zero) == dense[i][j]
  {
    FillRowAt(m, rs, i);
    LookupSparseRow(dense[i], m.zero, j);
  }

  /** Row `i` of the filled rows sits at `NumRows(m) + i`. */
  lemma FillRowAt<T>(m: Csr<T>, rs: seq<seq<Entry<T>>>, i: int)
    requires Valid(m) && 0 <= i < |rs|
    ensures RowsOf(Fill(m, rs))[NumRows(m) + i] == rs[i]
  {
    FillRows(m, rs);
  }

  /** Looking a column up in the sparse form of a dense row gives back the dense value. */
  lemma LookupSparseRow<T>(dense: seq<T>, zero: T, j: int)
    requires 0 <= j < |dense|
    ensures Lookup(SparseRow(dense, zero, 0), j, zero) == dense[j]
  {
    var row := SparseRow(dense, zero, 0);
    if dense[j] != zero {
      SparseRowComplete(dense, zero, 0, j);
      var k :| 0 <= k < |row| && row[k] == Entry(j, dense[j]);
      assert forall p :: 0 <= p < k ==> row[p].col != j;
    }
  }
}
