/**
 * KMatrixCsr: the loop-incidence matrix kept twice at once, as a dense
 * row-major buffer of doubles (`denseData`, `numCols` slots per row) and as
 * CSR column lists (`rows`/`cols`, no value array). `append` writes the
 * value into the dense slot and records the column in the CSR lists.
 *
 * Two abstract views specify it: `Dense(m)`, the matrix as a sequence of
 * rows, and `Pattern(m)`, the column list of every row.
 */
module KMatrixCsr {
  import opened DynamicArrays
  import opened Strides

  datatype KMatrix = KMatrix(dense: DynArray<real>, rows: DynArray<int>, cols: DynArray<int>, numCols: int)

  ghost predicate Buffers(m: KMatrix) {
    m.dense.Valid() && m.rows.Valid() && m.cols.Valid()
  }

  /**
   * The CSR row pointers are monotone from 0 to `|cols|`, the dense buffer
   * holds `numCols` slots per row, every recorded column lies inside a row,
   * and every backing slot past the live dense part is 0 (so a row opened by
   * `addRow` reads as zeros whether or not the buffer grew).
   */
  ghost predicate Valid(m: KMatrix) {
    Layout(m)
  }

  ghost predicate Layout(m: KMatrix) {
    && Buffers(m)
    && m.numCols >= 0
    && m.rows.size >= 1
    && m.rows.data[0] == 0
    && m.rows.data[m.rows.size - 1] == m.cols.size
    && (forall i :: 0 <= i < m.rows.size ==> 0 <= m.rows.data[i] <= m.cols.size)
    && (forall i, j :: 0 <= i <= j < m.rows.size ==> m.rows.data[i] <= m.rows.data[j])
    && (forall k :: 0 <= k < m.cols.size ==> 0 <= m.cols.data[k] < m.numCols)
    && m.dense.size == RowStart(m.rows.size - 1, m.numCols)
    && (forall k :: m.dense.size <= k < |m.dense.data| ==> m.dense.data[k] == 0.0)
  }

  function NumRows(m: KMatrix): int {
    m.rows.size - 1
  }

  /** `lastRowIdx`: the index of the row `append` writes to. */
  function LastRowIdx(m: KMatrix): (i: int)
    ensures i == NumRows(m) - 1
  {
    m.rows.size - 2
  }

  /** `rowIdx * numCols + colIdx`: where cell `(i, c)` lives in the dense buffer. */
  function Slot(m: KMatrix, i: int, c: int): (s: int)
    requires Valid(m) && 0 <= i < NumRows(m) && 0 <= c < m.numCols
    ensures 0 <= s - c && s - c + m.numCols <= m.dense.size
  {
    RowsApart(i, NumRows(m), m.numCols);
    RowStart(i, m.numCols) + c
  }

  /** Different cells have different slots. */
  lemma SlotsDistinct(m: KMatrix, i: int, c: int, i2: int, c2: int)
    requires Valid(m) && 0 <= i < NumRows(m) && 0 <= c < m.numCols
    requires 0 <= i2 < NumRows(m) && 0 <= c2 < m.numCols && (i, c) != (i2, c2)
    ensures Slot(m, i, c) != Slot(m, i2, c2)
  {
    if i < i2 {
      RowsApart(i, i2, m.numCols);
    } else if i2 < i {
      RowsApart(i2, i, m.numCols);
    }
  }

  /** Row `i` of the dense view. */
  function DenseRow(m: KMatrix, i: int): (row: seq<real>)
    requires Valid(m) && 0 <= i < NumRows(m)
    ensures |row| == m.numCols
  {
    seq(m.numCols, c requires 0 <= c < m.numCols => m.dense.data[Slot(m, i, c)])
  }

  function DenseFrom(m: KMatrix, i: nat): (d: seq<seq<real>>)
    requires Valid(m) && i <= NumRows(m)
    ensures |d| == NumRows(m) - i
    ensures forall k :: 0 <= k < |d| ==> |d[k]| == m.numCols
    decreases NumRows(m) - i
  {
    if i == NumRows(m) then [] else [DenseRow(m, i)] + DenseFrom(m, i + 1)
  }

  /** The matrix as `numRows` rows of `numCols` doubles. */
  function Dense(m: KMatrix): (d: seq<seq<real>>)
    requires Valid(m)
    ensures |d| == NumRows(m)
    ensures forall k :: 0 <= k < |d| ==> |d[k]| == m.numCols
  {
    DenseFrom(m, 0)
  }

  lemma {:induction false} DenseFromIndex(m: KMatrix, i: nat)
    requires Valid(m) && i <= NumRows(m)
    ensures forall k :: 0 <= k < NumRows(m) - i ==> DenseFrom(m, i)[k] == DenseRow(m, i + k)
    decreases NumRows(m) - i
  {
    if i < NumRows(m) {
      DenseFromIndex(m, i + 1);
    }
  }

  /** Row `k` of the dense view is the slot range of row `k`. */
  lemma DenseIndex(m: KMatrix)
    requires Valid(m)
    ensures forall k :: 0 <= k < NumRows(m) ==> Dense(m)[k] == DenseRow(m, k)
  {
    DenseFromIndex(m, 0);
  }

  /** The columns recorded for row `i`, in `append` order. */
  function ColsOf(m: KMatrix, i: int): seq<int>
    requires Valid(m) && 0 <= i < NumRows(m)
  {
    m.cols.data[m.rows.data[i] .. m.rows.data[i + 1]]
  }

  function PatternFrom(m: KMatrix, i: nat): (p: seq<seq<int>>)
    requires Valid(m) && i <= NumRows(m)
    ensures |p| == NumRows(m) - i
    decreases NumRows(m) - i
  {
    if i == NumRows(m) then [] else [ColsOf(m, i)] + PatternFrom(m, i + 1)
  }

  /** The column list of every row. */
  function Pattern(m: KMatrix): (p: seq<seq<int>>)
    requires Valid(m)
    ensures |p| == NumRows(m)
  {
    PatternFrom(m, 0)
  }

  lemma {:induction false} PatternFromIndex(m: KMatrix, i: nat)
    requires Valid(m) && i <= NumRows(m)
    ensures forall k :: 0 <= k < NumRows(m) - i ==> PatternFrom(m, i)[k] == ColsOf(m, i + k)
    decreases NumRows(m) - i
  {
    if i < NumRows(m) {
      PatternFromIndex(m, i + 1);
    }
  }

  lemma PatternIndex(m: KMatrix)
    requires Valid(m)
    ensures forall k :: 0 <= k < NumRows(m) ==> Pattern(m)[k] == ColsOf(m, k)
  {
    PatternFromIndex(m, 0);
  }

  function Zeros(n: nat): (z: seq<real>)
    ensures |z| == n && forall c :: 0 <= c < n ==> z[c] == 0.0
  {
    seq(n, _ => 0.0)
  }

  /** `KMatrixCsr(numCols)`: room for 12 rows, one row pointer `0`. */
  function New(numCols: nat): (m: KMatrix)
    ensures Valid(m) && NumRows(m) == 0 && Dense(m) == [] && Pattern(m) == []
    ensures m.numCols == numCols && m.rows.Contents() == [0] && m.cols.Contents() == []
    ensures m.dense.Capacity() == numCols * 12
  {
    KMatrix(Create(numCols * 12, 0.0), DynamicArrays.Append(Create(12, 0), 0, 0, CopyBuffer),
            Create(numCols / 4 * 12, 0), numCols)
  }

  /** `Arrays.fill(arr.getData(), v)`: every backing slot, live or not. */
  function FillBuffer<T>(a: DynArray<T>, v: T): (r: DynArray<T>)
    requires a.Valid()
    ensures r.Valid() && r.size == a.size && r.Capacity() == a.Capacity()
    ensures forall k :: 0 <= k < r.Capacity() ==> r.data[k] == v
  {
    DynArray(seq(|a.data|, _ => v), a.size)
  }

  /**
   * `reset(numCols)`: zeroes all three backing buffers, then shrinks them to
   * one row pointer and no entries, keeping the capacities.
   */
  function Reset(m: KMatrix, numCols: nat): (r: KMatrix)
    requires Buffers(m)
    ensures Valid(r) && NumRows(r) == 0 && Dense(r) == [] && Pattern(r) == []
    ensures r.numCols == numCols && r.rows.Contents() == [0] && r.cols.Contents() == []
    ensures r.dense.Capacity() == m.dense.Capacity() && r.cols.Capacity() == m.cols.Capacity()
    ensures forall k :: 0 <= k < r.dense.Capacity() ==> r.dense.data[k] == 0.0
  {
    var dense := SetSize(FillBuffer(m.dense, 0.0), 0, 0.0, CopyLive);
    var rows := SetSize(FillBuffer(m.rows, 0), 1, 0, CopyBuffer);
    var cols := SetSize(FillBuffer(m.cols, 0), 0, 0, CopyBuffer);
    assert rows.data[0] == 0;
    KMatrix(dense, rows, cols, numCols)
  }

  /** The state `addRow` leaves behind. */
  function Added(m: KMatrix): KMatrix
    requires Valid(m)
  {
    KMatrix(SetSize(m.dense, m.dense.size + m.numCols, 0.0, CopyLive),
            DynamicArrays.Append(m.rows, m.rows.data[m.rows.size - 1], 0, CopyBuffer),
            m.cols, m.numCols)
  }

  lemma AddedValid(m: KMatrix)
    requires Valid(m)
    ensures Valid(Added(m)) && NumRows(Added(m)) == NumRows(m) + 1
    ensures forall i :: 0 <= i < m.rows.size ==> Added(m).rows.data[i] == m.rows.data[i]
    ensures Added(m).rows.data[m.rows.size] == m.cols.size
    ensures forall k :: 0 <= k < m.dense.size ==> Added(m).dense.data[k] == m.dense.data[k]
    ensures forall k :: m.dense.size <= k < |Added(m).dense.data| ==> Added(m).dense.data[k] == 0.0
  {
    var r := Added(m);
    assert forall i :: 0 <= i < m.rows.size ==> r.rows.data[i] == r.rows.Contents()[i] == m.rows.Contents()[i];
    assert r.rows.data[m.rows.size] == r.rows.Contents()[m.rows.size];
    assert r.dense.size == RowStart(r.rows.size - 1, m.numCols);
  }

  /** `addRow`: a new all-zero dense row and an empty column list; nothing else changes. */
  function AddRow(m: KMatrix): (r: KMatrix)
    requires Valid(m)
    ensures Valid(r) && NumRows(r) == NumRows(m) + 1 && r.numCols == m.numCols
    ensures Dense(r) == Dense(m) + [Zeros(m.numCols)]
    ensures Pattern(r) == Pattern(m) + [[]]
  {
    AddedDense(m);
    AddedPattern(m);
    Added(m)
  }

  /** The dense view after `addRow`: the old rows, then a zero row. */
  lemma AddedDense(m: KMatrix)
    requires Valid(m)
    ensures Valid(Added(m)) && Dense(Added(m)) == Dense(m) + [Zeros(m.numCols)]
  {
    var r := Added(m);
    AddedValid(m);
    var last := NumRows(m);
    forall i | 0 <= i < last ensures DenseRow(r, i) == DenseRow(m, i) {
      forall c | 0 <= c < m.numCols ensures Slot(r, i, c) == Slot(m, i, c) < m.dense.size {
      }
    }
    forall c | 0 <= c < m.numCols ensures m.dense.size <= Slot(r, last, c) {
    }
    assert DenseRow(r, last) == Zeros(m.numCols);
    DenseIndex(m);
    DenseIndex(r);
  }

  /** The column lists after `addRow`: the old ones, then an empty one. */
  lemma AddedPattern(m: KMatrix)
    requires Valid(m)
    ensures Valid(Added(m)) && Pattern(Added(m)) == Pattern(m) + [[]]
  {
    var r := Added(m);
    AddedValid(m);
    assert ColsOf(r, NumRows(m)) == [];
    PatternIndex(m);
    PatternIndex(r);
  }

  /** The state `append(c, v)` leaves behind: `incLast(rows)`, `cols.append(c)`, one dense slot set. */
  function Appended(m: KMatrix, c: int, v: real): KMatrix
    requires Valid(m) && NumRows(m) >= 1 && 0 <= c < m.numCols
  {
    var rows := DynamicArrays.Set(m.rows, m.rows.size - 1, m.rows.data[m.rows.size - 1] + 1);
    KMatrix(DynamicArrays.Set(m.dense, Slot(m, LastRowIdx(m), c), v), rows,
            DynamicArrays.Append(m.cols, c, 0, CopyBuffer), m.numCols)
  }

  lemma AppendedValid(m: KMatrix, c: int, v: real)
    requires Valid(m) && NumRows(m) >= 1 && 0 <= c < m.numCols
    ensures var r := Appended(m, c, v);
            && Valid(r) && NumRows(r) == NumRows(m)
            && (forall i :: 0 <= i < m.rows.size - 1 ==> r.rows.data[i] == m.rows.data[i])
            && r.rows.data[m.rows.size - 1] == m.cols.size + 1
            && (forall k :: 0 <= k < m.cols.size ==> r.cols.data[k] == m.cols.data[k])
            && r.cols.data[m.cols.size] == c
            && r.dense.data == m.dense.data[Slot(m, LastRowIdx(m), c) := v]
  {
    var r := Appended(m, c, v);
    assert forall k :: 0 <= k < m.cols.size ==> r.cols.data[k] == r.cols.Contents()[k] == m.cols.Contents()[k];
    assert r.cols.data[m.cols.size] == r.cols.Contents()[m.cols.size];
    assert forall i :: 0 <= i < m.rows.size - 1 ==> r.rows.data[i] == DynamicArrays.Get(r.rows, i);
  }

  /**
   * `append(c, v)`: the dense cell `(last, c)` becomes `v` and `c` is added
   * to the last row's column list; every other cell and list is unchanged.
   */
  function Append(m: KMatrix, c: int, v: real): (r: KMatrix)
    requires Valid(m) && NumRows(m) >= 1 && 0 <= c < m.numCols
    ensures Valid(r) && NumRows(r) == NumRows(m) && r.numCols == m.numCols
    ensures Dense(r) == Dense(m)[NumRows(m) - 1 := Dense(m)[NumRows(m) - 1][c := v]]
    ensures Pattern(r) == Pattern(m)[NumRows(m) - 1 := Pattern(m)[NumRows(m) - 1] + [c]]
  {
    AppendedDense(m, c, v);
    AppendedPattern(m, c, v);
    Appended(m, c, v)
  }

  /** The dense view after `append(c, v)`: one cell of the last row set. */
  lemma AppendedDense(m: KMatrix, c: int, v: real)
    requires Valid(m) && NumRows(m) >= 1 && 0 <= c < m.numCols
    ensures Valid(Appended(m, c, v)) && NumRows(Appended(m, c, v)) == NumRows(m)
    ensures Dense(Appended(m, c, v)) == Dense(m)[NumRows(m) - 1 := Dense(m)[NumRows(m) - 1][c := v]]
  {
    var r := Appended(m, c, v);
    AppendedValid(m, c, v);
    var last := NumRows(m) - 1;
    forall i, k | 0 <= i < NumRows(m) && 0 <= k < m.numCols && (i, k) != (last, c)
      ensures r.dense.data[Slot(r, i, k)] == m.dense.data[Slot(m, i, k)]
    {
      SlotsDistinct(m, i, k, last, c);
    }
    forall i | 0 <= i < last ensures DenseRow(r, i) == DenseRow(m, i) {
    }
    assert DenseRow(r, last) == DenseRow(m, last)[c := v];
    DenseIndex(m);
    DenseIndex(r);
  }

  /** The column lists after `append(c, v)`: `c` added to the last one. */
  lemma AppendedPattern(m: KMatrix, c: int, v: real)
    requires Valid(m) && NumRows(m) >= 1 && 0 <= c < m.numCols
    ensures Valid(Appended(m, c, v)) && NumRows(Appended(m, c, v)) == NumRows(m)
    ensures Pattern(Appended(m, c, v)) == Pattern(m)[NumRows(m) - 1 := Pattern(m)[NumRows(m) - 1] + [c]]
  {
    var r := Appended(m, c, v);
    AppendedValid(m, c, v);
    var last := NumRows(m) - 1;
    forall i | 0 <= i < last ensures ColsOf(r, i) == ColsOf(m, i) {
    }
    assert ColsOf(r, last) == ColsOf(m, last) + [c];
    PatternIndex(m);
    PatternIndex(r);
  }

  /** `get(rowIdx, colIdx)`: the dense cell. */
  function Get(m: KMatrix, i: int, c: int): (v: real)
    requires Valid(m) && 0 <= i < NumRows(m) && 0 <= c < m.numCols
    ensures v == Dense(m)[i][c]
  {
    DenseIndex(m);
    m.dense.data[Slot(m, i, c)]
  }

  /** `anchor(rowIdx)`: where row `i` starts in the dense buffer. */
  function Anchor(m: KMatrix, i: int): (a: int)
    requires Valid(m) && 0 <= i < NumRows(m)
    ensures 0 <= a && a + m.numCols <= m.dense.size
    ensures forall c :: 0 <= c < m.numCols ==> m.dense.data[a + c] == Dense(m)[i][c]
  {
    RowsApart(i, NumRows(m), m.numCols);
    RowStartIsProduct(i, m.numCols);
    DenseIndex(m);
    i * m.numCols
  }

  /** `csrBegin(rowIdx)`. */
  function CsrBegin(m: KMatrix, i: int): (b: int)
    requires Valid(m) && 0 <= i < NumRows(m)
    ensures 0 <= b <= m.cols.size
  {
    m.rows.data[i]
  }

  /** `csrEnd(rowIdx)`: the CSR range of row `i` holds exactly its column list. */
  function CsrEnd(m: KMatrix, i: int): (e: int)
    requires Valid(m) && 0 <= i < NumRows(m)
    ensures CsrBegin(m, i) <= e <= m.cols.size
    ensures m.cols.Contents()[CsrBegin(m, i) .. e] == Pattern(m)[i]
  {
    PatternIndex(m);
    m.rows.data[i + 1]
  }

  /** Every nonzero dense cell is recorded in its row's column list. */
  ghost predicate Sparse(m: KMatrix)
    requires Valid(m)
  {
    forall i, c :: 0 <= i < NumRows(m) && 0 <= c < m.numCols && Dense(m)[i][c] != 0.0 ==> c in Pattern(m)[i]
  }

  lemma AddRowKeepsSparse(m: KMatrix)
    requires Valid(m) && Sparse(m)
    ensures Sparse(AddRow(m))
  {
  }

  lemma AppendKeepsSparse(m: KMatrix, c: int, v: real)
    requires Valid(m) && NumRows(m) >= 1 && 0 <= c < m.numCols && Sparse(m)
    ensures Sparse(Append(m, c, v))
  {
    var r := Append(m, c, v);
    var last := NumRows(m) - 1;
    forall i, k | 0 <= i < NumRows(r) && 0 <= k < r.numCols && Dense(r)[i][k] != 0.0
      ensures k in Pattern(r)[i]
    {
      if i == last && k != c {
        assert k in Pattern(m)[i];
      }
    }
  }

  /** Appends the nonzero cells `row[from..]` to the last row, in column order. */
  function AppendNonzeros(m: KMatrix, row: seq<real>, from: nat): (r: KMatrix)
    requires Valid(m) && NumRows(m) >= 1 && |row| == m.numCols && from <= |row|
    ensures Valid(r) && NumRows(r) == NumRows(m) && r.numCols == m.numCols
    decreases |row| - from
  {
    if from == |row| then m
    else if row[from] != 0.0 then AppendNonzeros(Append(m, from, row[from]), row, from + 1)
    else AppendNonzeros(m, row, from + 1)
  }

  /** Sequence algebra behind `AppendNonzerosDense`: one more cell taken from `row`. */
  lemma PrefixStep(x: seq<real>, y: seq<real>, row: seq<real>, from: nat)
    requires |x| == |row| && from < |row| && y == x[from := row[from]]
    ensures y[..from + 1] + row[from + 1..] == x[..from] + row[from..]
  {
    assert y[..from + 1] == x[..from] + [row[from]];
    assert row[from..] == [row[from]] + row[from + 1..];
  }

  /**
   * Over a last row whose cells from `from` on are still zero,
   * `AppendNonzeros` makes those cells equal to `row` and leaves every other
   * row and cell alone.
   */
  lemma {:induction false} AppendNonzerosDense(m: KMatrix, row: seq<real>, from: nat)
    requires Valid(m) && NumRows(m) >= 1 && |row| == m.numCols && from <= |row|
    requires Dense(m)[NumRows(m) - 1][from..] == Zeros(|row| - from)
    ensures var d := Dense(AppendNonzeros(m, row, from));
            && d[..NumRows(m) - 1] == Dense(m)[..NumRows(m) - 1]
            && d[NumRows(m) - 1] == Dense(m)[NumRows(m) - 1][..from] + row[from..]
    decreases |row| - from
  {
    var last := NumRows(m) - 1;
    var x := Dense(m)[last];
    if from == |row| {
      assert x[..from] + row[from..] == x;
    } else {
      var m1 := if row[from] != 0.0 then Append(m, from, row[from]) else m;
      assert x[from] == Zeros(|row| - from)[0];
      var y := Dense(m1)[last];
      assert y == x[from := row[from]];
      assert y[from + 1..] == x[from + 1..];
      assert x[from + 1..] == x[from..][1..];
      AppendNonzerosDense(m1, row, from + 1);
      PrefixStep(x, y, row, from);
    }
  }

  /**
   * The fill loop of the class's own test: `addRow`, then `append(j, x)` for
   * every nonzero `x` of the row.
   */
  function FillDense(m: KMatrix, ds: seq<seq<real>>): (r: KMatrix)
    requires Valid(m) && forall i :: 0 <= i < |ds| ==> |ds[i]| == m.numCols
    ensures Valid(r) && NumRows(r) == NumRows(m) + |ds| && r.numCols == m.numCols
    decreases |ds|
  {
    if ds == [] then m
    else FillDense(AppendNonzeros(AddRow(m), ds[0], 0), ds[1..])
  }

  /** Sequence algebra behind `FillOneRow`: a zero row overwritten by `row` is `row`. */
  lemma OverwriteZeroRow(d: seq<seq<real>>, d0: seq<seq<real>>, d1: seq<seq<real>>, row: seq<real>)
    requires d0 == d + [Zeros(|row|)] && |d1| == |d0|
    requires d1[..|d|] == d0[..|d|] && d1[|d|] == d0[|d|][..0] + row[0..]
    ensures d1 == d + [row]
  {
    assert d0[..|d|] == d;
    assert row[0..] == row;
    assert d1[|d|] == row;
    assert d1 == d1[..|d|] + [d1[|d|]];
  }

  /** One row of the fill loop appends exactly that row to the dense view. */
  lemma FillOneRow(m: KMatrix, row: seq<real>)
    requires Valid(m) && |row| == m.numCols
    ensures Dense(AppendNonzeros(AddRow(m), row, 0)) == Dense(m) + [row]
  {
    var m0 := AddRow(m);
    var d, d0 := Dense(m), Dense(m0);
    assert d0[|d|] == Zeros(|row|);
    assert d0[|d|][0..] == Zeros(|row|);
    AppendNonzerosDense(m0, row, 0);
    var d1 := Dense(AppendNonzeros(m0, row, 0));
    OverwriteZeroRow(d, d0, d1, row);
  }

  /** Sequence algebra behind `FillDenseRows`. */
  lemma ConsRows<E>(d: seq<E>, d1: seq<E>, dr: seq<E>, ds: seq<E>)
    requires |ds| >= 1 && d1 == d + [ds[0]] && dr == d1 + ds[1..]
    ensures dr == d + ds
  {
    assert [ds[0]] + ds[1..] == ds;
  }

  /** Filling appends exactly the given rows to the dense view. */
  lemma {:induction false} FillDenseRows(m: KMatrix, ds: seq<seq<real>>)
    requires Valid(m) && forall i :: 0 <= i < |ds| ==> |ds[i]| == m.numCols
    ensures Dense(FillDense(m, ds)) == Dense(m) + ds
    decreases |ds|
  {
    if ds == [] {
      assert Dense(m) + ds == Dense(m);
    } else {
      var m1 := AppendNonzeros(AddRow(m), ds[0], 0);
      FillOneRow(m, ds[0]);
      FillDenseRows(m1, ds[1..]);
      ConsRows(Dense(m), Dense(m1), Dense(FillDense(m1, ds[1..])), ds);
    }
  }

  /** A `reset` followed by a fill reproduces the filled rows exactly, whatever the matrix held before. */
  lemma ResetFillDense(m: KMatrix, numCols: nat, ds: seq<seq<real>>)
    requires Buffers(m) && forall i :: 0 <= i < |ds| ==> |ds[i]| == numCols
    ensures Dense(FillDense(Reset(m, numCols), ds)) == ds
    ensures forall i, c :: 0 <= i < |ds| && 0 <= c < numCols ==> Get(FillDense(Reset(m, numCols), ds), i, c) == ds[i][c]
  {
    FillDenseRows(Reset(m, numCols), ds);
    assert [] + ds == ds;
  }
}
