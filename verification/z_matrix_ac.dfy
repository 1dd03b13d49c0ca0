/**
 * ZMatrixAc: the AC branch-impedance matrix. Row `i` owns a fixed block of
 * `maxLineIdx` slots starting at `i * maxLineIdx`; `begins[i]` marks the
 * block start and `ends[i]` the next free slot. Entries are a column index
 * and a complex value held in the parallel arrays `cols`, `res`, `ims`.
 */
module ZMatrixAc {
  import opened Strides

  datatype AcMatrix = AcMatrix(res: seq<real>, ims: seq<real>, cols: seq<int>, begins: seq<int>, ends: seq<int>)

  /** One stored entry of a row. */
  datatype AcEntry = AcEntry(col: int, re: real, im: real)

  /** The parallel arrays agree in length and so do the row markers. */
  predicate Shaped(m: AcMatrix) {
    |m.ims| == |m.res| && |m.cols| == |m.res| && |m.ends| == |m.begins|
  }

  /**
   * The layout for a block width of `stride` (the constructor's
   * `maxLineIdx`, which the object does not keep): each row's block starts
   * at its stride multiple and is filled from its start without overflowing.
   */
  ghost predicate Valid(m: AcMatrix, stride: nat) {
    && Shaped(m)
    && |m.res| == RowStart(|m.begins|, stride)
    && (forall i :: 0 <= i < |m.begins| ==> m.begins[i] == RowStart(i, stride))
    && (forall i :: 0 <= i < |m.begins| ==> m.begins[i] <= m.ends[i] <= m.begins[i] + stride)
    && (forall i :: 0 <= i < |m.begins| ==> m.begins[i] + stride <= |m.res|)
  }

  /** `size()`: the number of rows. */
  function Size(m: AcMatrix): nat {
    |m.begins|
  }

  /** The entries of row `i`, in insertion order. */
  function Row(m: AcMatrix, i: int): (row: seq<AcEntry>)
    requires Shaped(m) && 0 <= i < |m.begins|
    requires 0 <= m.begins[i] <= m.ends[i] <= |m.res|
    ensures |row| == m.ends[i] - m.begins[i]
  {
    seq(m.ends[i] - m.begins[i], k requires 0 <= k < m.ends[i] - m.begins[i] && Shaped(m) && 0 <= m.begins[i] && m.ends[i] <= |m.res| =>
          AcEntry(m.cols[m.begins[i] + k], m.res[m.begins[i] + k], m.ims[m.begins[i] + k]))
  }

  /** The `(size, maxLineIdx)` constructor: `size` empty rows of `maxLineIdx` slots each. */
  function New(size: nat, maxLineIdx: nat): (m: AcMatrix)
    ensures Valid(m, maxLineIdx) && Size(m) == size
    ensures |m.res| == size * maxLineIdx
    ensures forall i :: 0 <= i < size ==> m.begins[i] == i * maxLineIdx && Row(m, i) == []
  {
    RowStartIsProduct(size, maxLineIdx);
    BlocksInside(size, maxLineIdx);
    var starts := seq(size, i requires 0 <= i => RowStart(i, maxLineIdx));
    var capacity := RowStart(size, maxLineIdx);
    AcMatrix(seq(capacity, _ => 0.0), seq(capacity, _ => 0.0), seq(capacity, _ => 0), starts, starts)
  }

  /** The blocks of `size` rows, `stride` slots each, start at the products and fit in `size * stride` slots. */
  lemma BlocksInside(size: nat, stride: nat)
    ensures forall i :: 0 <= i < size ==> RowStart(i, stride) == i * stride
    ensures forall i :: 0 <= i < size ==> RowStart(i, stride) + stride <= RowStart(size, stride)
  {
    forall i | 0 <= i < size
      ensures RowStart(i, stride) == i * stride
      ensures RowStart(i, stride) + stride <= RowStart(size, stride)
    {
      RowStartIsProduct(i, stride);
      RowsApart(i, size, stride);
    }
  }

  /**
   * `add(rowIdx, colIdx, re, im)`: writes the entry at `ends[rowIdx]` and
   * advances that marker. The source checks neither bound; the Java array
   * accesses demand a row that exists and a slot inside the arrays.
   */
  function Add(m: AcMatrix, r: int, c: int, re: real, im: real): (res: AcMatrix)
    requires Shaped(m) && 0 <= r < |m.begins| && 0 <= m.ends[r] < |m.res|
    ensures Shaped(res) && Size(res) == Size(m) && res.begins == m.begins
  {
    var idx := m.ends[r];
    AcMatrix(m.res[idx := re], m.ims[idx := im], m.cols[idx := c], m.begins, m.ends[r := idx + 1])
  }

  /**
   * While row `r` has room in its block, `add` appends the entry to row `r`
   * and leaves every other row as it was.
   */
  lemma AddAppends(m: AcMatrix, stride: nat, r: int, c: int, re: real, im: real)
    requires Valid(m, stride) && 0 <= r < |m.begins| && m.ends[r] < m.begins[r] + stride
    ensures m.ends[r] < |m.res|
    ensures Valid(Add(m, r, c, re, im), stride)
    ensures Row(Add(m, r, c, re, im), r) == Row(m, r) + [AcEntry(c, re, im)]
    ensures forall i :: 0 <= i < |m.begins| && i != r ==> Row(Add(m, r, c, re, im), i) == Row(m, i)
  {
    var a := Add(m, r, c, re, im);
    assert Row(a, r) == Row(m, r) + [AcEntry(c, re, im)];
    forall i | 0 <= i < |m.begins| && i != r
      ensures Row(a, i) == Row(m, i)
    {
      if i < r {
        RowsApart(i, r, stride);
      } else {
        RowsApart(r, i, stride);
      }
      assert forall k :: 0 <= k < |Row(m, i)| ==> Row(a, i)[k] == Row(m, i)[k];
    }
  }
}
