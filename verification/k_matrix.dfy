/**
 * KMatrix: the dense loop-incidence matrix of the AC solver. `data` holds
 * the byte cells; `nzi[r]` is a per-row index: `nzi[r][0]` counts the
 * listed columns and `nzi[r][1 .. count]` lists them.
 */
module KMatrix {
  import opened JavaInts

  datatype Matrix = Matrix(data: seq<seq<int>>, nzi: seq<seq<int>>)

  /**
   * Every row has an index whose count fits its index array; the index
   * covers the first `|nzi[r]| - 1` cells of the row (its width).
   */
  ghost predicate Valid(m: Matrix) {
    && |m.nzi| == |m.data|
    && (forall r :: 0 <= r < |m.nzi| ==>
          1 <= |m.nzi[r]| <= |m.data[r]| + 1 && 0 <= m.nzi[r][0] < |m.nzi[r]|)
  }

  function Width(m: Matrix, r: int): int
    requires Valid(m) && 0 <= r < |m.data|
  {
    |m.nzi[r]| - 1
  }

  /** The columns listed for row `r`, in listing order. */
  function Listed(m: Matrix, r: int): seq<int>
    requires Valid(m) && 0 <= r < |m.data|
  {
    m.nzi[r][1 .. m.nzi[r][0] + 1]
  }

  /** Every nonzero cell within the index width is listed in its row's index. */
  ghost predicate Indexed(m: Matrix)
    requires Valid(m)
  {
    forall r, c :: 0 <= r < |m.data| && 0 <= c < Width(m, r) && m.data[r][c] != 0 ==> c in Listed(m, r)
  }

  function NumRows(m: Matrix): int {
    |m.data|
  }

  /** `numCols()` reads the length of row 0, so it needs a row. */
  function NumCols(m: Matrix): int
    requires |m.data| > 0
  {
    |m.data[0]|
  }

  /** `KMatrix(nRows, nCols)`: all cells zero, every row index empty. */
  function New(nRows: nat, nCols: nat): (m: Matrix)
    ensures Valid(m) && Indexed(m) && NumRows(m) == nRows
    ensures forall r :: 0 <= r < nRows ==> |m.data[r]| == nCols && |m.nzi[r]| == nCols + 1 && Listed(m, r) == []
    ensures forall r, c :: 0 <= r < nRows && 0 <= c < nCols ==> m.data[r][c] == 0
  {
    Matrix(seq(nRows, _ => seq(nCols, _ => 0)), seq(nRows, _ => seq(nCols + 1, _ => 0)))
  }

  /** Reference definition: the nonzero columns of `row`, ascending. */
  function NonzeroCols(row: seq<int>): seq<int>
  {
    if row == [] then []
    else NonzeroCols(row[..|row| - 1]) + (if row[|row| - 1] != 0 then [|row| - 1] else [])
  }

  /** `NonzeroCols` lists exactly the nonzero positions, strictly ascending. */
  lemma {:induction false} NonzeroColsSpec(row: seq<int>)
    ensures forall c :: c in NonzeroCols(row) <==> 0 <= c < |row| && row[c] != 0
    ensures forall i, j :: 0 <= i < j < |NonzeroCols(row)| ==> NonzeroCols(row)[i] < NonzeroCols(row)[j]
    ensures |NonzeroCols(row)| <= |row|
  {
    if row != [] {
      var init := row[..|row| - 1];
      NonzeroColsSpec(init);
      forall c ensures c in NonzeroCols(row) <==> 0 <= c < |row| && row[c] != 0 {
        if 0 <= c < |row| - 1 {
          assert init[c] == row[c];
        }
      }
      var l := NonzeroCols(init);
      assert forall i :: 0 <= i < |l| ==> l[i] in l && l[i] < |row| - 1;
    }
  }

  /** The index array `nzi[r]` the constructor builds for a row of `n` cells. */
  ghost predicate IndexOf(z: seq<int>, row: seq<int>, n: nat)
    requires n <= |row|
  {
    var l := NonzeroCols(row[..n]);
    && |z| == n + 1
    && z[0] == |l|
    && |l| <= n
    && z[1 .. |l| + 1] == l
    && forall k :: |l| + 1 <= k <= n ==> z[k] == 0
  }

  /** The inner loop of `KMatrix(byte[][])` for one row. */
  method IndexRow(row: seq<int>, n: nat) returns (z: seq<int>)
    requires n <= |row| && n < 32768
    ensures IndexOf(z, row, n)
  {
    z := seq(n + 1, _ => 0);
    var c := 0;
    while c < n
      invariant 0 <= c <= n
      invariant |z| == n + 1
      invariant z[0] == |NonzeroCols(row[..c])| <= c
      invariant z[1 .. z[0] + 1] == NonzeroCols(row[..c])
      invariant forall k :: z[0] + 1 <= k <= n ==> z[k] == 0
    {
      assert row[..c + 1][..c] == row[..c];
      if row[c] != 0 {
        var cnt := ToShort(z[0] + 1);
        z := z[0 := cnt];
        z := z[cnt := ToShort(c)];
      }
      c := c + 1;
    }
    assert row[..n] == row[..c];
  }

  /**
   * `KMatrix(byte[][] data)`: keeps `data` and indexes every row's nonzero
   * columns in ascending order. It reads `data[0].length` as the column
   * count, so it needs a first row, rows at least that long, and a column
   * count the `short` loop counter can reach.
   */
  method FromData(data: seq<seq<int>>) returns (m: Matrix)
    requires |data| > 0 && |data[0]| < 32768
    requires forall r :: 0 <= r < |data| ==> |data[r]| >= |data[0]|
    ensures m.data == data && Valid(m) && Indexed(m)
    ensures forall r :: 0 <= r < |data| ==> IndexOf(m.nzi[r], data[r], |data[0]|)
    ensures forall r :: 0 <= r < |data| ==> Listed(m, r) == NonzeroCols(data[r][..|data[0]|])
  {
    var n := |data[0]|;
    var nzi: seq<seq<int>> := [];
    var r := 0;
    while r < |data|
      invariant 0 <= r <= |data| && |nzi| == r
      invariant forall i :: 0 <= i < r ==> IndexOf(nzi[i], data[i], n)
    {
      var z := IndexRow(data[r], n);
      nzi := nzi + [z];
      r := r + 1;
    }
    m := Matrix(data, nzi);
    forall r, c | 0 <= r < |data| && 0 <= c < Width(m, r) && data[r][c] != 0
      ensures c in Listed(m, r)
    {
      NonzeroColsSpec(data[r][..n]);
      assert data[r][..n][c] == data[r][c];
    }
  }

  /**
   * `set(r, c, v)`: a zero `v` changes nothing (an existing entry is not
   * cleared); otherwise the cell takes `(byte) v` and `(short) c` is listed
   * after the row's current entries, with no duplicate check. The source
   * does not check that the row's index has room, so that is required here.
   */
  function Set(m: Matrix, r: int, c: int, v: int): (res: Matrix)
    requires Valid(m) && 0 <= r < |m.data| && 0 <= c < |m.data[r]|
    requires v != 0 ==> m.nzi[r][0] + 1 < |m.nzi[r]| && m.nzi[r][0] + 1 < 32768
    ensures Valid(res) && |res.data| == |m.data|
    ensures v == 0 ==> res == m
    ensures v != 0 ==> res.data == m.data[r := m.data[r][c := ToByte(v)]]
    ensures v != 0 ==> Listed(res, r) == Listed(m, r) + [ToShort(c)]
    ensures forall i :: 0 <= i < |m.data| ==> |res.nzi[i]| == |m.nzi[i]|
    ensures forall i :: 0 <= i < |m.data| && i != r ==> res.nzi[i] == m.nzi[i]
  {
    if v == 0 then m
    else
      var idx := ToShort(m.nzi[r][0] + 1);
      var index := m.nzi[r][0 := idx][idx := ToShort(c)];
      var res := Matrix(m.data[r := m.data[r][c := ToByte(v)]], m.nzi[r := index]);
      assert Listed(res, r) == Listed(m, r) + [ToShort(c)];
      res
  }

  /** `set` keeps every nonzero cell listed, for a column a `short` can hold. */
  lemma SetKeepsIndexed(m: Matrix, r: int, c: int, v: int)
    requires Valid(m) && Indexed(m) && 0 <= r < |m.data| && 0 <= c < |m.data[r]| && IsShort(c)
    requires v != 0 ==> m.nzi[r][0] + 1 < |m.nzi[r]| && m.nzi[r][0] + 1 < 32768
    ensures Indexed(Set(m, r, c, v))
  {
    var res := Set(m, r, c, v);
    if v != 0 {
      forall i, k | 0 <= i < |res.data| && 0 <= k < Width(res, i) && res.data[i][k] != 0
        ensures k in Listed(res, i)
      {
        if i == r && k != c {
          assert m.data[i][k] != 0;
          assert k in Listed(m, i);
        } else if i != r {
          assert Listed(res, i) == Listed(m, i);
        }
      }
    }
  }
}
