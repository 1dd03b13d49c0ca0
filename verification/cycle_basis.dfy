/**
 * SchemaGraphCycleBasis: a fundamental cycle basis of a schema graph,
 * written as the rows of an integer CSR matrix (the loop-incidence matrix
 * K: one row per cycle, column = edge index, value +1 or -1 for the
 * direction the cycle crosses the edge).
 *
 * `getCycles` grows a spanning forest breadth-first or depth-first. Each
 * edge seen from a reached vertex that is neither a parent edge nor already
 * flagged closes one cycle; `makePath` walks from both of its ends up the
 * parent edges until the two sides meet and writes the cycle as a row.
 */
module CycleBasis {
  import opened Wrappers
  import SG = SchemaGraph
  import L = ListOfIncidence
  import Csr
  import IMatrixCsr
  import opened Walks
  import opened SpanningForest

  type IMatrix = IMatrixCsr.IMatrix

  /** How the deque is read: `QUEUE_BASED` (breadth-first) or `STACK_BASED` (depth-first). */
  datatype Traversing = QueueBased | StackBased

  // ---------------------------------------------------------------- deque

  /** `push(v)`: the deque grows at the back. */
  function Push(d: seq<int>, v: int): (r: seq<int>)
    ensures |r| == |d| + 1 && r[..|d|] == d && r[|d|] == v
  {
    d + [v]
  }

  /** `pop()`: the front element for `QueueBased`, the back element for `StackBased`. */
  function Pop(d: seq<int>, t: Traversing): (r: (int, seq<int>))
    requires |d| > 0
    ensures |r.1| == |d| - 1 && multiset(d) == multiset(r.1) + multiset{r.0}
    ensures t == QueueBased ==> r.0 == d[0] && r.1 == d[1..]
    ensures t == StackBased ==> r.0 == d[|d| - 1] && r.1 == d[..|d| - 1]
  {
    if t == QueueBased then
      assert d == [d[0]] + d[1..];
      (d[0], d[1..])
    else
      assert d == d[..|d| - 1] + [d[|d| - 1]];
      (d[|d| - 1], d[..|d| - 1])
  }

  /** The order in which popping empties the deque. */
  function Drain(d: seq<int>, t: Traversing): (r: seq<int>)
    decreases |d|
  {
    if d == [] then [] else var (v, rest) := Pop(d, t); [v] + Drain(rest, t)
  }

  /** Queue-based popping returns the pushed vertices in push order. */
  lemma {:induction false} DrainQueue(d: seq<int>)
    ensures Drain(d, QueueBased) == d
    decreases |d|
  {
    if d != [] {
      DrainQueue(d[1..]);
      assert d == [d[0]] + d[1..];
    }
  }

  /** Stack-based popping returns the pushed vertices in reverse push order. */
  lemma {:induction false} DrainStack(d: seq<int>)
    ensures Drain(d, StackBased) == Reverse(d)
    decreases |d|
  {
    if d != [] {
      var n := |d| - 1;
      DrainStack(d[..n]);
      assert Drain(d, StackBased) == [d[n]] + Reverse(d[..n]);
      assert Reverse(d) == [d[n]] + Reverse(d[..n]);
    }
  }

  /** A pop right after a push: stack-based returns the pushed vertex, queue-based the oldest one. */
  lemma PopAfterPush(d: seq<int>, v: int)
    ensures Pop(Push(d, v), StackBased) == (v, d)
    ensures Pop(Push(d, v), QueueBased) == if d == [] then (v, []) else (d[0], Push(d[1..], v))
  {
    assert Push(d, v)[..|d|] == d;
    if d != [] {
      assert Push(d, v)[1..] == Push(d[1..], v);
    }
  }

  // ----------------------------------------------------------- row output

  /**
   * `appendEdge(dest, e, root)`: appends edge `k` to the last row with +1
   * when its source is the current vertex `cur` and -1 otherwise, and moves
   * to the other end. Reading the new entry at `cur` leads to that end.
   */
  function AppendEdge(es: seq<SG.Edge>, dest: IMatrix, k: int, cur: int): (r: (IMatrix, int))
    requires IMatrixCsr.Valid(dest) && Csr.NumRows(dest) >= 1 && 0 <= k < |es|
    ensures IMatrixCsr.Valid(r.0) && Csr.NumRows(r.0) == Csr.NumRows(dest) && r.0.numCols == dest.numCols
    ensures var rs, n := Csr.RowsOf(dest), Csr.NumRows(dest);
      Csr.RowsOf(r.0) == rs[..n - 1] + [rs[n - 1] + [SignedEntry(es, k, cur)]]
    ensures SignedEntry(es, k, cur).val == 1 <==> es[k].src == cur
    ensures SG.Touches(es[k], cur) && es[k].src != es[k].tgt ==> Step(es, cur, SignedEntry(es, k, cur)) == Some(r.1)
  {
    if es[k].src == cur then
      (Csr.Append(dest, k, 1), es[k].tgt)
    else
      (Csr.Append(dest, k, -1), es[k].src)
  }

  /**
   * The loops at the end of `makePath`: append the edges of a walk that
   * starts at `cur` to the last row, one `appendEdge` each. The last row
   * grows by the walk's signed entries and the current vertex ends at the
   * walk's last vertex.
   */
  method EmitEdges(es: seq<SG.Edge>, dest: IMatrix, cur: int, path: seq<int>, ghost w: seq<int>)
    returns (r: IMatrix, last: int)
    requires IMatrixCsr.Valid(dest) && Csr.NumRows(dest) >= 1
    requires Walk(es, path, w) && w[0] == cur
    ensures IMatrixCsr.Valid(r) && Csr.NumRows(r) == Csr.NumRows(dest) && r.numCols == dest.numCols
    ensures var rs, n := Csr.RowsOf(dest), Csr.NumRows(dest);
      Csr.RowsOf(r) == rs[..n - 1] + [rs[n - 1] + Signed(es, path, w)]
    ensures last == w[|path|]
  {
    ghost var rs, n := Csr.RowsOf(dest), Csr.NumRows(dest);
    r, last := dest, cur;
    var i := 0;
    assert Signed(es, path[..0], w[..1]) == [];
    assert rs[n - 1] + [] == rs[n - 1];
    assert rs == rs[..n - 1] + [rs[n - 1]];
    while i < |path|
      invariant 0 <= i <= |path|
      invariant IMatrixCsr.Valid(r) && Csr.NumRows(r) == n && r.numCols == dest.numCols
      invariant Walk(es, path[..i], w[..i + 1])
      invariant Csr.RowsOf(r) == rs[..n - 1] + [rs[n - 1] + Signed(es, path[..i], w[..i + 1])]
      invariant last == w[i]
    {
      ghost var before := Csr.RowsOf(r);
      ghost var s0 := Signed(es, path[..i], w[..i + 1]);
      assert Joins(es[path[i]], w[i], w[i + 1]);
      var step := AppendEdge(es, r, path[i], last);
      r, last := step.0, step.1;
      SignedPrefix(es, path, w, i);
      SignedPrefix(es, path, w, i + 1);
      assert Signed(es, path[..i + 1], w[..i + 2]) == s0 + [SignedEntry(es, path[i], w[i])];
      assert before[..n - 1] == rs[..n - 1] && before[n - 1] == rs[n - 1] + s0;
      assert (rs[n - 1] + s0) + [SignedEntry(es, path[i], w[i])] == rs[n - 1] + (s0 + [SignedEntry(es, path[i], w[i])]);
      i := i + 1;
    }
    assert path[..i] == path && w[..i + 1] == w;
  }

  // --------------------------------------------------------- trimToVertex

  /**
   * What `trimToVertex(path, v)` leaves: a prefix of the path that ends
   * with the first edge of the last run of edges touching `v` (empty when
   * no edge touches `v`); the removed tail is that run's remainder followed
   * by edges not touching `v`.
   */
  ghost predicate TrimmedTo(es: seq<SG.Edge>, path: seq<int>, v: int, r: seq<int>)
    requires forall i :: 0 <= i < |path| ==> 0 <= path[i] < |es|
  {
    && |r| <= |path| && r == path[..|r|]
    && (|r| == 0 <==> forall i :: 0 <= i < |path| ==> !SG.Touches(es[path[i]], v))
    && (|r| > 0 ==> SG.Touches(es[path[|r| - 1]], v))
    && (|r| > 1 ==> !SG.Touches(es[path[|r| - 2]], v))
    && (forall i, j :: |r| <= i < j < |path| && !SG.Touches(es[path[i]], v) ==> !SG.Touches(es[path[j]], v))
  }

  /** `trimToVertex(path, v)`: drops edges not touching `v` from the tail, then the touching run but its first edge. */
  method TrimToVertex(es: seq<SG.Edge>, path: seq<int>, v: int) returns (r: seq<int>)
    requires forall i :: 0 <= i < |path| ==> 0 <= path[i] < |es|
    ensures TrimmedTo(es, path, v, r)
  {
    var lastIdx := |path| - 1;
    while lastIdx >= 0 && !SG.Touches(es[path[lastIdx]], v)
      invariant -1 <= lastIdx < |path|
      invariant forall i :: lastIdx < i < |path| ==> !SG.Touches(es[path[i]], v)
    {
      lastIdx := lastIdx - 1;
    }
    ghost var hit := lastIdx;
    while lastIdx > 0 && SG.Touches(es[path[lastIdx - 1]], v)
      invariant -1 <= lastIdx <= hit
      invariant hit >= 0 ==> 0 <= lastIdx && SG.Touches(es[path[lastIdx]], v)
      invariant hit < 0 ==> lastIdx == -1
      invariant forall i :: lastIdx <= i <= hit && 0 <= i ==> SG.Touches(es[path[i]], v)
    {
      lastIdx := lastIdx - 1;
    }
    r := path[..lastIdx + 1];
  }

  /**
   * On a walk with distinct vertices, trimming to the vertex `w[j]`
   * (`1 <= j <= |p|`) leaves exactly the walk's first `j` edges: the part
   * that ends at `w[j]`.
   */
  lemma TrimOnDistinctWalk(es: seq<SG.Edge>, p: seq<int>, w: seq<int>, j: int, r: seq<int>)
    requires Walk(es, p, w) && Distinct(w) && 1 <= j <= |p|
    requires TrimmedTo(es, p, w[j], r)
    ensures r == p[..j]
  {
    TouchesOnDistinctWalk(es, p, w, j - 1, j);
    TouchesOnDistinctWalk(es, p, w, |r| - 1, j);
    if |r| - 1 == j {
      TouchesOnDistinctWalk(es, p, w, |r| - 2, j);
    }
  }

  // ------------------------------------------------------------- makePath

  /**
   * A closed walk whose last entry is edge `e` and whose other entries are
   * all parent edges of the forest.
   */
  ghost predicate TreeCycle(es: seq<SG.Edge>, forest: seq<Reach>, row: seq<Csr.Entry<int>>, e: int) {
    && ClosedRow(es, row)
    && row[|row| - 1].col == e
    && forall i :: 0 <= i < |row| - 1 ==> IsTreeEdge(forest, row[i].col)
  }

  /** No column appears twice in the row. */
  ghost predicate DistinctCols(row: seq<Csr.Entry<int>>) {
    forall i, j :: 0 <= i < j < |row| ==> row[i].col != row[j].col
  }

  /**
   * A row of the basis: the fundamental cycle of the flagged edge `e`, a
   * closed walk of parent edges closed by `e` that uses no edge twice.
   */
  ghost predicate FundamentalRow(es: seq<SG.Edge>, forest: seq<Reach>, row: seq<Csr.Entry<int>>, e: int) {
    TreeCycle(es, forest, row, e) && DistinctCols(row)
  }

  /**
   * One side `makePath` climbs: a walk with distinct vertices that leaves
   * each vertex from index `s` on by that vertex's parent edge and ends at
   * a root.
   */
  ghost predicate Side(es: seq<SG.Edge>, forest: seq<Reach>, p: seq<int>, w: seq<int>, s: nat) {
    && Walk(es, p, w) && Distinct(w) && s <= |p|
    && (forall i :: 0 <= i < |w| ==> 0 <= w[i] < |forest|)
    && (forall i :: s <= i < |p| ==> forest[w[i]] == Reached(Some(p[i])))
    && forest[w[|p|]] == Reached(None)
  }

  /** The left side: the chain of `x`, ending at its tree's root. */
  lemma LeftSide(es: seq<SG.Edge>, forest: seq<Reach>, rank: seq<nat>, tree: seq<int>, x: int)
    requires Forest(es, forest, rank, tree) && 0 <= x < |forest| && forest[x].Reached?
    ensures var a, la := Chain(es, forest, rank, tree, x), ChainVerts(es, forest, rank, tree, x);
      Side(es, forest, a, la, 0) && la[|a|] == tree[x]
  {
    var a, la := Chain(es, forest, rank, tree, x), ChainVerts(es, forest, rank, tree, x);
    ChainFacts(es, forest, rank, tree, x);
    ChainDistinct(es, forest, rank, tree, x);
    forall i | 0 <= i < |a|
      ensures forest[la[i]] == Reached(Some(a[i]))
    {
      assert forest[la[i]].Reached?;
    }
    assert forest[la[|a|]].Reached?;
  }

  /**
   * The right side: edge `er` from `rootIdx` to its other end `vi`, then
   * `vi`'s chain. Its vertices are distinct when `rootIdx` is not on that
   * chain.
   */
  lemma RightSide(es: seq<SG.Edge>, forest: seq<Reach>, rank: seq<nat>, tree: seq<int>, rootIdx: int, er: int)
    requires Forest(es, forest, rank, tree) && 0 <= rootIdx < |forest|
    requires 0 <= er < |es| && SG.Touches(es[er], rootIdx) && es[er].src != es[er].tgt
    requires var vi := Opposite(es[er], rootIdx);
      0 <= vi < |forest| && forest[vi].Reached? && rootIdx !in ChainVerts(es, forest, rank, tree, vi)
    ensures var vi := Opposite(es[er], rootIdx);
      var b, lb := [er] + Chain(es, forest, rank, tree, vi), [rootIdx] + ChainVerts(es, forest, rank, tree, vi);
      Side(es, forest, b, lb, 1) && lb[|b|] == tree[vi]
  {
    var vi := Opposite(es[er], rootIdx);
    var c, lc := Chain(es, forest, rank, tree, vi), ChainVerts(es, forest, rank, tree, vi);
    var b, lb := [er] + c, [rootIdx] + lc;
    LeftSide(es, forest, rank, tree, vi);
    assert Walk(es, [er], [rootIdx, vi]);
    WalkConcat(es, [er], [rootIdx, vi], c, lc);
    assert [rootIdx, vi] + lc[1..] == lb;
    forall i | 1 <= i < |b|
      ensures forest[lb[i]] == Reached(Some(b[i]))
    {
      assert lb[i] == lc[i - 1] && b[i] == c[i - 1];
    }
    assert lb[|b|] == lc[|c|];
    forall i, j | 0 <= i < j < |lb|
      ensures lb[i] != lb[j]
    {
      assert lb[j] == lc[j - 1];
      if i > 0 {
        assert lb[i] == lc[i - 1];
      }
    }
  }

  /** Vertex `x` carries the current mark: it is on the left side up to `p` or on the right side up to `q`. */
  ghost predicate OnSides(la: seq<int>, p: int, lb: seq<int>, q: int, x: int)
    requires 0 <= p < |la| && 0 <= q < |lb|
  {
    x in la[..p + 1] || x in lb[..q + 1]
  }

  /** The two sides so far share no vertex but their common start. */
  ghost predicate Apart(la: seq<int>, p: int, lb: seq<int>, q: int)
    requires 0 <= p < |la| && 0 <= q < |lb|
  {
    forall i, j :: 0 <= i <= p && 1 <= j <= q ==> la[i] != lb[j]
  }

  /** The marks while the sides climb: exactly the vertices on the sides carry `mark`, none more. */
  ghost predicate MarkState(tmpv: seq<int>, mark: int, la: seq<int>, p: int, lb: seq<int>, q: int)
    requires 0 <= p < |la| && 0 <= q < |lb|
  {
    && (forall x :: 0 <= x < |tmpv| ==> tmpv[x] <= mark && (tmpv[x] == mark <==> OnSides(la, p, lb, q, x)))
    && Apart(la, p, lb, q)
  }

  /**
   * One side steps to `la[p + 1]`: an unmarked vertex gets the mark and the
   * sides stay apart; a marked one lies on the other side past its start.
   */
  lemma StepMarks(tmpv: seq<int>, mark: int, la: seq<int>, p: int, lb: seq<int>, q: int)
    requires 0 <= p && p + 1 < |la| && 0 <= q < |lb| && MarkState(tmpv, mark, la, p, lb, q)
    requires Distinct(la) && la[0] == lb[0] && 0 <= la[p + 1] < |tmpv|
    ensures tmpv[la[p + 1]] < mark ==> MarkState(tmpv[la[p + 1] := mark], mark, la, p + 1, lb, q)
    ensures tmpv[la[p + 1]] >= mark ==> la[p + 1] in lb[..q + 1] && la[p + 1] != lb[0]
  {
    var v := la[p + 1];
    assert la[..p + 2] == la[..p + 1] + [v];
    if tmpv[v] >= mark {
      assert OnSides(la, p, lb, q, v);
      assert v !in la[..p + 1];
    } else {
      assert !OnSides(la, p, lb, q, v);
      forall j | 1 <= j <= q
        ensures v != lb[j]
      {
        assert lb[j] in lb[..q + 1];
      }
    }
  }

  /** The marking state does not depend on which side is called left. */
  lemma MarkStateSwap(tmpv: seq<int>, mark: int, la: seq<int>, p: int, lb: seq<int>, q: int)
    requires 0 <= p < |la| && 0 <= q < |lb| && Distinct(la) && Distinct(lb) && la[0] == lb[0]
    ensures MarkState(tmpv, mark, la, p, lb, q) <==> MarkState(tmpv, mark, lb, q, la, p)
  {
    assert forall x :: OnSides(la, p, lb, q, x) <==> OnSides(lb, q, la, p, x);
    if Apart(la, p, lb, q) {
      forall i, j | 0 <= i <= q && 1 <= j <= p
        ensures lb[i] != la[j]
      {
        if i == 0 {
          assert la[0] != la[j];
        }
      }
    }
    if Apart(lb, q, la, p) {
      forall i, j | 0 <= i <= p && 1 <= j <= q
        ensures la[i] != lb[j]
      {
        if i == 0 {
          assert lb[0] != lb[j];
        }
      }
    }
  }

  /**
   * The step at which one side of `makePath` lands on a vertex `v` the
   * other side has marked: trimming the other side's path to `v` keeps a
   * nonempty prefix of it that ends at `v`.
   */
  lemma MeetAt(es: seq<SG.Edge>, b: seq<int>, lb: seq<int>, q: int, v: int, r: seq<int>)
    requires Walk(es, b, lb) && Distinct(lb) && 0 <= q <= |b|
    requires v in lb[..q + 1] && v != lb[0]
    requires TrimmedTo(es, b[..q], v, r)
    ensures 1 <= |r| <= q && r == b[..|r|] && lb[|r|] == v
  {
    var j :| 0 <= j <= q && lb[j] == v;
    WalkPrefix(es, b, lb, q);
    assert Distinct(lb[..q + 1]);
    assert lb[..q + 1][j] == v;
    TrimOnDistinctWalk(es, b[..q], lb[..q + 1], j, r);
  }

  /** The row `makePath` emits once the sides meet is a closed walk that ends with `b[0]`. */
  lemma MeetingWalk(es: seq<SG.Edge>, a: seq<int>, la: seq<int>, b: seq<int>, lb: seq<int>, left: seq<int>, right: seq<int>)
    requires Walk(es, a, la) && Walk(es, b, lb) && la[0] == lb[0] && |b| >= 1
    requires |left| <= |a| && left == a[..|left|] && 1 <= |right| <= |b| && right == b[..|right|]
    requires la[|left|] == lb[|right|]
    ensures Walk(es, left, la[..|left| + 1]) && Walk(es, Reverse(right), Reverse(lb[..|right| + 1]))
    ensures Reverse(lb[..|right| + 1])[0] == la[..|left| + 1][|left|]
    ensures var row := Signed(es, left, la[..|left| + 1]) + Signed(es, Reverse(right), Reverse(lb[..|right| + 1]));
      ClosedRow(es, row) && row[|row| - 1].col == b[0]
  {
    var w1, w2 := la[..|left| + 1], Reverse(lb[..|right| + 1]);
    WalkPrefix(es, a, la, |left|);
    WalkPrefix(es, b, lb, |right|);
    WalkReverse(es, b[..|right|], lb[..|right| + 1]);
    var rr := Reverse(right);
    SignedConcat(es, left, w1, rr, w2);
    var p, w := left + rr, w1 + w2[1..];
    assert w[0] == la[0];
    assert w[|p|] == w2[|right|] == lb[0];
    ClosedWalkRow(es, p, w);
    var row := Signed(es, p, w);
    assert row[|row| - 1].col == p[|p| - 1] == right[0];
  }

  /** Every entry of that row but the last is a parent edge. */
  lemma MeetingTreeEdges(es: seq<SG.Edge>, forest: seq<Reach>, a: seq<int>, la: seq<int>, b: seq<int>, lb: seq<int>,
                         left: seq<int>, right: seq<int>)
    requires Side(es, forest, a, la, 0) && Side(es, forest, b, lb, 1)
    requires |left| <= |a| && left == a[..|left|] && 1 <= |right| <= |b| && right == b[..|right|]
    requires Walk(es, left, la[..|left| + 1]) && Walk(es, Reverse(right), Reverse(lb[..|right| + 1]))
    ensures var row := Signed(es, left, la[..|left| + 1]) + Signed(es, Reverse(right), Reverse(lb[..|right| + 1]));
      forall i :: 0 <= i < |row| - 1 ==> IsTreeEdge(forest, row[i].col)
  {
    var row := Signed(es, left, la[..|left| + 1]) + Signed(es, Reverse(right), Reverse(lb[..|right| + 1]));
    forall i | 0 <= i < |row| - 1
      ensures IsTreeEdge(forest, row[i].col)
    {
      if i < |left| {
        assert row[i].col == a[i];
        assert forest[la[i]] == Reached(Some(a[i]));
      } else {
        var m := |right| - 1 - (i - |left|);
        assert row[i].col == Reverse(right)[i - |left|] == b[m];
        assert forest[lb[m]] == Reached(Some(b[m]));
      }
    }
  }

  /**
   * The row uses no edge twice when `b[0]` is not a parent edge: the other
   * entries are the parent edges of distinct vertices, the left side's
   * and the right side's past its start.
   */
  lemma MeetingDistinct(es: seq<SG.Edge>, forest: seq<Reach>, rank: seq<nat>, tree: seq<int>,
                        a: seq<int>, la: seq<int>, b: seq<int>, lb: seq<int>, left: seq<int>, right: seq<int>)
    requires Forest(es, forest, rank, tree) && Side(es, forest, a, la, 0) && Side(es, forest, b, lb, 1)
    requires |left| <= |a| && left == a[..|left|] && 1 <= |right| <= |b| && right == b[..|right|]
    requires Walk(es, left, la[..|left| + 1]) && Walk(es, Reverse(right), Reverse(lb[..|right| + 1]))
    requires forall i, j :: 0 <= i < |left| && 1 <= j < |right| ==> la[i] != lb[j]
    requires !IsTreeEdge(forest, b[0])
    ensures DistinctCols(Signed(es, left, la[..|left| + 1]) + Signed(es, Reverse(right), Reverse(lb[..|right| + 1])))
  {
    var row := Signed(es, left, la[..|left| + 1]) + Signed(es, Reverse(right), Reverse(lb[..|right| + 1]));
    MeetingTreeEdges(es, forest, a, la, b, lb, left, right);
    assert row[|row| - 1].col == b[0] by {
      assert row[|row| - 1].col == Reverse(right)[|right| - 1] == right[0];
    }
    forall i, j | 0 <= i < j < |row|
      ensures row[i].col != row[j].col
    {
      if j == |row| - 1 {
        assert IsTreeEdge(forest, row[i].col);
      } else {
        var xi := ChildAt(es, forest, a, la, b, lb, left, right, i);
        var xj := ChildAt(es, forest, a, la, b, lb, left, right, j);
        if row[i].col == row[j].col {
          ParentEdgeOnce(es, forest, rank, tree, xi, xj, row[i].col);
        }
      }
    }
  }

  /**
   * Entry `i` of the row, not the last, is the parent edge of `la[i]` on
   * the left side, or of `lb[m]` (`m >= 1`) on the reversed right side.
   */
  lemma ChildAt(es: seq<SG.Edge>, forest: seq<Reach>, a: seq<int>, la: seq<int>, b: seq<int>, lb: seq<int>,
                left: seq<int>, right: seq<int>, i: int) returns (x: int)
    requires Side(es, forest, a, la, 0) && Side(es, forest, b, lb, 1)
    requires |left| <= |a| && left == a[..|left|] && 1 <= |right| <= |b| && right == b[..|right|]
    requires Walk(es, left, la[..|left| + 1]) && Walk(es, Reverse(right), Reverse(lb[..|right| + 1]))
    requires 0 <= i < |left| + |right| - 1
    ensures var row := Signed(es, left, la[..|left| + 1]) + Signed(es, Reverse(right), Reverse(lb[..|right| + 1]));
      0 <= x < |forest| && forest[x] == Reached(Some(row[i].col))
    ensures i < |left| ==> x == la[i]
    ensures i >= |left| ==> x == lb[|right| - 1 - (i - |left|)] && |right| - 1 - (i - |left|) >= 1
  {
    var row := Signed(es, left, la[..|left| + 1]) + Signed(es, Reverse(right), Reverse(lb[..|right| + 1]));
    if i < |left| {
      assert row[i].col == a[i];
      x := la[i];
    } else {
      var m := |right| - 1 - (i - |left|);
      assert row[i].col == Reverse(right)[i - |left|] == b[m];
      x := lb[m];
    }
  }

  /**
   * One side's turn in the loop of `makePath`: the side (`mine`, a prefix
   * of `a` ending at `cur`) takes edge `e`, the next of `a`, and reaches the
   * next vertex of `la`. Unmarked, it gets the mark; marked, it lies on the
   * other side, whose path is trimmed to it, and the sides have met.
   */
  method Advance(es: seq<SG.Edge>, tmpv: seq<int>, mark: int, cur: int, e: int, mine: seq<int>, other: seq<int>,
                 ghost a: seq<int>, ghost la: seq<int>, ghost b: seq<int>, ghost lb: seq<int>)
    returns (tmpv1: seq<int>, mine1: seq<int>, other1: seq<int>, cur1: int, met: bool)
    requires Walk(es, a, la) && Distinct(la) && Walk(es, b, lb) && Distinct(lb) && la[0] == lb[0]
    requires forall i :: 0 <= i < |la| ==> 0 <= la[i] < |tmpv|
    requires |mine| < |a| && mine == a[..|mine|] && cur == la[|mine|] && e == a[|mine|]
    requires |other| <= |b| && other == b[..|other|]
    requires MarkState(tmpv, mark, la, |mine|, lb, |other|)
    ensures |tmpv1| == |tmpv| && mine1 == a[..|mine| + 1] && cur1 == la[|mine| + 1]
    ensures !met ==> other1 == other && MarkState(tmpv1, mark, la, |mine1|, lb, |other|)
    ensures met ==> (forall x :: 0 <= x < |tmpv1| ==> tmpv1[x] <= mark)
                    && 1 <= |other1| <= |other| && other1 == b[..|other1|] && lb[|other1|] == cur1
                    && forall i, j :: 0 <= i <= |mine| && 1 <= j < |other1| ==> la[i] != lb[j]
  {
    ghost var p := |mine|;
    assert Joins(es[a[p]], la[p], la[p + 1]);
    StepMarks(tmpv, mark, la, p, lb, |other|);
    mine1 := mine + [e];
    assert mine1 == a[..p + 1];
    cur1 := Opposite(es[e], cur);
    if tmpv[cur1] < mark {
      tmpv1, other1, met := tmpv[cur1 := mark], other, false;
    } else {
      tmpv1, met := tmpv, true;
      other1 := TrimToVertex(es, other, cur1);
      MeetAt(es, b, lb, |other|, cur1, other1);
    }
  }

  /**
   * The `while` loop of `makePath`. Starting with only `rootIdx` marked,
   * the left side (`a`, through `la`) and the right side (`b`, through
   * `lb`) advance one edge each in turn, marking the vertex they reach;
   * a side that reaches a vertex already marked trims the other side to it
   * and stops the loop. Both sides end at the same root, so the loop always
   * stops this way, with the two kept paths meeting at one vertex.
   */
  method ClimbSides(es: seq<SG.Edge>, forest: seq<Reach>, tmpv: seq<int>, mark: int, rootIdx: int, el: Option<int>, er: int,
                    ghost a: seq<int>, ghost la: seq<int>, ghost b: seq<int>, ghost lb: seq<int>)
    returns (tmpv1: seq<int>, left: seq<int>, right: seq<int>)
    requires Side(es, forest, a, la, 0) && Side(es, forest, b, lb, 1)
    requires la[0] == rootIdx && lb[0] == rootIdx && la[|a|] == lb[|b|] && |b| >= 1 && b[0] == er
    requires el == if |a| > 0 then Some(a[0]) else None
    requires |tmpv| == |forest| && forall x :: 0 <= x < |tmpv| ==> tmpv[x] <= mark && (tmpv[x] == mark <==> x == rootIdx)
    ensures |tmpv1| == |tmpv| && forall x :: 0 <= x < |tmpv1| ==> tmpv1[x] <= mark
    ensures |left| <= |a| && left == a[..|left|] && 1 <= |right| <= |b| && right == b[..|right|]
    ensures la[|left|] == lb[|right|]
    ensures forall i, j :: 0 <= i < |left| && 1 <= j < |right| ==> la[i] != lb[j]
  {
    tmpv1 := tmpv;
    var vl, vr := rootIdx, rootIdx;
    var l, r := el, Some(er);
    left, right := [], [];
    assert MarkState(tmpv1, mark, la, 0, lb, 0);
    while l.Some? || r.Some?
      invariant |tmpv1| == |forest|
      invariant |left| <= |a| && left == a[..|left|] && vl == la[|left|]
      invariant l == if |left| < |a| then Some(a[|left|]) else None
      invariant |right| <= |b| && right == b[..|right|] && vr == lb[|right|]
      invariant r == if |right| < |b| then Some(b[|right|]) else None
      invariant MarkState(tmpv1, mark, la, |left|, lb, |right|)
      invariant l.Some? || r.Some?
      decreases |a| - |left| + |b| - |right|
    {
      if l.Some? {
        var met;
        tmpv1, left, right, vl, met := Advance(es, tmpv1, mark, vl, l.value, left, right, a, la, b, lb);
        if met {
          break;
        }
        l := forest[vl].parent;
      }
      if r.Some? {
        var met;
        MarkStateSwap(tmpv1, mark, la, |left|, lb, |right|);
        tmpv1, right, left, vr, met := Advance(es, tmpv1, mark, vr, r.value, right, left, b, lb, a, la);
        if met {
          break;
        }
        MarkStateSwap(tmpv1, mark, la, |left|, lb, |right|);
        r := forest[vr].parent;
      }
      if l.None? && r.None? {
        // both sides at the shared root: the right side would have met the left there
        assert false;
      }
    }
  }

  /**
   * An edge `er` from `rootIdx` to a vertex whose chain avoids `rootIdx`
   * is no parent edge unless it is `rootIdx`'s own.
   */
  lemma ErNotParent(es: seq<SG.Edge>, forest: seq<Reach>, rank: seq<nat>, tree: seq<int>, rootIdx: int, er: int)
    requires Forest(es, forest, rank, tree) && 0 <= rootIdx < |forest| && forest[rootIdx] != Reached(Some(er))
    requires 0 <= er < |es| && SG.Touches(es[er], rootIdx) && es[er].src != es[er].tgt
    requires var vi := Opposite(es[er], rootIdx);
      0 <= vi < |forest| && forest[vi].Reached? && rootIdx !in ChainVerts(es, forest, rank, tree, vi)
    ensures !IsTreeEdge(forest, er)
  {
    var vi := Opposite(es[er], rootIdx);
    assert ParentOk(es, forest, rank, tree, vi);
    if forest[vi].parent.Some? {
      assert ChainVerts(es, forest, rank, tree, vi)[1] == Opposite(es[forest[vi].parent.value], vi);
    }
    forall x | 0 <= x < |forest|
      ensures forest[x] != Reached(Some(er))
    {
      assert ParentOk(es, forest, rank, tree, x);
    }
  }

  /**
   * `makePath(rootIdx, el, er, dest)`: `er` is an edge from `rootIdx` to a
   * reached vertex `vi` in the same tree, and `rootIdx` is not an ancestor
   * of `vi` (it does not lie on `vi`'s parent chain); `el` is `rootIdx`'s
   * parent edge. Under a fresh mark the two sides climb
   * until they meet, and the new last row is the left side followed by the
   * right side reversed: the fundamental cycle of `er`.
   */
  method MakePath(es: seq<SG.Edge>, forest: seq<Reach>, tmpv: seq<int>, mark: int, dest: IMatrix,
                  rootIdx: int, el: Option<int>, er: int, ghost rank: seq<nat>, ghost tree: seq<int>)
    returns (tmpv1: seq<int>, mark1: int, dest1: IMatrix)
    requires Forest(es, forest, rank, tree) && |tmpv| == |forest|
    requires forall x :: 0 <= x < |tmpv| ==> tmpv[x] <= mark
    requires IMatrixCsr.Valid(dest)
    requires 0 <= rootIdx < |forest| && forest[rootIdx].Reached? && el == forest[rootIdx].parent
    requires 0 <= er < |es| && SG.Touches(es[er], rootIdx) && es[er].src != es[er].tgt
    requires var vi := Opposite(es[er], rootIdx);
      0 <= vi < |forest| && forest[vi].Reached? && tree[vi] == tree[rootIdx]
      && rootIdx !in ChainVerts(es, forest, rank, tree, vi)
    ensures |tmpv1| == |tmpv| && mark1 == mark + 1
    ensures forall x :: 0 <= x < |tmpv1| ==> tmpv1[x] <= mark1
    ensures IMatrixCsr.Valid(dest1) && dest1.numCols == dest.numCols
    ensures Csr.NumRows(dest1) == Csr.NumRows(dest) + 1 && Csr.RowsOf(dest1)[..Csr.NumRows(dest)] == Csr.RowsOf(dest)
    ensures TreeCycle(es, forest, Csr.RowsOf(dest1)[Csr.NumRows(dest)], er)
    ensures el != Some(er) ==> FundamentalRow(es, forest, Csr.RowsOf(dest1)[Csr.NumRows(dest)], er)
  {
    ghost var vi := Opposite(es[er], rootIdx);
    ghost var a, la := Chain(es, forest, rank, tree, rootIdx), ChainVerts(es, forest, rank, tree, rootIdx);
    ghost var b, lb := [er] + Chain(es, forest, rank, tree, vi), [rootIdx] + ChainVerts(es, forest, rank, tree, vi);
    LeftSide(es, forest, rank, tree, rootIdx);
    RightSide(es, forest, rank, tree, rootIdx, er);
    assert el == if |a| > 0 then Some(a[0]) else None;

    mark1 := mark + 1;
    tmpv1 := tmpv[rootIdx := mark1];
    var left, right;
    tmpv1, left, right := ClimbSides(es, forest, tmpv1, mark1, rootIdx, el, er, a, la, b, lb);

    ghost var w1, w2 := la[..|left| + 1], Reverse(lb[..|right| + 1]);
    MeetingWalk(es, a, la, b, lb, left, right);
    MeetingTreeEdges(es, forest, a, la, b, lb, left, right);
    if el != Some(er) {
      ErNotParent(es, forest, rank, tree, rootIdx, er);
      MeetingDistinct(es, forest, rank, tree, a, la, b, lb, left, right);
    }
    ghost var rows := Csr.RowsOf(dest);
    dest1 := Csr.AddRow(dest);
    var cur := rootIdx;
    dest1, cur := EmitEdges(es, dest1, cur, left, w1);
    dest1, cur := EmitEdges(es, dest1, cur, Reverse(right), w2);
    ghost var row := Signed(es, left, w1) + Signed(es, Reverse(right), w2);
    assert Csr.RowsOf(dest1) == rows + [row] by {
      assert (rows + [[]])[..|rows|] == rows;
      assert [] + Signed(es, left, w1) == Signed(es, left, w1);
    }
  }
}
