/**
 * The traversal of `SchemaGraphCycleBasis.getCycles`: every vertex not yet
 * reached starts a new tree; the deque hands out reached vertices, and
 * scanning a vertex's incidence range either reaches a new vertex (its
 * parent edge is the edge it was reached by) or, for an edge to a vertex
 * already reached that is not flagged yet, flags it and writes its
 * fundamental cycle with `makePath`.
 *
 * The ghost `Trace` explains the run: `rank` and `tree` give depth and root
 * of each reached vertex, `done` tells which vertices have been scanned and
 * `gens` which edge each row was written for.
 */
module CycleSearch {
  import opened Wrappers
  import SG = SchemaGraph
  import L = ListOfIncidence
  import Csr
  import IMatrixCsr
  import opened Walks
  import opened SpanningForest
  import opened CycleBasis
  import BasisSize

  /** The fields `getCycles` works on: `spanningForest`, `deque`, `tmpv`, `tmpe` and `mark`. */
  datatype Search = Search(forest: seq<Reach>, deque: seq<int>, tmpv: seq<int>, tmpe: seq<int>, mark: int)

  datatype Trace = Trace(rank: seq<nat>, tree: seq<int>, done: seq<bool>, gens: seq<int>)

  /** `init(traversing)`: no vertex reached, every vertex mark and edge flag zero, the deque empty, `mark == 0`. */
  function Init(g: SG.Graph): (s: Search)
    ensures |s.forest| == |g.vertices| && |s.tmpv| == |g.vertices| && |s.tmpe| == |g.edges|
    ensures s.deque == [] && s.mark == 0
    ensures forall x :: 0 <= x < |g.vertices| ==> s.forest[x] == Unreached && s.tmpv[x] == 0
    ensures forall k :: 0 <= k < |g.edges| ==> s.tmpe[k] == 0
  {
    Search(seq(|g.vertices|, _ => Unreached), [], seq(|g.vertices|, _ => 0), seq(|g.edges|, _ => 0), 0)
  }

  /** `resetOrCreate(dest)`: a new matrix, or the given one emptied with its buffers kept; one column per edge. */
  function ResetOrCreate(dest: Option<IMatrix>, numCols: nat): (r: IMatrix)
    requires dest.Some? ==> IMatrixCsr.Valid(dest.value)
    ensures IMatrixCsr.Valid(r) && r.numCols == numCols && Csr.RowsOf(r) == []
    ensures dest.Some? ==> r.cols.Capacity() == dest.value.cols.Capacity() && r.data.Capacity() == dest.value.data.Capacity()
  {
    match dest
    case None => IMatrixCsr.New(numCols)
    case Some(m) => Csr.Reset(m, numCols)
  }

  /** The number of scanned vertices. */
  function CountDone(done: seq<bool>): (n: nat)
    ensures n <= |done|
  {
    if done == [] then 0 else CountDone(done[..|done| - 1]) + (if done[|done| - 1] then 1 else 0)
  }

  /** Marking one more vertex scanned raises the count by one. */
  lemma {:induction false} CountDoneSet(done: seq<bool>, v: int)
    requires 0 <= v < |done| && !done[v]
    ensures CountDone(done[v := true]) == CountDone(done) + 1
    decreases |done|
  {
    var n := |done| - 1;
    var d := done[v := true];
    if v < n {
      assert d[..n] == done[..n][v := true];
      CountDoneSet(done[..n], v);
    } else {
      assert d[..n] == done[..n];
    }
  }

  // ------------------------------------------------------------ invariant

  ghost predicate Sized(g: SG.Graph, s: Search, tr: Trace) {
    && |s.forest| == |g.vertices| && |s.tmpv| == |g.vertices| && |s.tmpe| == |g.edges|
    && |tr.rank| == |g.vertices| && |tr.tree| == |g.vertices| && |tr.done| == |g.vertices|
  }

  /** Vertex marks never exceed `mark`; edge flags are 0 or 1. */
  ghost predicate Marks(s: Search) {
    && (forall x :: 0 <= x < |s.tmpv| ==> s.tmpv[x] <= s.mark)
    && (forall k :: 0 <= k < |s.tmpe| ==> s.tmpe[k] == 0 || s.tmpe[k] == 1)
  }

  /**
   * Edge `e` at vertex `x` is accounted for: its other end is reached in
   * the same tree, and `e` is the parent edge of one of its ends or flagged.
   */
  ghost predicate Settled(es: seq<SG.Edge>, s: Search, tr: Trace, x: int, e: int)
    requires |tr.tree| == |s.forest| && |s.tmpe| == |es| && 0 <= x < |s.forest| && 0 <= e < |es|
  {
    var nb := Opposite(es[e], x);
    && 0 <= nb < |s.forest| && s.forest[nb].Reached? && tr.tree[nb] == tr.tree[x]
    && (s.forest[x] == Reached(Some(e)) || s.forest[nb] == Reached(Some(e)) || s.tmpe[e] == 1)
  }

  /** Entry `i` of vertex `x`'s incidence range is an edge that is accounted for. */
  ghost predicate Handled(g: SG.Graph, s: Search, tr: Trace, x: int, i: int)
    requires SG.Shape(g) && Sized(g, s, tr) && 0 <= x < |g.vertices| && 0 <= i < |L.EdgesOf(g.loi, x)|
  {
    var o := L.EdgesOf(g.loi, x)[i];
    o.Some? && 0 <= o.value < |g.edges| && Settled(g.edges, s, tr, x, o.value)
  }

  ghost predicate Scanned(g: SG.Graph, s: Search, tr: Trace, x: int)
    requires SG.Shape(g) && Sized(g, s, tr) && 0 <= x < |g.vertices|
  {
    forall i :: 0 <= i < |L.EdgesOf(g.loi, x)| ==> Handled(g, s, tr, x, i)
  }

  /** Every scanned vertex is reached and has all its edges accounted for. */
  ghost predicate Closed(g: SG.Graph, s: Search, tr: Trace)
    requires SG.Shape(g) && Sized(g, s, tr)
  {
    forall x :: 0 <= x < |g.vertices| && tr.done[x] ==> s.forest[x].Reached? && Scanned(g, s, tr, x)
  }

  /**
   * The parent of a reached vertex has been scanned or is being scanned
   * (`cur`); the parent of a scanned vertex has been scanned.
   */
  ghost predicate ParentSettled(es: seq<SG.Edge>, s: Search, tr: Trace, cur: Option<int>, x: int)
    requires |tr.done| == |s.forest| && 0 <= x < |s.forest|
  {
    match s.forest[x]
    case Reached(Some(e)) =>
      0 <= e < |es| && var p := Opposite(es[e], x);
      0 <= p < |tr.done| && (tr.done[p] || cur == Some(p)) && (tr.done[x] ==> tr.done[p])
    case _ => true
  }

  ghost predicate ParentsSettled(es: seq<SG.Edge>, s: Search, tr: Trace, cur: Option<int>)
    requires |tr.done| == |s.forest|
  {
    forall x :: 0 <= x < |s.forest| ==> ParentSettled(es, s, tr, cur, x)
  }

  /** Vertex `x` is reached, not scanned yet, in the tree of `root`. */
  ghost predicate Waiting(s: Search, tr: Trace, root: int, x: int)
    requires |tr.done| == |s.forest| && |tr.tree| == |s.forest|
  {
    0 <= x < |s.forest| && s.forest[x].Reached? && !tr.done[x] && tr.tree[x] == root
  }

  /**
   * The deque holds distinct waiting vertices other than `cur`, which is
   * waiting too; every reached vertex not scanned is in the deque or `cur`.
   */
  ghost predicate Frontier(s: Search, tr: Trace, root: int, cur: Option<int>)
    requires |tr.done| == |s.forest| && |tr.tree| == |s.forest|
  {
    && (forall i :: 0 <= i < |s.deque| ==> Waiting(s, tr, root, s.deque[i]) && cur != Some(s.deque[i]))
    && (forall i, j :: 0 <= i < j < |s.deque| ==> s.deque[i] != s.deque[j])
    && (cur.Some? ==> Waiting(s, tr, root, cur.value))
    && (forall x :: 0 <= x < |s.forest| && s.forest[x].Reached? && !tr.done[x] ==> x in s.deque || cur == Some(x))
  }

  /**
   * Row `r` is the fundamental cycle of the flagged edge `gens[r]`; the
   * flagged edges are exactly the `gens`, each once.
   */
  ghost predicate RowsOk(es: seq<SG.Edge>, s: Search, dest: IMatrix, gens: seq<int>)
    requires |s.tmpe| == |es|
  {
    && IMatrixCsr.Valid(dest) && dest.numCols == |es| && |gens| == Csr.NumRows(dest)
    && (forall r :: 0 <= r < |gens| ==>
          0 <= gens[r] < |es| && s.tmpe[gens[r]] == 1 && FundamentalRow(es, s.forest, Csr.RowsOf(dest)[r], gens[r]))
    && (forall r1, r2 :: 0 <= r1 < r2 < |gens| ==> gens[r1] != gens[r2])
    && (forall k :: 0 <= k < |es| && s.tmpe[k] == 1 ==> k in gens)
  }

  /** The invariant of the traversal while the tree of `root` grows and `cur` (if any) is scanned. */
  ghost predicate Inv(g: SG.Graph, s: Search, dest: IMatrix, tr: Trace, root: int, cur: Option<int>) {
    && SG.Valid(g) && Sized(g, s, tr)
    && Forest(g.edges, s.forest, tr.rank, tr.tree) && Marks(s)
    && RowsOk(g.edges, s, dest, tr.gens)
    && Closed(g, s, tr) && ParentsSettled(g.edges, s, tr, cur)
    && Frontier(s, tr, root, cur)
  }

  /**
   * From `s`, `tr` to `s'`, `tr'`: reached vertices keep their parent edge,
   * depth and tree, flags stay set and scanned vertices stay scanned.
   */
  ghost predicate Grows(s: Search, tr: Trace, s': Search, tr': Trace)
    requires |s'.forest| == |s.forest| && |tr.tree| == |s.forest| && |tr'.tree| == |s.forest|
    requires |tr.rank| == |s.forest| && |tr'.rank| == |s.forest| && |tr.done| == |s.forest| && |tr'.done| == |s.forest|
    requires |s'.tmpe| == |s.tmpe|
  {
    && (forall x :: 0 <= x < |s.forest| && s.forest[x].Reached? ==>
          s'.forest[x] == s.forest[x] && tr'.tree[x] == tr.tree[x] && tr'.rank[x] == tr.rank[x])
    && (forall k :: 0 <= k < |s.tmpe| && s.tmpe[k] == 1 ==> s'.tmpe[k] == 1)
    && (forall x :: 0 <= x < |s.forest| && tr.done[x] ==> tr'.done[x])
  }

  /** If flagged, edge `k` joins two reached vertices and is the parent edge of neither. */
  ghost predicate FlagOk(es: seq<SG.Edge>, forest: seq<Reach>, tmpe: seq<int>, k: int)
    requires 0 <= k < |tmpe|
  {
    tmpe[k] == 1 ==>
      && 0 <= k < |es| && 0 <= es[k].src < |forest| && 0 <= es[k].tgt < |forest|
      && forest[es[k].src].Reached? && forest[es[k].tgt].Reached? && !IsTreeEdge(forest, k)
  }

  ghost predicate FlagsOk(es: seq<SG.Edge>, forest: seq<Reach>, tmpe: seq<int>) {
    forall k :: 0 <= k < |tmpe| ==> FlagOk(es, forest, tmpe, k)
  }

  /** If `x` was reached from `cur`, its parent edge sits at no slot of `cur`'s range from `j` on. */
  ghost predicate ChildSeen(g: SG.Graph, forest: seq<Reach>, cur: int, j: int, x: int)
    requires SG.Shape(g) && 0 <= cur < |g.vertices| && L.Begin(g.loi, cur) <= j <= L.End(g.loi, cur) && 0 <= x < |forest|
  {
    forest[x].Reached? && forest[x].parent.Some? ==>
      var e := forest[x].parent.value;
      0 <= e < |g.edges| && Opposite(g.edges[e], x) == cur ==>
        forall i :: j - L.Begin(g.loi, cur) <= i < |L.EdgesOf(g.loi, cur)| ==> L.EdgesOf(g.loi, cur)[i] != Some(e)
  }

  /** While `cur` is scanned: every vertex reached from `cur` so far was reached over a slot before `j`. */
  ghost predicate ChildrenSeen(g: SG.Graph, forest: seq<Reach>, cur: int, j: int)
    requires SG.Shape(g) && 0 <= cur < |g.vertices| && L.Begin(g.loi, cur) <= j <= L.End(g.loi, cur)
  {
    forall x :: 0 <= x < |forest| ==> ChildSeen(g, forest, cur, j, x)
  }

  // ------------------------------------------------------- growth lemmas

  lemma GrowsTrans(g: SG.Graph, s: Search, tr: Trace, s1: Search, tr1: Trace, s2: Search, tr2: Trace)
    requires Sized(g, s, tr) && Sized(g, s1, tr1) && Sized(g, s2, tr2)
    requires Grows(s, tr, s1, tr1) && Grows(s1, tr1, s2, tr2)
    ensures Grows(s, tr, s2, tr2)
  {
  }

  /** A parent edge stays a parent edge as the forest grows. */
  lemma RowGrows(es: seq<SG.Edge>, forest: seq<Reach>, forest': seq<Reach>, row: seq<Csr.Entry<int>>, e: int)
    requires |forest'| == |forest|
    requires forall x :: 0 <= x < |forest| && forest[x].Reached? ==> forest'[x] == forest[x]
    requires FundamentalRow(es, forest, row, e)
    ensures FundamentalRow(es, forest', row, e)
  {
    forall i | 0 <= i < |row| - 1
      ensures IsTreeEdge(forest', row[i].col)
    {
      assert IsTreeEdge(forest, row[i].col);
      var x :| 0 <= x < |forest| && forest[x] == Reached(Some(row[i].col));
      assert forest'[x] == forest[x];
    }
  }

  /** An accounted-for edge stays accounted for. */
  lemma HandledGrows(g: SG.Graph, s: Search, tr: Trace, s': Search, tr': Trace, x: int, i: int)
    requires SG.Shape(g) && Sized(g, s, tr) && Sized(g, s', tr') && Grows(s, tr, s', tr')
    requires 0 <= x < |g.vertices| && s.forest[x].Reached? && 0 <= i < |L.EdgesOf(g.loi, x)|
    requires Handled(g, s, tr, x, i)
    ensures Handled(g, s', tr', x, i)
  {
  }

  /** Scanned vertices stay scanned and accounted for when nothing new is scanned. */
  lemma ClosedGrows(g: SG.Graph, s: Search, tr: Trace, s': Search, tr': Trace)
    requires SG.Shape(g) && Sized(g, s, tr) && Sized(g, s', tr') && Grows(s, tr, s', tr') && tr'.done == tr.done
    requires Closed(g, s, tr)
    ensures Closed(g, s', tr')
  {
    forall x | 0 <= x < |g.vertices| && tr'.done[x]
      ensures s'.forest[x].Reached? && Scanned(g, s', tr', x)
    {
      forall i | 0 <= i < |L.EdgesOf(g.loi, x)|
        ensures Handled(g, s', tr', x, i)
      {
        HandledGrows(g, s, tr, s', tr', x, i);
      }
    }
  }

  /** The rows stay fundamental cycles as the forest grows. */
  lemma RowsGrow(es: seq<SG.Edge>, s: Search, s': Search, dest: IMatrix, gens: seq<int>)
    requires |s.tmpe| == |es| && s'.tmpe == s.tmpe && |s'.forest| == |s.forest|
    requires forall x :: 0 <= x < |s.forest| && s.forest[x].Reached? ==> s'.forest[x] == s.forest[x]
    requires RowsOk(es, s, dest, gens)
    ensures RowsOk(es, s', dest, gens)
  {
    forall r | 0 <= r < |gens|
      ensures FundamentalRow(es, s'.forest, Csr.RowsOf(dest)[r], gens[r])
    {
      RowGrows(es, s.forest, s'.forest, Csr.RowsOf(dest)[r], gens[r]);
    }
  }

  // -------------------------------------------------------- tree lemmas

  /** Everything above a scanned vertex has been scanned. */
  lemma {:induction false} AncestorsDone(g: SG.Graph, s: Search, tr: Trace, cur: Option<int>, x: int)
    requires Sized(g, s, tr) && Forest(g.edges, s.forest, tr.rank, tr.tree)
    requires ParentsSettled(g.edges, s, tr, cur)
    requires 0 <= x < |s.forest| && s.forest[x].Reached? && tr.done[x]
    ensures forall v :: v in ChainVerts(g.edges, s.forest, tr.rank, tr.tree, x) ==> 0 <= v < |tr.done| && tr.done[v]
    decreases tr.rank[x]
  {
    assert ParentOk(g.edges, s.forest, tr.rank, tr.tree, x);
    assert ParentSettled(g.edges, s, tr, cur, x);
    match s.forest[x].parent
    case None =>
      assert ChainVerts(g.edges, s.forest, tr.rank, tr.tree, x) == [x];
    case Some(e) =>
      var p := Opposite(g.edges[e], x);
      AncestorsDone(g, s, tr, cur, p);
      assert ChainVerts(g.edges, s.forest, tr.rank, tr.tree, x) == [x] + ChainVerts(g.edges, s.forest, tr.rank, tr.tree, p);
  }

  /**
   * While `cur` is scanned, the vertices strictly above it have been
   * scanned and rank below it.
   */
  lemma AboveCur(g: SG.Graph, s: Search, tr: Trace, cur: int, i: int)
    requires Sized(g, s, tr) && Forest(g.edges, s.forest, tr.rank, tr.tree)
    requires ParentsSettled(g.edges, s, tr, Some(cur))
    requires 0 <= cur < |s.forest| && s.forest[cur].Reached?
    requires 1 <= i < |ChainVerts(g.edges, s.forest, tr.rank, tr.tree, cur)|
    ensures var w := ChainVerts(g.edges, s.forest, tr.rank, tr.tree, cur);
      0 <= w[i] < |s.forest| && s.forest[w[i]].Reached? && tr.done[w[i]] && tr.rank[w[i]] < tr.rank[cur]
  {
    ChainFacts(g.edges, s.forest, tr.rank, tr.tree, cur);
    assert ParentOk(g.edges, s.forest, tr.rank, tr.tree, cur);
    assert ParentSettled(g.edges, s, tr, Some(cur), cur);
    var e := s.forest[cur].parent.value;
    var p := Opposite(g.edges[e], cur);
    AncestorsDone(g, s, tr, Some(cur), p);
    var w, w' := ChainVerts(g.edges, s.forest, tr.rank, tr.tree, cur), ChainVerts(g.edges, s.forest, tr.rank, tr.tree, p);
    assert w == [cur] + w';
    assert w[i] == w'[i - 1];
    assert tr.rank[w[i]] < tr.rank[w[0]];
  }

  /** The other end of an edge out of `cur` that is already reached lies in `cur`'s tree. */
  lemma SameTree(g: SG.Graph, s: Search, tr: Trace, root: int, cur: int, e: int)
    requires SG.Valid(g) && Sized(g, s, tr) && Closed(g, s, tr) && Frontier(s, tr, root, Some(cur))
    requires 0 <= e < |g.edges| && SG.Touches(g.edges[e], cur)
    requires var ov := Opposite(g.edges[e], cur); 0 <= ov < |s.forest| && s.forest[ov].Reached?
    ensures tr.tree[Opposite(g.edges[e], cur)] == tr.tree[cur]
  {
    var ov := Opposite(g.edges[e], cur);
    if tr.done[ov] {
      SettledAtScanned(g, s, tr, ov, e);
    } else {
      assert ov in s.deque || ov == cur;
      if ov in s.deque {
        var k :| 0 <= k < |s.deque| && s.deque[k] == ov;
        assert Waiting(s, tr, root, s.deque[k]);
      }
    }
  }

  /** An edge at a scanned vertex is accounted for there. */
  lemma SettledAtScanned(g: SG.Graph, s: Search, tr: Trace, x: int, e: int)
    requires SG.Shape(g) && SG.Complete(g) && Sized(g, s, tr) && Closed(g, s, tr)
    requires 0 <= e < |g.edges| && 0 <= x < |g.vertices| && SG.Touches(g.edges[e], x) && tr.done[x]
    ensures Settled(g.edges, s, tr, x, e)
  {
    var j := SG.EdgeInRange(g, e, x);
    L.EdgesOfSlot(g.loi, x, j);
    assert Scanned(g, s, tr, x);
    assert Handled(g, s, tr, x, j - L.Begin(g.loi, x));
  }

  /**
   * An edge out of `cur`, not its parent edge and not flagged, never leads
   * back to a vertex on `cur`'s own way up: such a vertex was scanned, and
   * scanning it would have made the edge its parent edge, putting it below
   * `cur`.
   */
  lemma NotOnOwnChain(g: SG.Graph, s: Search, tr: Trace, cur: int, e: int)
    requires SG.Valid(g) && Sized(g, s, tr) && Forest(g.edges, s.forest, tr.rank, tr.tree) && Closed(g, s, tr)
    requires ParentsSettled(g.edges, s, tr, Some(cur)) && 0 <= cur < |s.forest| && s.forest[cur].Reached?
    requires 0 <= e < |g.edges| && SG.Touches(g.edges[e], cur)
    requires s.forest[cur] != Reached(Some(e)) && s.tmpe[e] == 0
    ensures Opposite(g.edges[e], cur) !in ChainVerts(g.edges, s.forest, tr.rank, tr.tree, cur)
  {
    var ov := Opposite(g.edges[e], cur);
    var w := ChainVerts(g.edges, s.forest, tr.rank, tr.tree, cur);
    forall i | 0 <= i < |w|
      ensures w[i] != ov
    {
      if i > 0 {
        AboveCur(g, s, tr, cur, i);
        if tr.done[ov] {
          ScannedEnd(g, s, tr, cur, e);
        }
      }
    }
  }

  /**
   * An edge out of `cur` that is neither `cur`'s parent edge nor flagged,
   * seen from its other end already scanned: scanning that end made the
   * edge its parent edge, so that end lies one level below `cur`.
   */
  lemma ScannedEnd(g: SG.Graph, s: Search, tr: Trace, cur: int, e: int)
    requires SG.Valid(g) && Sized(g, s, tr) && Forest(g.edges, s.forest, tr.rank, tr.tree) && Closed(g, s, tr)
    requires 0 <= cur < |s.forest| && 0 <= e < |g.edges| && SG.Touches(g.edges[e], cur)
    requires s.forest[cur] != Reached(Some(e)) && s.tmpe[e] == 0
    requires var ov := Opposite(g.edges[e], cur); 0 <= ov < |s.forest| && tr.done[ov]
    ensures var ov := Opposite(g.edges[e], cur); s.forest[ov] == Reached(Some(e)) && tr.rank[cur] < tr.rank[ov]
  {
    var ov := Opposite(g.edges[e], cur);
    assert Joins(g.edges[e], cur, ov);
    SettledAtScanned(g, s, tr, ov, e);
    assert Opposite(g.edges[e], ov) == cur;
    assert ParentOk(g.edges, s.forest, tr.rank, tr.tree, ov);
  }

  // ------------------------------------------------------ scanning steps

  /** Edge `e` at `cur` is `cur`'s parent edge or flagged: nothing to do, and it is accounted for. */
  lemma SkipSettles(g: SG.Graph, s: Search, dest: IMatrix, tr: Trace, root: int, cur: int, e: int)
    requires Inv(g, s, dest, tr, root, Some(cur))
    requires 0 <= e < |g.edges| && SG.Touches(g.edges[e], cur)
    requires s.forest[cur] == Reached(Some(e)) ||
             (var ov := Opposite(g.edges[e], cur); 0 <= ov < |s.forest| && s.forest[ov].Reached? && s.tmpe[e] == 1)
    ensures Settled(g.edges, s, tr, cur, e)
  {
    assert ParentOk(g.edges, s.forest, tr.rank, tr.tree, cur);
    if s.forest[cur] != Reached(Some(e)) {
      SameTree(g, s, tr, root, cur, e);
    }
  }

  /** Reaching `ov` over `e` from `cur` one level deeper in `cur`'s tree keeps the forest a forest. */
  lemma ReachForest(es: seq<SG.Edge>, forest: seq<Reach>, rank: seq<nat>, tree: seq<int>, cur: int, e: int, ov: int,
                    f': seq<Reach>, r': seq<nat>, t': seq<int>)
    requires Forest(es, forest, rank, tree) && 0 <= cur < |forest| && forest[cur].Reached?
    requires 0 <= e < |es| && Joins(es[e], cur, ov) && 0 <= ov < |forest| && forest[ov] == Unreached
    requires f' == forest[ov := Reached(Some(e))] && r' == rank[ov := rank[cur] + 1] && t' == tree[ov := tree[cur]]
    ensures Forest(es, f', r', t')
  {
    assert Opposite(es[e], ov) == cur;
    forall x | 0 <= x < |f'|
      ensures ParentOk(es, f', r', t', x)
    {
      if x != ov {
        assert ParentOk(es, forest, rank, tree, x);
      }
    }
  }

  /** The new child's parent is `cur`; nothing else changes for the others. */
  lemma ReachParents(es: seq<SG.Edge>, s: Search, tr: Trace, cur: int, e: int, ov: int, s': Search, tr': Trace)
    requires |tr.done| == |s.forest| && ParentsSettled(es, s, tr, Some(cur)) && 0 <= cur < |s.forest|
    requires 0 <= e < |es| && Joins(es[e], cur, ov) && 0 <= ov < |s.forest| && !tr.done[ov]
    requires s'.forest == s.forest[ov := Reached(Some(e))] && tr'.done == tr.done
    ensures ParentsSettled(es, s', tr', Some(cur))
  {
    assert Opposite(es[e], ov) == cur;
    forall x | 0 <= x < |s'.forest|
      ensures ParentSettled(es, s', tr', Some(cur), x)
    {
      if x != ov {
        assert ParentSettled(es, s, tr, Some(cur), x);
      }
    }
  }

  /** The new child waits at the back of the deque. */
  lemma ReachFrontier(s: Search, tr: Trace, root: int, cur: int, e: int, ov: int, s': Search, tr': Trace)
    requires |tr.done| == |s.forest| && |tr.tree| == |s.forest| && Frontier(s, tr, root, Some(cur))
    requires 0 <= ov < |s.forest| && s.forest[ov] == Unreached && !tr.done[ov] && ov != cur
    requires s' == s.(forest := s.forest[ov := Reached(Some(e))], deque := Push(s.deque, ov))
    requires tr'.done == tr.done && tr'.tree == tr.tree[ov := tr.tree[cur]]
    ensures Frontier(s', tr', root, Some(cur))
  {
    assert Waiting(s, tr, root, cur);
    forall i | 0 <= i < |s'.deque|
      ensures Waiting(s', tr', root, s'.deque[i]) && Some(cur) != Some(s'.deque[i])
    {
      if i < |s.deque| {
        assert Waiting(s, tr, root, s.deque[i]);
      }
    }
    forall i, j | 0 <= i < j < |s'.deque|
      ensures s'.deque[i] != s'.deque[j]
    {
      if j == |s.deque| {
        assert Waiting(s, tr, root, s.deque[i]);
      }
    }
    forall x | 0 <= x < |s'.forest| && s'.forest[x].Reached? && !tr'.done[x]
      ensures x in s'.deque || Some(cur) == Some(x)
    {
      if x != ov {
        assert x in s.deque || Some(cur) == Some(x);
      }
    }
  }

  /**
   * Scanning `cur` meets edge `e` to an unreached `ov`: `ov` is reached with
   * parent edge `e`, one level below `cur` in its tree, and joins the back
   * of the deque.
   */
  ghost predicate ReachStep(g: SG.Graph, s: Search, tr: Trace, cur: int, e: int, s': Search, tr': Trace)
    requires Sized(g, s, tr) && 0 <= cur < |s.forest|
  {
    && 0 <= e < |g.edges| && SG.Touches(g.edges[e], cur) && s.forest[cur] != Reached(Some(e))
    && var ov := Opposite(g.edges[e], cur);
       && 0 <= ov < |s.forest| && s.forest[ov] == Unreached
       && s' == s.(forest := s.forest[ov := Reached(Some(e))], deque := Push(s.deque, ov))
       && tr' == tr.(rank := tr.rank[ov := tr.rank[cur] + 1], tree := tr.tree[ov := tr.tree[cur]])
  }

  /** Reaching `ov` over `e` from `cur` keeps the invariant and settles `e`. */
  lemma ReachKeeps(g: SG.Graph, s: Search, dest: IMatrix, tr: Trace, root: int, cur: int, e: int,
                    s': Search, tr': Trace)
    requires Inv(g, s, dest, tr, root, Some(cur)) && ReachStep(g, s, tr, cur, e, s', tr')
    ensures Inv(g, s', dest, tr', root, Some(cur)) && Grows(s, tr, s', tr') && tr'.done == tr.done
    ensures Settled(g.edges, s', tr', cur, e)
  {
    assert Waiting(s, tr, root, cur);
    ReachTree(g, s, tr, cur, e, s', tr');
    ReachGrows(g, s, dest, tr, root, cur, e, s', tr');
    ReachClosed(g, s, dest, tr, root, cur, e, s', tr');
    ReachSettlesParents(g, s, dest, tr, root, cur, e, s', tr');
    ReachWaits(g, s, dest, tr, root, cur, e, s', tr');
  }

  /** Reaching `ov` keeps the forest a forest. */
  lemma ReachTree(g: SG.Graph, s: Search, tr: Trace, cur: int, e: int, s': Search, tr': Trace)
    requires Sized(g, s, tr) && Forest(g.edges, s.forest, tr.rank, tr.tree)
    requires 0 <= cur < |s.forest| && s.forest[cur].Reached? && ReachStep(g, s, tr, cur, e, s', tr')
    ensures Sized(g, s', tr') && Forest(g.edges, s'.forest, tr'.rank, tr'.tree)
  {
    var ov := Opposite(g.edges[e], cur);
    assert Joins(g.edges[e], cur, ov);
    ReachForest(g.edges, s.forest, tr.rank, tr.tree, cur, e, ov, s'.forest, tr'.rank, tr'.tree);
  }

  /** Reaching `ov` only adds to the forest, keeps marks and rows, and settles `e`. */
  lemma ReachGrows(g: SG.Graph, s: Search, dest: IMatrix, tr: Trace, root: int, cur: int, e: int,
                    s': Search, tr': Trace)
    requires Inv(g, s, dest, tr, root, Some(cur)) && ReachStep(g, s, tr, cur, e, s', tr')
    ensures Sized(g, s', tr') && Grows(s, tr, s', tr') && tr'.done == tr.done
    ensures Marks(s') && RowsOk(g.edges, s', dest, tr'.gens) && Settled(g.edges, s', tr', cur, e)
  {
    var ov := Opposite(g.edges[e], cur);
    assert Joins(g.edges[e], cur, ov);
    assert Waiting(s, tr, root, cur);
    RowsGrow(g.edges, s, s', dest, tr.gens);
  }

  /** Reaching `ov` keeps scanned vertices closed. */
  lemma ReachClosed(g: SG.Graph, s: Search, dest: IMatrix, tr: Trace, root: int, cur: int, e: int,
                     s': Search, tr': Trace)
    requires Inv(g, s, dest, tr, root, Some(cur)) && ReachStep(g, s, tr, cur, e, s', tr')
    ensures Sized(g, s', tr') && Closed(g, s', tr')
  {
    ClosedGrows(g, s, tr, s', tr');
  }

  /** `ov`, reached from `cur`, has its parent being scanned. */
  lemma ReachSettlesParents(g: SG.Graph, s: Search, dest: IMatrix, tr: Trace, root: int, cur: int, e: int,
                             s': Search, tr': Trace)
    requires Inv(g, s, dest, tr, root, Some(cur)) && ReachStep(g, s, tr, cur, e, s', tr')
    ensures Sized(g, s', tr') && ParentsSettled(g.edges, s', tr', Some(cur))
  {
    var ov := Opposite(g.edges[e], cur);
    assert Joins(g.edges[e], cur, ov);
    assert !tr.done[ov];
    ReachParents(g.edges, s, tr, cur, e, ov, s', tr');
  }

  /** `ov` waits at the back of the deque. */
  lemma ReachWaits(g: SG.Graph, s: Search, dest: IMatrix, tr: Trace, root: int, cur: int, e: int,
                    s': Search, tr': Trace)
    requires Inv(g, s, dest, tr, root, Some(cur)) && ReachStep(g, s, tr, cur, e, s', tr')
    ensures Sized(g, s', tr') && Frontier(s', tr', root, Some(cur))
  {
    var ov := Opposite(g.edges[e], cur);
    assert Waiting(s, tr, root, cur);
    assert !tr.done[ov];
    ReachFrontier(s, tr, root, cur, e, ov, s', tr');
  }

  /** Appending the row of a newly flagged edge keeps the rows in step with the flags. */
  lemma FlagRows(es: seq<SG.Edge>, s: Search, dest: IMatrix, gens: seq<int>, e: int, s': Search, dest': IMatrix)
    requires |s.tmpe| == |es| && RowsOk(es, s, dest, gens)
    requires 0 <= e < |es| && s.tmpe[e] == 0
    requires s'.forest == s.forest && s'.tmpe == s.tmpe[e := 1]
    requires IMatrixCsr.Valid(dest') && dest'.numCols == dest.numCols
    requires Csr.NumRows(dest') == Csr.NumRows(dest) + 1 && Csr.RowsOf(dest')[..Csr.NumRows(dest)] == Csr.RowsOf(dest)
    requires FundamentalRow(es, s.forest, Csr.RowsOf(dest')[Csr.NumRows(dest)], e)
    ensures RowsOk(es, s', dest', gens + [e])
  {
    var gens' := gens + [e];
    var n := Csr.NumRows(dest);
    assert e !in gens;
    forall r | 0 <= r < |gens'|
      ensures 0 <= gens'[r] < |es| && s'.tmpe[gens'[r]] == 1
      ensures FundamentalRow(es, s'.forest, Csr.RowsOf(dest')[r], gens'[r])
    {
      if r < n {
        assert Csr.RowsOf(dest')[r] == Csr.RowsOf(dest)[r];
      }
    }
    forall k | 0 <= k < |es| && s'.tmpe[k] == 1
      ensures k in gens'
    {
      if k != e {
        assert k in gens;
      }
    }
  }

  /**
   * Scanning `cur` meets the unflagged edge `e` to a reached vertex: `e` is
   * flagged, the vertex marks may rise, and one row is appended to the
   * matrix, the fundamental cycle of `e`.
   */
  ghost predicate FlagStep(g: SG.Graph, s: Search, dest: IMatrix, tr: Trace, cur: int, e: int,
                           s': Search, dest': IMatrix, tr': Trace)
    requires Sized(g, s, tr) && IMatrixCsr.Valid(dest)
  {
    && 0 <= e < |g.edges| && SG.Touches(g.edges[e], cur) && s.tmpe[e] == 0
    && (var ov := Opposite(g.edges[e], cur); 0 <= ov < |s.forest| && s.forest[ov].Reached?)
    && s'.forest == s.forest && s'.deque == s.deque && s'.tmpe == s.tmpe[e := 1] && |s'.tmpv| == |s.tmpv|
    && (forall x :: 0 <= x < |s'.tmpv| ==> s'.tmpv[x] <= s'.mark)
    && tr' == tr.(gens := tr.gens + [e])
    && IMatrixCsr.Valid(dest') && dest'.numCols == dest.numCols
    && Csr.NumRows(dest') == Csr.NumRows(dest) + 1 && Csr.RowsOf(dest')[..Csr.NumRows(dest)] == Csr.RowsOf(dest)
    && FundamentalRow(g.edges, s.forest, Csr.RowsOf(dest')[Csr.NumRows(dest)], e)
  }

  /** Flagging `e` and writing its cycle keeps the invariant and settles `e`. */
  lemma FlagKeeps(g: SG.Graph, s: Search, dest: IMatrix, tr: Trace, root: int, cur: int, e: int,
                   s': Search, dest': IMatrix, tr': Trace)
    requires Inv(g, s, dest, tr, root, Some(cur)) && FlagStep(g, s, dest, tr, cur, e, s', dest', tr')
    ensures Inv(g, s', dest', tr', root, Some(cur)) && Grows(s, tr, s', tr') && tr'.done == tr.done
    ensures Settled(g.edges, s', tr', cur, e)
  {
    FlagRows(g.edges, s, dest, tr.gens, e, s', dest');
    FlagGrows(g, s, tr, root, cur, e, s', tr');
    FlagOrder(g, s, tr, root, cur, e, s', tr');
  }

  /** Flagging `e` leaves the forest alone, keeps the marks bounded, and settles `e`. */
  lemma FlagGrows(g: SG.Graph, s: Search, tr: Trace, root: int, cur: int, e: int, s': Search, tr': Trace)
    requires SG.Valid(g) && Sized(g, s, tr) && Forest(g.edges, s.forest, tr.rank, tr.tree) && Marks(s)
    requires Closed(g, s, tr) && Frontier(s, tr, root, Some(cur))
    requires 0 <= e < |g.edges| && SG.Touches(g.edges[e], cur) && s.tmpe[e] == 0
    requires var ov := Opposite(g.edges[e], cur); 0 <= ov < |s.forest| && s.forest[ov].Reached?
    requires s'.forest == s.forest && s'.deque == s.deque && s'.tmpe == s.tmpe[e := 1] && |s'.tmpv| == |s.tmpv|
    requires forall x :: 0 <= x < |s'.tmpv| ==> s'.tmpv[x] <= s'.mark
    requires tr' == tr.(gens := tr.gens + [e])
    ensures Sized(g, s', tr') && Forest(g.edges, s'.forest, tr'.rank, tr'.tree) && Marks(s')
    ensures Grows(s, tr, s', tr') && tr'.done == tr.done && Settled(g.edges, s', tr', cur, e)
  {
    assert Waiting(s, tr, root, cur);
    SameTree(g, s, tr, root, cur, e);
  }

  /** Flagging `e` keeps scanned vertices closed, parents settled and the frontier as it was. */
  lemma FlagOrder(g: SG.Graph, s: Search, tr: Trace, root: int, cur: int, e: int, s': Search, tr': Trace)
    requires SG.Shape(g) && Sized(g, s, tr) && Closed(g, s, tr)
    requires ParentsSettled(g.edges, s, tr, Some(cur)) && Frontier(s, tr, root, Some(cur))
    requires 0 <= e < |g.edges| && s.tmpe[e] == 0 && tr' == tr.(gens := tr.gens + [e])
    requires s'.forest == s.forest && s'.deque == s.deque && s'.tmpe == s.tmpe[e := 1] && |s'.tmpv| == |s.tmpv|
    ensures Sized(g, s', tr') && Closed(g, s', tr')
    ensures ParentsSettled(g.edges, s', tr', Some(cur)) && Frontier(s', tr', root, Some(cur))
  {
    ClosedGrows(g, s, tr, s', tr');
    FrontierSame(s, tr, s', tr', root, Some(cur));
    ParentsSame(g.edges, s, tr, s', tr', Some(cur), Some(cur));
  }

  /** The frontier reads only the forest, the deque and the trace. */
  lemma FrontierSame(s: Search, tr: Trace, s': Search, tr': Trace, root: int, cur: Option<int>)
    requires |tr.done| == |s.forest| && |tr.tree| == |s.forest| && Frontier(s, tr, root, cur)
    requires s'.forest == s.forest && s'.deque == s.deque && tr'.done == tr.done && tr'.tree == tr.tree
    ensures Frontier(s', tr', root, cur)
  {
    forall i | 0 <= i < |s.deque|
      ensures Waiting(s', tr', root, s'.deque[i])
    {
      assert Waiting(s, tr, root, s.deque[i]);
    }
    if cur.Some? {
      assert Waiting(s, tr, root, cur.value);
    }
  }

  /** Whose parents are settled depends only on the forest; a vertex no longer scanned only weakens it. */
  lemma ParentsSame(es: seq<SG.Edge>, s: Search, tr: Trace, s': Search, tr': Trace, cur: Option<int>, cur': Option<int>)
    requires |tr.done| == |s.forest| && ParentsSettled(es, s, tr, cur)
    requires s'.forest == s.forest && tr'.done == tr.done && (cur.Some? ==> cur' == cur)
    ensures ParentsSettled(es, s', tr', cur')
  {
    forall x | 0 <= x < |s'.forest|
      ensures ParentSettled(es, s', tr', cur', x)
    {
      assert ParentSettled(es, s, tr, cur, x);
    }
  }

  /** Flagging `e`, the parent edge of neither end, keeps the flags apart from the forest. */
  lemma FlagFlags(g: SG.Graph, s: Search, tr: Trace, root: int, cur: int, e: int, s': Search)
    requires SG.Shape(g) && Sized(g, s, tr) && Forest(g.edges, s.forest, tr.rank, tr.tree) && FlagsOk(g.edges, s.forest, s.tmpe)
    requires Frontier(s, tr, root, Some(cur))
    requires 0 <= e < |g.edges| && SG.Touches(g.edges[e], cur) && s.forest[cur] != Reached(Some(e))
    requires var ov := Opposite(g.edges[e], cur);
      0 <= ov < |s.forest| && s.forest[ov].Reached? && s.forest[ov] != Reached(Some(e))
    requires s'.forest == s.forest && s'.tmpe == s.tmpe[e := 1]
    ensures FlagsOk(g.edges, s'.forest, s'.tmpe)
  {
    assert Waiting(s, tr, root, cur);
    forall x | 0 <= x < |s.forest|
      ensures s.forest[x] != Reached(Some(e))
    {
      assert ParentOk(g.edges, s.forest, tr.rank, tr.tree, x);
    }
    forall k | 0 <= k < |s'.tmpe|
      ensures FlagOk(g.edges, s'.forest, s'.tmpe, k)
    {
      if k != e {
        assert FlagOk(g.edges, s.forest, s.tmpe, k);
      }
    }
  }

  /** Reaching `ov` over `e` keeps the flags apart from the forest: `e` had an unreached end, so it was not flagged. */
  lemma ReachFlags(es: seq<SG.Edge>, s: Search, cur: int, e: int, s': Search)
    requires FlagsOk(es, s.forest, s.tmpe) && |s.tmpe| == |es| && 0 <= e < |es| && SG.Touches(es[e], cur)
    requires var ov := Opposite(es[e], cur);
      0 <= ov < |s.forest| && s.forest[ov] == Unreached && s'.forest == s.forest[ov := Reached(Some(e))]
    requires s'.tmpe == s.tmpe
    ensures FlagsOk(es, s'.forest, s'.tmpe)
  {
    var ov := Opposite(es[e], cur);
    forall k | 0 <= k < |s'.tmpe|
      ensures FlagOk(es, s'.forest, s'.tmpe, k)
    {
      assert FlagOk(es, s.forest, s.tmpe, k);
      if s.tmpe[k] == 1 {
        forall x | 0 <= x < |s'.forest|
          ensures s'.forest[x] != Reached(Some(k))
        {
          assert x != ov ==> s'.forest[x] == s.forest[x];
        }
      }
    }
  }

  /**
   * Edge `e` out of `cur` leads to a reached vertex and is not flagged:
   * flag it and append its fundamental cycle with `makePath`, starting from
   * the other end and its parent edge.
   */
  method FlagEdge(g: SG.Graph, s: Search, dest: IMatrix, cur: int, e: int, ghost tr: Trace, ghost root: int)
    returns (s': Search, dest': IMatrix, ghost tr': Trace)
    requires Inv(g, s, dest, tr, root, Some(cur))
    requires FlagsOk(g.edges, s.forest, s.tmpe)
    requires 0 <= e < |g.edges| && SG.Touches(g.edges[e], cur) && s.forest[cur] != Reached(Some(e)) && s.tmpe[e] == 0
    requires var ov := Opposite(g.edges[e], cur);
      0 <= ov < |s.forest| && s.forest[ov].Reached? && s.forest[ov] != Reached(Some(e))
    ensures Inv(g, s', dest', tr', root, Some(cur)) && Grows(s, tr, s', tr') && tr'.done == tr.done
    ensures Settled(g.edges, s', tr', cur, e) && FlagsOk(g.edges, s'.forest, s'.tmpe)
    ensures s'.forest == s.forest && s'.deque == s.deque && s'.tmpe == s.tmpe[e := 1]
    ensures Csr.NumRows(dest') == Csr.NumRows(dest) + 1 && Csr.RowsOf(dest')[..Csr.NumRows(dest)] == Csr.RowsOf(dest)
    ensures FundamentalRow(g.edges, s.forest, Csr.RowsOf(dest')[Csr.NumRows(dest)], e)
  {
    var ov := Opposite(g.edges[e], cur);
    SameTree(g, s, tr, root, cur, e);
    NotOnOwnChain(g, s, tr, cur, e);
    var tmpv1, mark1;
    tmpv1, mark1, dest' := MakePath(g.edges, s.forest, s.tmpv, s.mark, dest, ov, s.forest[ov].parent, e, tr.rank, tr.tree);
    s' := s.(tmpe := s.tmpe[e := 1], tmpv := tmpv1, mark := mark1);
    tr' := tr.(gens := tr.gens + [e]);
    FlagKeeps(g, s, dest, tr, root, cur, e, s', dest', tr');
    FlagFlags(g, s, tr, root, cur, e, s');
  }

  /**
   * One turn of the inner `for` of `getCycles`: the edge at slot `j` of
   * `cur`'s range is accounted for afterwards.
   */
  method ScanEdge(g: SG.Graph, s: Search, dest: IMatrix, cur: int, j: int, ghost tr: Trace, ghost root: int)
    returns (s': Search, dest': IMatrix, ghost tr': Trace)
    requires Inv(g, s, dest, tr, root, Some(cur)) && FlagsOk(g.edges, s.forest, s.tmpe)
    requires L.Begin(g.loi, cur) <= j < L.End(g.loi, cur)
    requires ChildrenSeen(g, s.forest, cur, j)
    ensures Inv(g, s', dest', tr', root, Some(cur)) && Grows(s, tr, s', tr') && tr'.done == tr.done
    ensures Handled(g, s', tr', cur, j - L.Begin(g.loi, cur))
    ensures FlagsOk(g.edges, s'.forest, s'.tmpe) && ChildrenSeen(g, s'.forest, cur, j + 1)
  {
    SG.RangeEntryTouches(g, cur, j);
    L.EdgesOfSlot(g.loi, cur, j);
    var e := L.GetSlot(g.loi, j).value;
    NotChildYet(g, s, tr, root, cur, j, e);
    s', dest', tr' := SettleEdge(g, s, dest, cur, e, tr, root);
    ChildrenSeenStep(g, s.forest, s'.forest, cur, j, e);
    assert Settled(g.edges, s', tr', cur, e);
  }

  /**
   * The edge at slot `j` of `cur`'s range does not lead to a child of
   * `cur`: the parent edge of a child sits at no slot from `j` on.
   */
  lemma NotChildYet(g: SG.Graph, s: Search, tr: Trace, root: int, cur: int, j: int, e: int)
    requires SG.Shape(g) && Sized(g, s, tr)
    requires 0 <= cur < |g.vertices| && L.Begin(g.loi, cur) <= j < L.End(g.loi, cur)
    requires L.EdgesOf(g.loi, cur)[j - L.Begin(g.loi, cur)] == Some(e)
    requires 0 <= e < |g.edges| && SG.Touches(g.edges[e], cur)
    requires ChildrenSeen(g, s.forest, cur, j)
    ensures var ov := Opposite(g.edges[e], cur); 0 <= ov < |s.forest| && s.forest[ov] != Reached(Some(e))
  {
    var ov := Opposite(g.edges[e], cur);
    assert Opposite(g.edges[e], ov) == cur;
    assert ChildSeen(g, s.forest, cur, j, ov);
  }

  /** Settling the edge at slot `j` keeps the children of `cur` off the slots from `j + 1` on. */
  lemma ChildrenSeenStep(g: SG.Graph, forest: seq<Reach>, forest': seq<Reach>, cur: int, j: int, e: int)
    requires SG.Shape(g) && SG.Unique(g) && 0 <= cur < |g.vertices| && L.Begin(g.loi, cur) <= j < L.End(g.loi, cur)
    requires L.EdgesOf(g.loi, cur)[j - L.Begin(g.loi, cur)] == Some(e)
    requires 0 <= e < |g.edges| && SG.Touches(g.edges[e], cur) && ChildrenSeen(g, forest, cur, j)
    requires var ov := Opposite(g.edges[e], cur);
      0 <= ov < |forest| && (forest' == forest || (forest[ov] == Unreached && forest' == forest[ov := Reached(Some(e))]))
    ensures ChildrenSeen(g, forest', cur, j + 1)
  {
    var es := L.EdgesOf(g.loi, cur);
    var n := j - L.Begin(g.loi, cur);
    var m := j + 1;
    forall x | 0 <= x < |forest'|
      ensures ChildSeen(g, forest', cur, m, x)
    {
      if forest'[x] == forest[x] {
        assert ChildSeen(g, forest, cur, j, x);
      } else {
        forall i | n + 1 <= i < |es|
          ensures es[i] != Some(e)
        {
          assert es[n] != es[i];
        }
      }
    }
  }

  /**
   * The body of the inner `for` for edge `e` of `cur`: unless `e` is
   * `cur`'s parent edge, an unreached other end is reached over it and
   * pushed; otherwise an unflagged `e` is flagged and its fundamental cycle
   * appended by `makePath`.
   */
  method SettleEdge(g: SG.Graph, s: Search, dest: IMatrix, cur: int, e: int, ghost tr: Trace, ghost root: int)
    returns (s': Search, dest': IMatrix, ghost tr': Trace)
    requires Inv(g, s, dest, tr, root, Some(cur)) && FlagsOk(g.edges, s.forest, s.tmpe)
    requires 0 <= e < |g.edges| && SG.Touches(g.edges[e], cur)
    requires var ov := Opposite(g.edges[e], cur); 0 <= ov < |s.forest| && s.forest[ov] != Reached(Some(e))
    ensures Inv(g, s', dest', tr', root, Some(cur)) && Grows(s, tr, s', tr') && tr'.done == tr.done
    ensures Settled(g.edges, s', tr', cur, e) && FlagsOk(g.edges, s'.forest, s'.tmpe)
    ensures var ov := Opposite(g.edges[e], cur);
      s'.forest == s.forest || (s.forest[ov] == Unreached && s'.forest == s.forest[ov := Reached(Some(e))])
    ensures s.forest[cur] == Reached(Some(e)) ==> s' == s && dest' == dest
    ensures var ov := Opposite(g.edges[e], cur);
      s.forest[cur] != Reached(Some(e)) && s.forest[ov] == Unreached ==>
        s'.forest == s.forest[ov := Reached(Some(e))] && s'.deque == Push(s.deque, ov) && s'.tmpe == s.tmpe && dest' == dest
    ensures var ov := Opposite(g.edges[e], cur);
      s.forest[cur] != Reached(Some(e)) && s.forest[ov].Reached? && s.tmpe[e] == 0 ==>
        && s'.forest == s.forest && s'.deque == s.deque && s'.tmpe == s.tmpe[e := 1]
        && Csr.NumRows(dest') == Csr.NumRows(dest) + 1 && Csr.RowsOf(dest')[..Csr.NumRows(dest)] == Csr.RowsOf(dest)
        && FundamentalRow(g.edges, s.forest, Csr.RowsOf(dest')[Csr.NumRows(dest)], e)
    ensures var ov := Opposite(g.edges[e], cur);
      s.forest[cur] != Reached(Some(e)) && s.forest[ov].Reached? && s.tmpe[e] != 0 ==> s' == s && dest' == dest
  {
    s', dest', tr' := s, dest, tr;
    if s.forest[cur] != Reached(Some(e)) {
      var ov := Opposite(g.edges[e], cur);
      if s.forest[ov] == Unreached {
        s' := s.(forest := s.forest[ov := Reached(Some(e))], deque := Push(s.deque, ov));
        tr' := tr.(rank := tr.rank[ov := tr.rank[cur] + 1], tree := tr.tree[ov := tr.tree[cur]]);
        ReachKeeps(g, s, dest, tr, root, cur, e, s', tr');
        ReachFlags(g.edges, s, cur, e, s');
      } else if s.tmpe[e] == 0 {
        s', dest', tr' := FlagEdge(g, s, dest, cur, e, tr, root);
      } else {
        SkipSettles(g, s, dest, tr, root, cur, e);
      }
    } else {
      SkipSettles(g, s, dest, tr, root, cur, e);
    }
  }

  /** The entries of `x`'s range at arena slots before `j` are accounted for. */
  ghost predicate HandledUpTo(g: SG.Graph, s: Search, tr: Trace, x: int, j: int)
    requires SG.Shape(g) && Sized(g, s, tr) && 0 <= x < |g.vertices| && j <= L.End(g.loi, x)
  {
    forall i :: 0 <= i < j - L.Begin(g.loi, x) ==> Handled(g, s, tr, x, i)
  }

  /** All slots of `x`'s range accounted for: `x` is scanned. */
  lemma HandledAllScanned(g: SG.Graph, s: Search, tr: Trace, x: int)
    requires SG.Shape(g) && Sized(g, s, tr) && 0 <= x < |g.vertices| && HandledUpTo(g, s, tr, x, L.End(g.loi, x))
    ensures Scanned(g, s, tr, x)
  {
  }

  /** Accounting for one more entry of a reached vertex's range, while the state grows. */
  lemma HandledUpToGrows(g: SG.Graph, s: Search, tr: Trace, s': Search, tr': Trace, x: int, j: int)
    requires SG.Shape(g) && Sized(g, s, tr) && Sized(g, s', tr') && Grows(s, tr, s', tr')
    requires 0 <= x < |g.vertices| && s.forest[x].Reached? && L.Begin(g.loi, x) <= j < L.End(g.loi, x)
    requires HandledUpTo(g, s, tr, x, j) && Handled(g, s', tr', x, j - L.Begin(g.loi, x))
    ensures HandledUpTo(g, s', tr', x, j + 1)
  {
    forall i | 0 <= i < j - L.Begin(g.loi, x)
      ensures Handled(g, s', tr', x, i)
    {
      HandledGrows(g, s, tr, s', tr', x, i);
    }
  }

  /**
   * The state of the inner `for` before slot `j`: the invariant holds, the
   * state has grown from `s0`, `tr0` without finishing a vertex, and the
   * slots of `cur`'s range before `j` are accounted for.
   */
  ghost predicate Scanning(g: SG.Graph, s0: Search, tr0: Trace, s: Search, dest: IMatrix, tr: Trace, root: int, cur: int, j: int) {
    && Inv(g, s, dest, tr, root, Some(cur)) && Sized(g, s0, tr0) && Grows(s0, tr0, s, tr) && tr.done == tr0.done
    && 0 <= cur < |g.vertices| && L.Begin(g.loi, cur) <= j <= L.End(g.loi, cur)
    && HandledUpTo(g, s, tr, cur, j) && FlagsOk(g.edges, s.forest, s.tmpe) && ChildrenSeen(g, s.forest, cur, j)
  }

  /** The inner `for` of `getCycles`: every edge of `cur`'s range, in order. */
  method ScanVertex(g: SG.Graph, s: Search, dest: IMatrix, cur: int, ghost tr: Trace, ghost root: int)
    returns (s': Search, dest': IMatrix, ghost tr': Trace)
    requires Inv(g, s, dest, tr, root, Some(cur)) && FlagsOk(g.edges, s.forest, s.tmpe) && ChildrenSeen(g, s.forest, cur, L.Begin(g.loi, cur))
    ensures Inv(g, s', dest', tr', root, Some(cur)) && Grows(s, tr, s', tr') && tr'.done == tr.done
    ensures Scanned(g, s', tr', cur) && FlagsOk(g.edges, s'.forest, s'.tmpe)
  {
    var begin := L.Begin(g.loi, cur);
    var end := L.End(g.loi, cur);
    s', dest', tr' := s, dest, tr;
    ScanningStarts(g, s, dest, tr, root, cur);
    for j := begin to end
      invariant Scanning(g, s, tr, s', dest', tr', root, cur, j)
    {
      s', dest', tr' := ScanNext(g, s', dest', cur, j, tr', root, s, tr);
      assert Scanning(g, s, tr, s', dest', tr', root, cur, j + 1);
    }
    ScanningEnds(g, s, tr, s', dest', tr', root, cur);
  }

  /** Before the first slot nothing is accounted for yet. */
  lemma ScanningStarts(g: SG.Graph, s: Search, dest: IMatrix, tr: Trace, root: int, cur: int)
    requires Inv(g, s, dest, tr, root, Some(cur)) && FlagsOk(g.edges, s.forest, s.tmpe) && ChildrenSeen(g, s.forest, cur, L.Begin(g.loi, cur))
    ensures Scanning(g, s, tr, s, dest, tr, root, cur, L.Begin(g.loi, cur))
  {
  }

  /** After the last slot, `cur` is scanned. */
  lemma ScanningEnds(g: SG.Graph, s0: Search, tr0: Trace, s: Search, dest: IMatrix, tr: Trace, root: int, cur: int)
    requires 0 <= cur < |g.vertices| && SG.Shape(g) && Scanning(g, s0, tr0, s, dest, tr, root, cur, L.End(g.loi, cur))
    ensures Inv(g, s, dest, tr, root, Some(cur)) && Grows(s0, tr0, s, tr) && tr.done == tr0.done
    ensures Scanned(g, s, tr, cur) && FlagsOk(g.edges, s.forest, s.tmpe)
  {
    HandledAllScanned(g, s, tr, cur);
  }

  /** One turn of that `for`, with the entries before slot `j` already accounted for since the scan began in `s0`. */
  method ScanNext(g: SG.Graph, s: Search, dest: IMatrix, cur: int, j: int, ghost tr: Trace, ghost root: int,
                  ghost s0: Search, ghost tr0: Trace)
    returns (s': Search, dest': IMatrix, ghost tr': Trace)
    requires Scanning(g, s0, tr0, s, dest, tr, root, cur, j) && j < L.End(g.loi, cur)
    ensures Scanning(g, s0, tr0, s', dest', tr', root, cur, j + 1)
  {
    assert Waiting(s, tr, root, cur);
    s', dest', tr' := ScanEdge(g, s, dest, cur, j, tr, root);
    GrowsTrans(g, s0, tr0, s, tr, s', tr');
    HandledUpToGrows(g, s, tr, s', tr', cur, j);
  }

  /** Taking `v` off the deque makes it the vertex being scanned. */
  lemma PopKeeps(g: SG.Graph, s: Search, dest: IMatrix, tr: Trace, root: int, t: Traversing)
    requires Inv(g, s, dest, tr, root, None) && |s.deque| > 0
    ensures var (v, rest) := Pop(s.deque, t);
      Inv(g, s.(deque := rest), dest, tr, root, Some(v))
  {
    var (v, rest) := Pop(s.deque, t);
    var s' := s.(deque := rest);
    PopFrontier(s, tr, root, t);
    ParentsSame(g.edges, s, tr, s', tr, None, Some(v));
    ClosedGrows(g, s, tr, s', tr);
    RowsGrow(g.edges, s, s', dest, tr.gens);
  }

  /** The frontier after a pop, with the popped vertex as `cur`. */
  lemma PopFrontier(s: Search, tr: Trace, root: int, t: Traversing)
    requires |tr.done| == |s.forest| && |tr.tree| == |s.forest| && Frontier(s, tr, root, None) && |s.deque| > 0
    ensures var (v, rest) := Pop(s.deque, t);
      Frontier(s.(deque := rest), tr, root, Some(v))
  {
    var d := s.deque;
    var (v, rest) := Pop(d, t);
    var s' := s.(deque := rest);
    // the kept elements sit at positions `off + i` of the deque, the popped one at `at`
    var off, at := if t == QueueBased then 1 else 0, if t == QueueBased then 0 else |d| - 1;
    assert forall i :: 0 <= i < |rest| ==> rest[i] == d[off + i];
    assert v == d[at];
    assert Waiting(s, tr, root, d[at]);
    forall i | 0 <= i < |rest|
      ensures Waiting(s', tr, root, rest[i]) && Some(v) != Some(rest[i])
    {
      assert Waiting(s, tr, root, d[off + i]);
      assert off + i != at;
    }
    forall x | 0 <= x < |s'.forest| && s'.forest[x].Reached? && !tr.done[x]
      ensures x in rest || Some(v) == Some(x)
    {
      assert x in d;
      var k :| 0 <= k < |d| && d[k] == x;
      if k != at {
        assert rest[k - off] == x;
      }
    }
  }

  /** Once `v`'s range is accounted for, `v` counts as scanned and nothing is being scanned. */
  lemma FinishKeeps(g: SG.Graph, s: Search, dest: IMatrix, tr: Trace, root: int, v: int)
    requires Inv(g, s, dest, tr, root, Some(v)) && Scanned(g, s, tr, v)
    ensures Inv(g, s, dest, tr.(done := tr.done[v := true]), root, None)
    ensures Grows(s, tr, s, tr.(done := tr.done[v := true]))
    ensures CountDone(tr.done[v := true]) == CountDone(tr.done) + 1
  {
    var tr' := tr.(done := tr.done[v := true]);
    assert Waiting(s, tr, root, v);
    CountDoneSet(tr.done, v);
    FinishClosed(g, s, tr, v, tr');
    FinishParents(g.edges, s, tr, v, tr');
    FinishFrontier(s, tr, root, v, tr');
  }

  /** Marking the scanned `v` done keeps every done vertex reached and accounted for. */
  lemma FinishClosed(g: SG.Graph, s: Search, tr: Trace, v: int, tr': Trace)
    requires SG.Shape(g) && Sized(g, s, tr) && Closed(g, s, tr)
    requires 0 <= v < |g.vertices| && s.forest[v].Reached? && Scanned(g, s, tr, v)
    requires tr' == tr.(done := tr.done[v := true])
    ensures Sized(g, s, tr') && Closed(g, s, tr')
  {
    forall x | 0 <= x < |g.vertices| && tr'.done[x]
      ensures s.forest[x].Reached? && Scanned(g, s, tr', x)
    {
      assert Scanned(g, s, tr, x);
      forall i | 0 <= i < |L.EdgesOf(g.loi, x)|
        ensures Handled(g, s, tr', x, i)
      {
        assert Handled(g, s, tr, x, i);
      }
    }
  }

  /** With `v` done, its children's parent is done rather than being scanned. */
  lemma FinishParents(es: seq<SG.Edge>, s: Search, tr: Trace, v: int, tr': Trace)
    requires |tr.done| == |s.forest| && |tr.rank| == |s.forest| && |tr.tree| == |s.forest|
    requires Forest(es, s.forest, tr.rank, tr.tree) && ParentsSettled(es, s, tr, Some(v))
    requires 0 <= v < |s.forest| && tr' == tr.(done := tr.done[v := true])
    ensures ParentsSettled(es, s, tr', None)
  {
    forall x | 0 <= x < |s.forest|
      ensures ParentSettled(es, s, tr', None, x)
    {
      assert ParentSettled(es, s, tr, Some(v), x);
      if x == v && s.forest[v].Reached? && s.forest[v].parent.Some? {
        assert ParentOk(es, s.forest, tr.rank, tr.tree, v);
      }
    }
  }

  /** `v` leaves the frontier; the deque is unchanged. */
  lemma FinishFrontier(s: Search, tr: Trace, root: int, v: int, tr': Trace)
    requires |tr.done| == |s.forest| && |tr.tree| == |s.forest| && Frontier(s, tr, root, Some(v))
    requires 0 <= v < |s.forest| && tr' == tr.(done := tr.done[v := true])
    ensures Frontier(s, tr', root, None)
  {
    forall i | 0 <= i < |s.deque|
      ensures Waiting(s, tr', root, s.deque[i])
    {
      assert Waiting(s, tr, root, s.deque[i]);
    }
  }

  /** A vertex not scanned yet has no children while nothing is being scanned. */
  lemma NoChildrenYet(g: SG.Graph, s: Search, tr: Trace, v: int)
    requires SG.Shape(g) && Sized(g, s, tr) && ParentsSettled(g.edges, s, tr, None)
    requires 0 <= v < |g.vertices| && !tr.done[v]
    ensures ChildrenSeen(g, s.forest, v, L.Begin(g.loi, v))
  {
    forall x | 0 <= x < |s.forest| && s.forest[x].Reached? && s.forest[x].parent.Some?
      ensures var e := s.forest[x].parent.value; 0 <= e < |g.edges| ==> Opposite(g.edges[e], x) != v
    {
      assert ParentSettled(g.edges, s, tr, None, x);
    }
  }

  /**
   * The `while` of `getCycles`: pop a vertex, scan its range, until the
   * deque is empty. Every popped vertex ends up scanned; the tree of `root`
   * is complete.
   */
  method DrainDeque(g: SG.Graph, s: Search, dest: IMatrix, t: Traversing, ghost tr: Trace, ghost root: int)
    returns (s': Search, dest': IMatrix, ghost tr': Trace)
    requires Inv(g, s, dest, tr, root, None) && FlagsOk(g.edges, s.forest, s.tmpe)
    ensures Inv(g, s', dest', tr', root, None) && s'.deque == [] && Grows(s, tr, s', tr') && FlagsOk(g.edges, s'.forest, s'.tmpe)
  {
    s', dest', tr' := s, dest, tr;
    while |s'.deque| > 0
      invariant Inv(g, s', dest', tr', root, None) && Grows(s, tr, s', tr') && FlagsOk(g.edges, s'.forest, s'.tmpe)
      decreases |tr'.done| - CountDone(tr'.done)
    {
      PopKeeps(g, s', dest', tr', root, t);
      var (v, rest) := Pop(s'.deque, t);
      NoChildrenYet(g, s', tr', v);
      ghost var s0, tr0 := s', tr';
      s' := s'.(deque := rest);
      s', dest', tr' := ScanVertex(g, s', dest', v, tr', root);
      FinishKeeps(g, s', dest', tr', root, v);
      ghost var tr1 := tr';
      tr' := tr'.(done := tr'.done[v := true]);
      GrowsTrans(g, s0, tr0, s', tr1, s', tr');
      GrowsTrans(g, s, tr, s0, tr0, s', tr');
    }
  }

  /** The empty start: no vertex reached, nothing scanned, no rows. */
  lemma InitKeeps(g: SG.Graph, s: Search, dest: IMatrix, tr: Trace)
    requires SG.Valid(g) && s == Init(g)
    requires IMatrixCsr.Valid(dest) && dest.numCols == |g.edges| && Csr.RowsOf(dest) == []
    requires tr == Trace(seq(|g.vertices|, _ => 0), seq(|g.vertices|, _ => 0), seq(|g.vertices|, _ => false), [])
    ensures Inv(g, s, dest, tr, 0, None)
  {
  }

  /** Vertex `i`, not reached yet, becomes the root of a new tree and the only vertex in the deque. */
  lemma NewRootKeeps(g: SG.Graph, s: Search, dest: IMatrix, tr: Trace, i: int, s': Search, tr': Trace)
    requires Inv(g, s, dest, tr, 0, None) && s.deque == [] && 0 <= i < |g.vertices| && s.forest[i] == Unreached
    requires s' == s.(forest := s.forest[i := Reached(None)], deque := Push(s.deque, i))
    requires tr' == tr.(rank := tr.rank[i := 0], tree := tr.tree[i := i])
    ensures Inv(g, s', dest, tr', i, None) && Grows(s, tr, s', tr')
  {
    assert !tr.done[i];
    NewRootForest(g.edges, s, tr, i, s', tr');
    RowsGrow(g.edges, s, s', dest, tr.gens);
    ClosedGrows(g, s, tr, s', tr');
    NewRootOrder(g.edges, s, tr, i, s', tr');
  }

  /** A new root is a tree of its own. */
  lemma NewRootForest(es: seq<SG.Edge>, s: Search, tr: Trace, i: int, s': Search, tr': Trace)
    requires Forest(es, s.forest, tr.rank, tr.tree) && 0 <= i < |s.forest| && s.forest[i] == Unreached
    requires s'.forest == s.forest[i := Reached(None)] && tr' == tr.(rank := tr.rank[i := 0], tree := tr.tree[i := i])
    ensures Forest(es, s'.forest, tr'.rank, tr'.tree)
  {
    forall x | 0 <= x < |s'.forest|
      ensures ParentOk(es, s'.forest, tr'.rank, tr'.tree, x)
    {
      if x != i {
        assert ParentOk(es, s.forest, tr.rank, tr.tree, x);
      }
    }
  }

  /** A new root adds no parent edge and unreaches nothing, so the flags stay apart from the forest. */
  lemma NewRootFlags(es: seq<SG.Edge>, s: Search, i: int, s': Search)
    requires FlagsOk(es, s.forest, s.tmpe) && 0 <= i < |s.forest| && s'.forest == s.forest[i := Reached(None)] && s'.tmpe == s.tmpe
    ensures FlagsOk(es, s'.forest, s'.tmpe)
  {
    forall k | 0 <= k < |s'.tmpe|
      ensures FlagOk(es, s'.forest, s'.tmpe, k)
    {
      assert FlagOk(es, s.forest, s.tmpe, k);
      if s.tmpe[k] == 1 {
        forall x | 0 <= x < |s'.forest|
          ensures s'.forest[x] != Reached(Some(k))
        {
          assert x != i ==> s'.forest[x] == s.forest[x];
        }
      }
    }
  }

  /** A new root has no parent to settle and is the only vertex waiting. */
  lemma NewRootOrder(es: seq<SG.Edge>, s: Search, tr: Trace, i: int, s': Search, tr': Trace)
    requires |tr.done| == |s.forest| && |tr.tree| == |s.forest| && |tr.rank| == |s.forest|
    requires ParentsSettled(es, s, tr, None) && Frontier(s, tr, 0, None) && s.deque == []
    requires 0 <= i < |s.forest| && !tr.done[i]
    requires s' == s.(forest := s.forest[i := Reached(None)], deque := Push(s.deque, i))
    requires tr' == tr.(rank := tr.rank[i := 0], tree := tr.tree[i := i])
    ensures ParentsSettled(es, s', tr', None) && Frontier(s', tr', i, None)
  {
    forall x | 0 <= x < |s'.forest|
      ensures ParentSettled(es, s', tr', None, x)
    {
      if x != i {
        assert ParentSettled(es, s, tr, None, x);
      }
    }
    forall x | 0 <= x < |s'.forest| && s'.forest[x].Reached? && !tr'.done[x]
      ensures x in s'.deque
    {
      assert x == i;
    }
  }

  /** Once every vertex is reached and the deque is empty, every vertex is scanned. */
  lemma AllScanned(g: SG.Graph, s: Search, dest: IMatrix, tr: Trace, root: int)
    requires Inv(g, s, dest, tr, root, None) && s.deque == []
    requires forall x :: 0 <= x < |g.vertices| ==> s.forest[x].Reached?
    ensures forall k :: 0 <= k < |g.edges| ==>
              s.forest[g.edges[k].src] == Reached(Some(k)) || s.forest[g.edges[k].tgt] == Reached(Some(k)) || s.tmpe[k] == 1
    ensures BasisSize.TreesClosed(g.edges, tr.tree)
  {
    forall k | 0 <= k < |g.edges|
      ensures s.forest[g.edges[k].src] == Reached(Some(k)) || s.forest[g.edges[k].tgt] == Reached(Some(k)) || s.tmpe[k] == 1
      ensures tr.tree[g.edges[k].src] == tr.tree[g.edges[k].tgt]
    {
      var x := g.edges[k].src;
      assert s.forest[x].Reached? && x !in s.deque;
      SettledAtScanned(g, s, tr, x, k);
    }
  }

  /**
   * The size and shape of the finished basis: flagged edges are not parent
   * edges, there are |E| - |V| + (number of roots) rows, and the trees are
   * the connected components of the graph.
   */
  lemma BasisFacts(g: SG.Graph, s: Search, dest: IMatrix, tr: Trace)
    requires Inv(g, s, dest, tr, 0, None) && s.deque == [] && FlagsOk(g.edges, s.forest, s.tmpe)
    requires forall x :: 0 <= x < |g.vertices| ==> s.forest[x].Reached?
    ensures forall e :: 0 <= e < |g.edges| && s.tmpe[e] == 1 ==> !IsTreeEdge(s.forest, e)
    ensures Csr.NumRows(dest) == |g.edges| - |g.vertices| + |BasisSize.Roots(s.forest)|
    ensures forall x :: 0 <= x < |g.vertices| ==> BasisSize.JoinedToRoot(g.edges, s.forest, x)
    ensures forall r1, r2 :: r1 in BasisSize.Roots(s.forest) && r2 in BasisSize.Roots(s.forest) && r1 != r2 ==>
              !BasisSize.Connected(g.edges, r1, r2)
  {
    forall e | 0 <= e < |g.edges| && s.tmpe[e] == 1
      ensures !IsTreeEdge(s.forest, e)
    {
      assert FlagOk(g.edges, s.forest, s.tmpe, e);
    }
    AllScanned(g, s, dest, tr, 0);
    RowsFlagged(g.edges, s, dest, tr.gens);
    BasisSize.RowCount(g.edges, s.forest, tr.rank, tr.tree, s.tmpe, tr.gens);
    BasisSize.Components(g.edges, s.forest, tr.rank, tr.tree);
  }

  /** With the deque empty and no vertex being scanned, the invariant does not depend on the root. */
  lemma AnyRoot(g: SG.Graph, s: Search, dest: IMatrix, tr: Trace, root: int, root': int)
    requires Inv(g, s, dest, tr, root, None) && s.deque == []
    ensures Inv(g, s, dest, tr, root', None)
  {
  }

  /**
   * One turn of the outer `for` of `getCycles`: an unreached vertex `i`
   * becomes a root and its whole tree is grown; a reached one is already
   * part of a complete tree.
   */
  method GrowTree(g: SG.Graph, s: Search, dest: IMatrix, t: Traversing, ghost tr: Trace, i: int)
    returns (s': Search, dest': IMatrix, ghost tr': Trace)
    requires Inv(g, s, dest, tr, 0, None) && s.deque == [] && 0 <= i < |g.vertices| && FlagsOk(g.edges, s.forest, s.tmpe)
    ensures Inv(g, s', dest', tr', 0, None) && s'.deque == [] && Grows(s, tr, s', tr') && FlagsOk(g.edges, s'.forest, s'.tmpe)
    ensures s'.forest[i].Reached?
  {
    s', dest', tr' := s, dest, tr;
    if s.forest[i] == Unreached {
      s' := s.(forest := s.forest[i := Reached(None)], deque := Push(s.deque, i));
      tr' := tr.(rank := tr.rank[i := 0], tree := tr.tree[i := i]);
      NewRootKeeps(g, s, dest, tr, i, s', tr');
      NewRootFlags(g.edges, s, i, s');
      ghost var s1, tr1 := s', tr';
      s', dest', tr' := DrainDeque(g, s', dest', t, tr', i);
      GrowsTrans(g, s, tr, s1, tr1, s', tr');
      AnyRoot(g, s', dest', tr', i, 0);
    }
  }

  /** The rows are exactly one per flagged edge. */
  lemma RowsFlagged(es: seq<SG.Edge>, s: Search, dest: IMatrix, gens: seq<int>)
    requires |s.tmpe| == |es| && RowsOk(es, s, dest, gens)
    ensures forall e :: 0 <= e < |es| ==> (s.tmpe[e] == 1 <==> e in gens)
  {
    forall e | 0 <= e < |es| && e in gens
      ensures s.tmpe[e] == 1
    {
      var r :| 0 <= r < |gens| && gens[r] == e;
    }
  }

  /** Reached vertices stay reached, so the reached prefix grows by vertex `i`. */
  lemma PrefixReached(g: SG.Graph, s: Search, tr: Trace, s': Search, tr': Trace, i: int)
    requires Sized(g, s, tr) && Sized(g, s', tr') && Grows(s, tr, s', tr') && 0 <= i < |s'.forest|
    requires (forall x :: 0 <= x < i ==> s.forest[x].Reached?) && s'.forest[i].Reached?
    ensures forall x :: 0 <= x <= i ==> s'.forest[x].Reached?
  {
  }

  /**
   * `getCycles(dest, traversing)`: after the run every vertex is reached,
   * the parent edges form a forest, every edge is the parent edge of one of
   * its ends or flagged, and the rows are the fundamental cycles of the
   * flagged edges, one row per flagged edge, in flagging order. There are
   * |E| - |V| + C rows, C being the number of trees, which are the
   * connected components.
   */
  method GetCycles(g: SG.Graph, dest: Option<IMatrix>, t: Traversing) returns (k: IMatrix, s: Search, ghost tr: Trace)
    requires SG.Valid(g)
    requires dest.Some? ==> IMatrixCsr.Valid(dest.value)
    ensures IMatrixCsr.Valid(k) && k.numCols == |g.edges|
    ensures |s.forest| == |g.vertices| && |s.tmpe| == |g.edges| && s.deque == []
    ensures forall x :: 0 <= x < |g.vertices| ==> s.forest[x].Reached?
    ensures Forest(g.edges, s.forest, tr.rank, tr.tree)
    ensures forall e :: 0 <= e < |g.edges| ==>
              s.forest[g.edges[e].src] == Reached(Some(e)) || s.forest[g.edges[e].tgt] == Reached(Some(e)) || s.tmpe[e] == 1
    ensures |tr.gens| == Csr.NumRows(k)
    ensures forall r :: 0 <= r < |tr.gens| ==> FundamentalRow(g.edges, s.forest, Csr.RowsOf(k)[r], tr.gens[r])
    ensures forall r1, r2 :: 0 <= r1 < r2 < |tr.gens| ==> tr.gens[r1] != tr.gens[r2]
    ensures forall e :: 0 <= e < |g.edges| ==> (s.tmpe[e] == 1 <==> e in tr.gens)
    ensures forall e :: 0 <= e < |g.edges| && s.tmpe[e] == 1 ==> !IsTreeEdge(s.forest, e)
    ensures Csr.NumRows(k) == |g.edges| - |g.vertices| + |BasisSize.Roots(s.forest)|
    ensures forall x :: 0 <= x < |g.vertices| ==> BasisSize.JoinedToRoot(g.edges, s.forest, x)
    ensures forall r1, r2 :: r1 in BasisSize.Roots(s.forest) && r2 in BasisSize.Roots(s.forest) && r1 != r2 ==>
              !BasisSize.Connected(g.edges, r1, r2)
  {
    s := Init(g);
    k := ResetOrCreate(dest, |s.tmpe|);
    tr := Trace(seq(|g.vertices|, _ => 0), seq(|g.vertices|, _ => 0), seq(|g.vertices|, _ => false), []);
    InitKeeps(g, s, k, tr);
    for i := 0 to |g.vertices|
      invariant Inv(g, s, k, tr, 0, None) && s.deque == [] && FlagsOk(g.edges, s.forest, s.tmpe)
      invariant forall x :: 0 <= x < i ==> s.forest[x].Reached?
    {
      ghost var s0, tr0 := s, tr;
      s, k, tr := GrowTree(g, s, k, t, tr, i);
      PrefixReached(g, s0, tr0, s, tr, i);
    }
    AllScanned(g, s, k, tr, 0);
    RowsFlagged(g.edges, s, k, tr.gens);
    BasisFacts(g, s, k, tr);
  }
}
