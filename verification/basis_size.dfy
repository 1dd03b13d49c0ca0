/**
 * The size of the cycle basis `getCycles` writes. Once every vertex is
 * reached, the parent edges form a spanning forest with one tree per
 * connected component of the graph; every edge is a parent edge or
 * flagged, never both, and there is one row per flagged edge. So the
 * number of rows is |E| - (|V| - C), with C the number of trees (roots),
 * which is the number of connected components.
 */
module BasisSize {
  import opened Wrappers
  import SG = SchemaGraph
  import opened Walks
  import opened SpanningForest

  /** The roots of the forest: reached vertices without a parent edge. */
  ghost function Roots(forest: seq<Reach>): set<int> {
    set x | 0 <= x < |forest| && forest[x] == Reached(None)
  }

  /** The reached vertices that have a parent edge. */
  ghost function Children(forest: seq<Reach>): set<int> {
    set x | 0 <= x < |forest| && forest[x].Reached? && forest[x].parent.Some?
  }

  /** The edges below `n` that are the parent edge of some vertex. */
  ghost function TreeEdges(forest: seq<Reach>, n: int): set<int> {
    set e | 0 <= e < n && IsTreeEdge(forest, e)
  }

  /** The edges whose `tmpe` flag is set. */
  ghost function Flagged(tmpe: seq<int>): set<int> {
    set e | 0 <= e < |tmpe| && tmpe[e] == 1
  }

  /** Some walk leads from `x` to `y`. */
  ghost predicate Connected(es: seq<SG.Edge>, x: int, y: int) {
    exists p: seq<int>, w: seq<int> :: Walk(es, p, w) && w[0] == x && w[|p|] == y
  }

  /** `x` is joined to some root. */
  ghost predicate JoinedToRoot(es: seq<SG.Edge>, forest: seq<Reach>, x: int) {
    exists r :: r in Roots(forest) && Connected(es, x, r)
  }

  /** Every edge has both ends in one tree. */
  ghost predicate TreesClosed(es: seq<SG.Edge>, tree: seq<int>) {
    forall e :: 0 <= e < |es| ==>
      0 <= es[e].src < |tree| && 0 <= es[e].tgt < |tree| && tree[es[e].src] == tree[es[e].tgt]
  }

  // ------------------------------------------------------------- counting

  /** The integers from 0 up to `n`, of which there are `n`. */
  function Range(n: nat): (r: set<int>)
    ensures forall i :: i in r <==> 0 <= i < n
    ensures |r| == n
  {
    if n == 0 then {} else Range(n - 1) + {n - 1}
  }

  /** A map that is one-to-one on a set of integers below `n` keeps its size. */
  lemma {:induction false} ImageCard(s: set<int>, n: nat, f: int -> int)
    requires forall x :: x in s ==> 0 <= x < n
    requires forall x, y :: x in s && y in s && f(x) == f(y) ==> x == y
    ensures |set x | x in s :: f(x)| == |s|
  {
    if n > 0 {
      var s' := s - {n - 1};
      ImageCard(s', n - 1, f);
      if n - 1 in s {
        assert s == s' + {n - 1};
        assert (set y | y in s :: f(y)) == (set y | y in s' :: f(y)) + {f(n - 1)};
      } else {
        assert s == s';
      }
    } else {
      var e: set<int> := {};
      assert forall y :: y in s <==> y in e;
    }
  }

  /**
   * In a forest reaching every vertex, the parent edges and the roots
   * together number the vertices: each non-root vertex has its own parent
   * edge, and no edge is the parent edge of two vertices.
   */
  lemma TreeEdgeCount(es: seq<SG.Edge>, forest: seq<Reach>, rank: seq<nat>, tree: seq<int>)
    requires Forest(es, forest, rank, tree)
    requires forall x :: 0 <= x < |forest| ==> forest[x].Reached?
    ensures |TreeEdges(forest, |es|)| + |Roots(forest)| == |forest|
  {
    var f := x => if 0 <= x < |forest| && forest[x].Reached? && forest[x].parent.Some? then forest[x].parent.value else -1;
    var ch := Children(forest);
    forall x, y | x in ch && y in ch && f(x) == f(y)
      ensures x == y
    {
      ParentEdgeOnce(es, forest, rank, tree, x, y, f(x));
    }
    ImageCard(ch, |forest|, f);
    var img := set x | x in ch :: f(x);
    forall e | e in TreeEdges(forest, |es|)
      ensures e in img
    {
      var x :| 0 <= x < |forest| && forest[x] == Reached(Some(e));
      assert x in ch && f(x) == e;
    }
    forall e | e in img
      ensures e in TreeEdges(forest, |es|)
    {
      var x :| x in ch && f(x) == e;
      assert ParentOk(es, forest, rank, tree, x);
    }
    assert img == TreeEdges(forest, |es|);
    assert ch + Roots(forest) == Range(|forest|);
    assert ch * Roots(forest) == {};
  }

  /** Every edge a parent edge or flagged, never both: the two kinds number the edges. */
  lemma EdgeSplit(es: seq<SG.Edge>, forest: seq<Reach>, tmpe: seq<int>)
    requires |tmpe| == |es|
    requires forall e :: 0 <= e < |es| ==> 0 <= es[e].src < |forest| && 0 <= es[e].tgt < |forest|
    requires forall e :: 0 <= e < |es| ==>
               forest[es[e].src] == Reached(Some(e)) || forest[es[e].tgt] == Reached(Some(e)) || tmpe[e] == 1
    requires forall e :: 0 <= e < |es| && tmpe[e] == 1 ==> !IsTreeEdge(forest, e)
    ensures |TreeEdges(forest, |es|)| + |Flagged(tmpe)| == |es|
  {
    forall e | 0 <= e < |es| && tmpe[e] != 1
      ensures IsTreeEdge(forest, e)
    {
      if forest[es[e].src] == Reached(Some(e)) {
        assert 0 <= es[e].src < |forest|;
      } else {
        assert 0 <= es[e].tgt < |forest| && forest[es[e].tgt] == Reached(Some(e));
      }
    }
    assert TreeEdges(forest, |es|) + Flagged(tmpe) == Range(|es|);
    assert TreeEdges(forest, |es|) * Flagged(tmpe) == {};
  }

  /** Pairwise distinct generators, exactly the flagged edges: as many as flagged edges. */
  lemma GensCount(gens: seq<int>, tmpe: seq<int>)
    requires forall r1, r2 :: 0 <= r1 < r2 < |gens| ==> gens[r1] != gens[r2]
    requires forall r :: 0 <= r < |gens| ==> 0 <= gens[r] < |tmpe|
    requires forall e :: 0 <= e < |tmpe| ==> (tmpe[e] == 1 <==> e in gens)
    ensures |gens| == |Flagged(tmpe)|
  {
    var f := i => if 0 <= i < |gens| then gens[i] else -1;
    var idx := Range(|gens|);
    ImageCard(idx, |gens|, f);
    var img := set i | i in idx :: f(i);
    forall e | e in Flagged(tmpe)
      ensures e in img
    {
      var r :| 0 <= r < |gens| && gens[r] == e;
      assert r in idx && f(r) == e;
    }
    forall e | e in img
      ensures e in Flagged(tmpe)
    {
      var r :| r in idx && f(r) == e;
      assert gens[r] in gens;
    }
    assert img == Flagged(tmpe);
  }

  /**
   * The row count of `getCycles`: one row per flagged edge makes
   * |E| - |V| + (number of roots) rows.
   */
  lemma RowCount(es: seq<SG.Edge>, forest: seq<Reach>, rank: seq<nat>, tree: seq<int>, tmpe: seq<int>, gens: seq<int>)
    requires Forest(es, forest, rank, tree)
    requires forall x :: 0 <= x < |forest| ==> forest[x].Reached?
    requires |tmpe| == |es|
    requires forall e :: 0 <= e < |es| ==> 0 <= es[e].src < |forest| && 0 <= es[e].tgt < |forest|
    requires forall e :: 0 <= e < |es| ==>
               forest[es[e].src] == Reached(Some(e)) || forest[es[e].tgt] == Reached(Some(e)) || tmpe[e] == 1
    requires forall e :: 0 <= e < |es| && tmpe[e] == 1 ==> !IsTreeEdge(forest, e)
    requires forall r1, r2 :: 0 <= r1 < r2 < |gens| ==> gens[r1] != gens[r2]
    requires forall r :: 0 <= r < |gens| ==> 0 <= gens[r] < |es|
    requires forall e :: 0 <= e < |es| ==> (tmpe[e] == 1 <==> e in gens)
    ensures |gens| == |es| - |forest| + |Roots(forest)|
  {
    TreeEdgeCount(es, forest, rank, tree);
    EdgeSplit(es, forest, tmpe);
    GensCount(gens, tmpe);
  }

  // ----------------------------------------------------------- components

  /** A walk never leaves the tree it starts in. */
  lemma {:induction false} WalkStaysInTree(es: seq<SG.Edge>, tree: seq<int>, p: seq<int>, w: seq<int>)
    requires TreesClosed(es, tree) && Walk(es, p, w) && 0 <= w[0] < |tree|
    ensures 0 <= w[|p|] < |tree| && tree[w[|p|]] == tree[w[0]]
    decreases |p|
  {
    if |p| > 0 {
      var n := |p| - 1;
      WalkPrefix(es, p, w, n);
      WalkStaysInTree(es, tree, p[..n], w[..n + 1]);
      assert w[..n + 1][n] == w[n] && w[..n + 1][0] == w[0];
      assert 0 <= p[n] < |es| && Joins(es[p[n]], w[n], w[n + 1]);
    }
  }

  /** Every reached vertex is joined to the root of its tree. */
  lemma ReachesRoot(es: seq<SG.Edge>, forest: seq<Reach>, rank: seq<nat>, tree: seq<int>, x: int)
    requires Forest(es, forest, rank, tree) && 0 <= x < |forest| && forest[x].Reached?
    ensures tree[x] in Roots(forest) && Connected(es, x, tree[x])
  {
    ChainFacts(es, forest, rank, tree, x);
    var c, w := Chain(es, forest, rank, tree, x), ChainVerts(es, forest, rank, tree, x);
    assert Walk(es, c, w) && w[0] == x && w[|c|] == tree[x];
    assert forest[w[|c|]].Reached?;
  }

  /** No walk joins two distinct roots when every edge stays inside one tree. */
  lemma RootsApart(es: seq<SG.Edge>, forest: seq<Reach>, rank: seq<nat>, tree: seq<int>, r1: int, r2: int)
    requires Forest(es, forest, rank, tree) && TreesClosed(es, tree)
    requires r1 in Roots(forest) && r2 in Roots(forest) && r1 != r2
    ensures !Connected(es, r1, r2)
  {
    assert ParentOk(es, forest, rank, tree, r1);
    assert ParentOk(es, forest, rank, tree, r2);
    forall p: seq<int>, w: seq<int> | Walk(es, p, w) && w[0] == r1
      ensures w[|p|] != r2
    {
      WalkStaysInTree(es, tree, p, w);
    }
  }

  /**
   * The trees are the connected components: every vertex is joined to a
   * root, and no two roots are joined.
   */
  lemma Components(es: seq<SG.Edge>, forest: seq<Reach>, rank: seq<nat>, tree: seq<int>)
    requires Forest(es, forest, rank, tree) && TreesClosed(es, tree)
    requires forall x :: 0 <= x < |forest| ==> forest[x].Reached?
    ensures forall x :: 0 <= x < |forest| ==> JoinedToRoot(es, forest, x)
    ensures forall r1, r2 :: r1 in Roots(forest) && r2 in Roots(forest) && r1 != r2 ==> !Connected(es, r1, r2)
  {
    forall x | 0 <= x < |forest|
      ensures JoinedToRoot(es, forest, x)
    {
      ReachesRoot(es, forest, rank, tree, x);
    }
    forall r1, r2 | r1 in Roots(forest) && r2 in Roots(forest) && r1 != r2
      ensures !Connected(es, r1, r2)
    {
      RootsApart(es, forest, rank, tree, r1, r2);
    }
  }
}
