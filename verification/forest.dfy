/**
 * The spanning forest the cycle basis grows: one entry per vertex, either
 * not reached yet or reached with its parent edge (`None` at a root). The
 * ghost `rank` (depth) and `tree` (root vertex) explain why following
 * parent edges always ends at a root.
 */
module SpanningForest {
  import opened Wrappers
  import SG = SchemaGraph
  import opened Walks

  /** A `spanningForest` entry: `null` (not reached) or the parent edge, `NONE` at a root. */
  datatype Reach = Unreached | Reached(parent: Option<int>)

  /**
   * A reached vertex's parent edge touches it, is no loop, and leads to a
   * reached vertex of lower rank in the same tree; a root is its own tree.
   */
  ghost predicate ParentOk(es: seq<SG.Edge>, forest: seq<Reach>, rank: seq<nat>, tree: seq<int>, x: int)
    requires |rank| == |forest| && |tree| == |forest| && 0 <= x < |forest|
  {
    forest[x].Reached? ==>
      match forest[x].parent
      case None => tree[x] == x
      case Some(e) =>
        && 0 <= e < |es| && SG.Touches(es[e], x) && es[e].src != es[e].tgt
        && var p := Opposite(es[e], x);
           0 <= p < |forest| && forest[p].Reached? && rank[p] < rank[x] && tree[p] == tree[x]
  }

  ghost predicate Forest(es: seq<SG.Edge>, forest: seq<Reach>, rank: seq<nat>, tree: seq<int>) {
    && |rank| == |forest| && |tree| == |forest|
    && forall x :: 0 <= x < |forest| ==> ParentOk(es, forest, rank, tree, x)
  }

  /** Edge `e` is the parent edge of some vertex. */
  ghost predicate IsTreeEdge(forest: seq<Reach>, e: int) {
    exists x :: 0 <= x < |forest| && forest[x] == Reached(Some(e))
  }

  /** The parent edges from `x` up to its root. */
  ghost function Chain(es: seq<SG.Edge>, forest: seq<Reach>, rank: seq<nat>, tree: seq<int>, x: int): seq<int>
    requires Forest(es, forest, rank, tree) && 0 <= x < |forest| && forest[x].Reached?
    decreases rank[x]
  {
    assert ParentOk(es, forest, rank, tree, x);
    match forest[x].parent
    case None => []
    case Some(e) => [e] + Chain(es, forest, rank, tree, Opposite(es[e], x))
  }

  /** The vertices from `x` up to its root. */
  ghost function ChainVerts(es: seq<SG.Edge>, forest: seq<Reach>, rank: seq<nat>, tree: seq<int>, x: int): (w: seq<int>)
    requires Forest(es, forest, rank, tree) && 0 <= x < |forest| && forest[x].Reached?
    ensures |w| == |Chain(es, forest, rank, tree, x)| + 1 && w[0] == x
    decreases rank[x]
  {
    assert ParentOk(es, forest, rank, tree, x);
    match forest[x].parent
    case None => [x]
    case Some(e) => [x] + ChainVerts(es, forest, rank, tree, Opposite(es[e], x))
  }

  /**
   * Following parent edges from `x` is a walk through reached vertices of
   * `x`'s tree, each left by its own parent edge, of strictly falling rank,
   * ending at the tree's root.
   */
  lemma {:induction false} ChainFacts(es: seq<SG.Edge>, forest: seq<Reach>, rank: seq<nat>, tree: seq<int>, x: int)
    requires Forest(es, forest, rank, tree) && 0 <= x < |forest| && forest[x].Reached?
    ensures var c, w := Chain(es, forest, rank, tree, x), ChainVerts(es, forest, rank, tree, x);
      && Walk(es, c, w)
      && (forall i :: 0 <= i < |w| ==> 0 <= w[i] < |forest| && forest[w[i]].Reached? && tree[w[i]] == tree[x])
      && (forall i :: 0 <= i < |c| ==> forest[w[i]].parent == Some(c[i]))
      && forest[w[|c|]].parent == None && w[|c|] == tree[x]
      && (forall i, j :: 0 <= i < j < |w| ==> rank[w[j]] < rank[w[i]])
    decreases rank[x]
  {
    assert ParentOk(es, forest, rank, tree, x);
    match forest[x].parent
    case None =>
    case Some(e) =>
      var p := Opposite(es[e], x);
      ChainFacts(es, forest, rank, tree, p);
      var c', w' := Chain(es, forest, rank, tree, p), ChainVerts(es, forest, rank, tree, p);
      var c, w := Chain(es, forest, rank, tree, x), ChainVerts(es, forest, rank, tree, x);
      assert c == [e] + c' && w == [x] + w';
      assert Walk(es, [e], [x, p]);
      WalkConcat(es, [e], [x, p], c', w');
      assert [x, p] + w'[1..] == w;
      forall i, j | 0 <= i < j < |w|
        ensures rank[w[j]] < rank[w[i]]
      {
        if i > 0 {
          assert w[i] == w'[i - 1] && w[j] == w'[j - 1];
        } else if j > 1 {
          assert w[j] == w'[j - 1] && w'[0] == p;
        }
      }
  }

  /** The vertices along a parent chain are pairwise distinct. */
  lemma ChainDistinct(es: seq<SG.Edge>, forest: seq<Reach>, rank: seq<nat>, tree: seq<int>, x: int)
    requires Forest(es, forest, rank, tree) && 0 <= x < |forest| && forest[x].Reached?
    ensures Distinct(ChainVerts(es, forest, rank, tree, x))
  {
    ChainFacts(es, forest, rank, tree, x);
  }

  /** An edge is the parent edge of at most one vertex: the parent end has the lower rank. */
  lemma ParentEdgeOnce(es: seq<SG.Edge>, forest: seq<Reach>, rank: seq<nat>, tree: seq<int>, x: int, y: int, e: int)
    requires Forest(es, forest, rank, tree) && 0 <= x < |forest| && 0 <= y < |forest|
    requires forest[x] == Reached(Some(e)) && forest[y] == Reached(Some(e))
    ensures x == y
  {
    assert ParentOk(es, forest, rank, tree, x);
    assert ParentOk(es, forest, rank, tree, y);
  }
}
