/**
 * SchemaGraph: vertices and edges in insertion order plus their incidence
 * structure. A vertex or an edge is identified by its index, which
 * `addVertex`/`addEdge` assign densely; `vertices[i]` is the index stored on
 * the i-th vertex and an edge records the indices of its end vertices.
 */
module SchemaGraph {
  import opened Wrappers
  import L = ListOfIncidence

  datatype Edge = Edge(index: int, src: int, tgt: int)

  datatype Graph = Graph(vertices: seq<int>, edges: seq<Edge>, loi: L.Loi)

  /** `v` is an end vertex of `e`. */
  predicate Touches(e: Edge, v: int) {
    e.src == v || e.tgt == v
  }

  function NumVertices(g: Graph): nat {
    |g.vertices|
  }

  function NumEdges(g: Graph): nat {
    |g.edges|
  }

  /** Dense indices, edges between distinct existing vertices, one incidence region per vertex. */
  ghost predicate Shape(g: Graph) {
    && L.Valid(g.loi) && L.NumVertices(g.loi) == |g.vertices|
    && (forall i :: 0 <= i < |g.vertices| ==> g.vertices[i] == i)
    && (forall k :: 0 <= k < |g.edges| ==>
          g.edges[k].index == k && 0 <= g.edges[k].src < |g.vertices| && 0 <= g.edges[k].tgt < |g.vertices|
          && g.edges[k].src != g.edges[k].tgt)
  }

  /** Every entry in a vertex's incidence range is an edge of the graph that touches the vertex. */
  ghost predicate Sound(g: Graph)
    requires Shape(g)
  {
    forall v, j :: 0 <= v < |g.vertices| && 0 <= j < |L.EdgesOf(g.loi, v)| ==>
      L.EdgesOf(g.loi, v)[j].Some? && 0 <= L.EdgesOf(g.loi, v)[j].value < |g.edges|
      && Touches(g.edges[L.EdgesOf(g.loi, v)[j].value], v)
  }

  /** Every edge is entered in the incidence range of both its end vertices. */
  ghost predicate Complete(g: Graph)
    requires Shape(g)
  {
    forall k :: 0 <= k < |g.edges| ==>
      Some(k) in L.EdgesOf(g.loi, g.edges[k].src) && Some(k) in L.EdgesOf(g.loi, g.edges[k].tgt)
  }

  /** No edge is entered twice into one vertex's range. */
  ghost predicate Unique(g: Graph)
    requires Shape(g)
  {
    forall v, i, j :: 0 <= v < |g.vertices| && 0 <= i < j < |L.EdgesOf(g.loi, v)| ==>
      L.EdgesOf(g.loi, v)[i] != L.EdgesOf(g.loi, v)[j]
  }

  ghost predicate Valid(g: Graph) {
    Shape(g) && Sound(g) && Complete(g) && Unique(g)
  }

  /** A new graph: no vertices, no edges, a default incidence structure. */
  function New(): (g: Graph)
    ensures Valid(g) && NumVertices(g) == 0 && NumEdges(g) == 0
  {
    Graph([], [], L.Default())
  }

  /**
   * `addVertex(v, degree)`: the vertex gets the index equal to the vertex
   * count before the call and an empty incidence range with room for
   * `degree + MemRes` edges.
   */
  function AddVertex(g: Graph, degree: int): (r: Graph)
    requires Valid(g) && degree + L.MemRes >= 0
    ensures Valid(r) && r.vertices == g.vertices + [|g.vertices|] && r.edges == g.edges
    ensures L.EdgesOf(r.loi, |g.vertices|) == []
    ensures L.Limit(r.loi, |g.vertices|) - L.Begin(r.loi, |g.vertices|) == degree + L.MemRes
    ensures forall v :: 0 <= v < |g.vertices| ==>
              L.EdgesOf(r.loi, v) == L.EdgesOf(g.loi, v) && L.Limit(r.loi, v) == L.Limit(g.loi, v)
  {
    var r := Graph(g.vertices + [|g.vertices|], g.edges, L.AppendVertex(g.loi, degree));
    assert forall v :: 0 <= v < |g.vertices| ==> L.EdgesOf(r.loi, v) == L.EdgesOf(g.loi, v);
    r
  }

  /** Vertex `v`'s range still has room for one more edge. */
  ghost predicate HasRoom(g: Graph, v: int)
    requires Shape(g) && 0 <= v < |g.vertices|
  {
    L.End(g.loi, v) < L.Limit(g.loi, v)
  }

  /**
   * `addEdge(src, tgt, e)`: the edge gets the index equal to the edge count
   * before the call, records `src` and `tgt`, and is entered into both
   * their ranges. The source checks neither for a loop (`src == tgt` would
   * enter the edge twice into one range) nor for room in the ranges; both
   * are required here.
   */
  function AddEdge(g: Graph, s: int, t: int): (r: Graph)
    requires Valid(g) && 0 <= s < |g.vertices| && 0 <= t < |g.vertices| && s != t
    requires HasRoom(g, s) && HasRoom(g, t)
    ensures Valid(r) && r.vertices == g.vertices
    ensures r.edges == g.edges + [Edge(|g.edges|, s, t)]
    ensures L.EdgesOf(r.loi, s) == L.EdgesOf(g.loi, s) + [Some(|g.edges|)]
    ensures L.EdgesOf(r.loi, t) == L.EdgesOf(g.loi, t) + [Some(|g.edges|)]
    ensures forall v :: 0 <= v < |g.vertices| && v != s && v != t ==> L.EdgesOf(r.loi, v) == L.EdgesOf(g.loi, v)
    ensures forall v :: 0 <= v < |g.vertices| ==> L.Limit(r.loi, v) == L.Limit(g.loi, v)
  {
    L.AddEdgeAppends(g.loi, s, t, |g.edges|);
    var r := Graph(g.vertices, g.edges + [Edge(|g.edges|, s, t)], L.AddEdge(g.loi, s, t, |g.edges|));
    AddEdgeShape(g, s, t, r);
    AddEdgeSound(g, s, t, r);
    AddEdgeComplete(g, s, t, r);
    AddEdgeUnique(g, s, t, r);
    r
  }

  lemma AddEdgeShape(g: Graph, s: int, t: int, r: Graph)
    requires Valid(g) && 0 <= s < |g.vertices| && 0 <= t < |g.vertices| && s != t
    requires L.Valid(r.loi) && L.NumVertices(r.loi) == |g.vertices|
    requires r.vertices == g.vertices && r.edges == g.edges + [Edge(|g.edges|, s, t)]
    ensures Shape(r)
  {
  }

  lemma AddEdgeSound(g: Graph, s: int, t: int, r: Graph)
    requires Valid(g) && 0 <= s < |g.vertices| && 0 <= t < |g.vertices| && s != t
    requires Shape(r) && r.vertices == g.vertices && r.edges == g.edges + [Edge(|g.edges|, s, t)]
    requires L.EdgesOf(r.loi, s) == L.EdgesOf(g.loi, s) + [Some(|g.edges|)]
    requires L.EdgesOf(r.loi, t) == L.EdgesOf(g.loi, t) + [Some(|g.edges|)]
    requires forall v :: 0 <= v < |g.vertices| && v != s && v != t ==> L.EdgesOf(r.loi, v) == L.EdgesOf(g.loi, v)
    ensures Sound(r)
  {
    forall v, j | 0 <= v < |r.vertices| && 0 <= j < |L.EdgesOf(r.loi, v)|
      ensures L.EdgesOf(r.loi, v)[j].Some? && 0 <= L.EdgesOf(r.loi, v)[j].value < |r.edges|
      ensures Touches(r.edges[L.EdgesOf(r.loi, v)[j].value], v)
    {
      var es := L.EdgesOf(r.loi, v);
      var os := L.EdgesOf(g.loi, v);
      if j < |os| {
        assert es[j] == os[j];
        assert g.edges[os[j].value] == r.edges[os[j].value];
      } else {
        assert v == s || v == t;
        assert es[j] == Some(|g.edges|);
      }
    }
  }

  lemma AddEdgeComplete(g: Graph, s: int, t: int, r: Graph)
    requires Valid(g) && 0 <= s < |g.vertices| && 0 <= t < |g.vertices| && s != t
    requires Shape(r) && r.vertices == g.vertices && r.edges == g.edges + [Edge(|g.edges|, s, t)]
    requires L.EdgesOf(r.loi, s) == L.EdgesOf(g.loi, s) + [Some(|g.edges|)]
    requires L.EdgesOf(r.loi, t) == L.EdgesOf(g.loi, t) + [Some(|g.edges|)]
    requires forall v :: 0 <= v < |g.vertices| && v != s && v != t ==> L.EdgesOf(r.loi, v) == L.EdgesOf(g.loi, v)
    ensures Complete(r)
  {
    forall k | 0 <= k < |r.edges|
      ensures Some(k) in L.EdgesOf(r.loi, r.edges[k].src) && Some(k) in L.EdgesOf(r.loi, r.edges[k].tgt)
    {
      if k < |g.edges| {
        assert r.edges[k] == g.edges[k];
        assert Some(k) in L.EdgesOf(g.loi, g.edges[k].src);
        assert Some(k) in L.EdgesOf(g.loi, g.edges[k].tgt);
      }
    }
  }

  /** The new edge's index is larger than every index already in a range, so it enters no range twice. */
  lemma AddEdgeUnique(g: Graph, s: int, t: int, r: Graph)
    requires Shape(g) && Sound(g) && Unique(g) && 0 <= s < |g.vertices| && 0 <= t < |g.vertices|
    requires Shape(r) && r.vertices == g.vertices
    requires L.EdgesOf(r.loi, s) == L.EdgesOf(g.loi, s) + [Some(|g.edges|)]
    requires L.EdgesOf(r.loi, t) == L.EdgesOf(g.loi, t) + [Some(|g.edges|)]
    requires forall v :: 0 <= v < |g.vertices| && v != s && v != t ==> L.EdgesOf(r.loi, v) == L.EdgesOf(g.loi, v)
    ensures Unique(r)
  {
    forall v, i, j | 0 <= v < |r.vertices| && 0 <= i < j < |L.EdgesOf(r.loi, v)|
      ensures L.EdgesOf(r.loi, v)[i] != L.EdgesOf(r.loi, v)[j]
    {
      var es := L.EdgesOf(r.loi, v);
      var os := L.EdgesOf(g.loi, v);
      assert es[i] == os[i];
      if j < |os| {
        assert es[j] == os[j];
      } else {
        assert os[i].value < |g.edges|;
      }
    }
  }

  /** `clear()`: no vertices, no edges, an empty incidence structure. */
  function Clear(g: Graph): (r: Graph)
    requires Valid(g)
    ensures Valid(r) && NumVertices(r) == 0 && NumEdges(r) == 0 && L.NumVertices(r.loi) == 0
    ensures r.loi.slots.size == 0
  {
    Graph([], [], L.Clear(g.loi))
  }

  /** Every slot inside vertex `v`'s range holds an edge of the graph touching `v`. */
  lemma RangeEntryTouches(g: Graph, v: int, j: int)
    requires Valid(g) && 0 <= v < |g.vertices| && L.Begin(g.loi, v) <= j < L.End(g.loi, v)
    ensures j < g.loi.slots.Capacity()
    ensures L.GetSlot(g.loi, j).Some? && 0 <= L.GetSlot(g.loi, j).value < |g.edges|
    ensures Touches(g.edges[L.GetSlot(g.loi, j).value], v)
  {
    L.EdgesOfSlot(g.loi, v, j);
  }

  /** Every edge sits at some slot of each end vertex's range. */
  lemma EdgeInRange(g: Graph, k: int, v: int) returns (j: int)
    requires Shape(g) && Complete(g) && 0 <= k < |g.edges| && 0 <= v < |g.vertices| && Touches(g.edges[k], v)
    ensures L.Begin(g.loi, v) <= j < L.End(g.loi, v) && j < g.loi.slots.Capacity()
    ensures L.GetSlot(g.loi, j) == Some(k)
  {
    assert Some(k) in L.EdgesOf(g.loi, g.edges[k].src) && Some(k) in L.EdgesOf(g.loi, g.edges[k].tgt);
    j := L.SlotOf(g.loi, v, Some(k));
  }
}
