/**
 * ListOfIncidence: the incidence structure of a schema graph. All incidence
 * entries live in one shared arena `slots`; vertex `v` owns the region from
 * `begins[v]` up to the next vertex's begin (or the arena size for the last
 * vertex), and its incident edges fill that region from its start up to
 * `ends[v]`. Edges are identified by their index; an empty slot is `None`.
 */
module ListOfIncidence {
  import opened Wrappers
  import opened DynamicArrays

  /** Spare slots reserved for every vertex beyond its announced degree. */
  const MemRes := 2

  datatype Loi = Loi(begins: DynArray<int>, ends: DynArray<int>, slots: DynArray<Option<int>>)

  function NumVertices(l: Loi): int {
    l.begins.size
  }

  /** One past the last slot of vertex `v`'s region: where the next region begins. */
  function Limit(l: Loi, v: int): int
    requires l.begins.Valid() && 0 <= v < l.begins.size
  {
    if v + 1 < l.begins.size then l.begins.data[v + 1] else l.slots.size
  }

  /** Every vertex's filled range lies inside its region and the regions follow one another. */
  ghost predicate Valid(l: Loi) {
    && l.begins.Valid() && l.ends.Valid() && l.slots.Valid()
    && l.ends.size == l.begins.size
    && (forall v :: 0 <= v < l.begins.size ==> 0 <= l.begins.data[v] <= l.ends.data[v] <= Limit(l, v))
    && (forall v :: 0 <= v < l.begins.size ==> Limit(l, v) <= l.slots.size)
    && (forall u, v :: 0 <= u < v < l.begins.size ==> Limit(l, u) <= l.begins.data[v])
  }

  /** `ListOfIncidence(stride, initialCapacity)`: no vertices, buffers of the requested sizes. */
  function New(stride: nat, initialCapacity: nat): (l: Loi)
    ensures Valid(l) && NumVertices(l) == 0 && l.slots.size == 0
  {
    Loi(Create(initialCapacity, 0), Create(initialCapacity, 0), Create(initialCapacity * stride, None))
  }

  /** `ListOfIncidence()`: stride 10, room for 40 vertices. */
  function Default(): (l: Loi)
    ensures Valid(l) && NumVertices(l) == 0 && l.slots.size == 0
  {
    New(10, 40)
  }

  /** `begin(vIdx)`: reads the buffer of region starts. */
  function Begin(l: Loi, v: int): int
    requires 0 <= v < l.begins.Capacity()
  {
    Get(l.begins, v)
  }

  /** `end(vIdx)`: reads the buffer of range ends. */
  function End(l: Loi, v: int): int
    requires 0 <= v < l.ends.Capacity()
  {
    Get(l.ends, v)
  }

  /** `get(internalIndex)`: the arena slot. */
  function GetSlot(l: Loi, k: int): Option<int>
    requires 0 <= k < l.slots.Capacity()
  {
    Get(l.slots, k)
  }

  /** `edgesOf(vIdx)`: the slots from `begin(vIdx)` up to `end(vIdx)`. */
  function EdgesOf(l: Loi, v: int): (es: seq<Option<int>>)
    requires Valid(l) && 0 <= v < NumVertices(l)
    ensures |es| == End(l, v) - Begin(l, v)
  {
    l.slots.data[Begin(l, v)..End(l, v)]
  }

  /** Position `j` of the arena, inside `v`'s range, is entry `j - begin(v)` of `edgesOf(v)`. */
  lemma EdgesOfSlot(l: Loi, v: int, j: int)
    requires Valid(l) && 0 <= v < NumVertices(l) && Begin(l, v) <= j < End(l, v)
    ensures j < l.slots.Capacity() && EdgesOf(l, v)[j - Begin(l, v)] == GetSlot(l, j)
  {
  }

  /** An entry of `edgesOf(v)` sits at a position of the arena inside `v`'s range. */
  lemma SlotOf(l: Loi, v: int, x: Option<int>) returns (j: int)
    requires Valid(l) && 0 <= v < NumVertices(l) && x in EdgesOf(l, v)
    ensures Begin(l, v) <= j < End(l, v) && j < l.slots.Capacity() && GetSlot(l, j) == x
  {
    var es := EdgesOf(l, v);
    var i :| 0 <= i < |es| && es[i] == x;
    j := Begin(l, v) + i;
    EdgesOfSlot(l, v, j);
  }

  /** The buffers after `appendVertex(degree)`. */
  function Opened(l: Loi, degree: int): Loi
    requires Valid(l) && degree + MemRes >= 0
  {
    var n := l.slots.size;
    Loi(Append(l.begins, n, 0, CopyBuffer), Append(l.ends, n, 0, CopyBuffer),
        SetSize(l.slots, n + degree + MemRes, None, CopyBuffer))
  }

  /** Buffer by buffer: the new vertex's start and end are the old arena size, which grows by the region. */
  lemma OpenedFields(l: Loi, degree: int)
    requires Valid(l) && degree + MemRes >= 0
    ensures var r := Opened(l, degree);
      && r.begins.Valid() && r.ends.Valid() && r.slots.Valid()
      && r.begins.size == l.begins.size + 1 && r.ends.size == l.ends.size + 1
      && r.slots.size == l.slots.size + degree + MemRes
      && (forall u :: 0 <= u < l.begins.size ==> r.begins.data[u] == l.begins.data[u] && r.ends.data[u] == l.ends.data[u])
      && r.begins.data[l.begins.size] == l.slots.size && r.ends.data[l.begins.size] == l.slots.size
      && (forall k :: 0 <= k < l.slots.Capacity() ==> r.slots.data[k] == l.slots.data[k])
  {
    var r := Opened(l, degree);
    var n := l.begins.size;
    assert forall u :: 0 <= u <= n ==> r.begins.data[u] == r.begins.Contents()[u];
    assert forall u :: 0 <= u <= n ==> r.ends.data[u] == r.ends.Contents()[u];
    assert forall u :: 0 <= u < n ==> l.begins.data[u] == l.begins.Contents()[u];
    assert forall u :: 0 <= u < n ==> l.ends.data[u] == l.ends.Contents()[u];
  }

  /** The new region follows the last one, so the layout is kept and the old regions are untouched. */
  lemma OpenedValid(l: Loi, degree: int)
    requires Valid(l) && degree + MemRes >= 0
    ensures var r := Opened(l, degree);
      && Valid(r) && NumVertices(r) == NumVertices(l) + 1
      && Begin(r, NumVertices(l)) == End(r, NumVertices(l)) == l.slots.size
      && Limit(r, NumVertices(l)) == Begin(r, NumVertices(l)) + degree + MemRes
      && (forall v :: 0 <= v < NumVertices(l) ==>
            Begin(r, v) == Begin(l, v) && End(r, v) == End(l, v) && Limit(r, v) == Limit(l, v))
  {
    OpenedFields(l, degree);
    var r := Opened(l, degree);
    var n := NumVertices(l);
    assert forall v :: 0 <= v < n ==> Limit(r, v) == Limit(l, v);
  }

  /**
   * `appendVertex(degree)`: opens an empty region for a new vertex at the
   * end of the arena, `degree + MemRes` slots long. A degree below
   * `-MemRes` would shrink the arena under earlier ranges, so it is
   * excluded.
   */
  function AppendVertex(l: Loi, degree: int): (r: Loi)
    requires Valid(l) && degree + MemRes >= 0
    ensures Valid(r) && NumVertices(r) == NumVertices(l) + 1
    ensures Begin(r, NumVertices(l)) == End(r, NumVertices(l)) == l.slots.size
    ensures r.slots.size == l.slots.size + degree + MemRes
    ensures Limit(r, NumVertices(l)) == Begin(r, NumVertices(l)) + degree + MemRes
    ensures forall v :: 0 <= v < NumVertices(l) ==>
              Begin(r, v) == Begin(l, v) && End(r, v) == End(l, v) && Limit(r, v) == Limit(l, v)
    ensures forall v :: 0 <= v < NumVertices(l) ==> EdgesOf(r, v) == EdgesOf(l, v)
  {
    OpenedFields(l, degree);
    OpenedValid(l, degree);
    Opened(l, degree)
  }

  /** The private `addEdge(vIdx, e)`: stores `e` at `end(vIdx)` and moves that end by one. */
  function AddEdgeAt(l: Loi, v: int, e: int): (r: Loi)
    requires l.ends.Valid() && l.slots.Valid()
    requires 0 <= v < l.ends.Capacity() && 0 <= l.ends.data[v] < l.slots.Capacity()
    ensures r.begins == l.begins && r.ends.Valid() && r.slots.Valid()
    ensures r.ends.Capacity() == l.ends.Capacity() && r.slots.Capacity() == l.slots.Capacity()
  {
    var idx := l.ends.data[v];
    Loi(l.begins, DynArray(l.ends.data[v := idx + 1], l.ends.size), Set(l.slots, idx, Some(e)))
  }

  /** `addEdge(srcIdx, tgtIdx, e)`: enters `e` for the source, then for the target. */
  function AddEdge(l: Loi, s: int, t: int, e: int): (r: Loi)
    requires l.ends.Valid() && l.slots.Valid()
    requires 0 <= s < l.ends.Capacity() && 0 <= l.ends.data[s] < l.slots.Capacity()
    requires 0 <= t < l.ends.Capacity()
    requires 0 <= (if s == t then l.ends.data[t] + 1 else l.ends.data[t]) < l.slots.Capacity()
    ensures r.begins == l.begins && r.ends.Valid() && r.slots.Valid()
  {
    AddEdgeAt(AddEdgeAt(l, s, e), t, e)
  }

  /** The private `addEdge` keeps the layout while the range has room. */
  lemma AddEdgeAtValid(l: Loi, v: int, e: int)
    requires Valid(l) && 0 <= v < NumVertices(l) && End(l, v) < Limit(l, v)
    ensures l.ends.data[v] < l.slots.Capacity()
    ensures var r := AddEdgeAt(l, v, e);
      && Valid(r) && NumVertices(r) == NumVertices(l) && r.slots.size == l.slots.size
      && r.ends.data == l.ends.data[v := l.ends.data[v] + 1]
      && r.slots.data == l.slots.data[l.ends.data[v] := Some(e)]
      && (forall u :: 0 <= u < NumVertices(l) ==> Limit(r, u) == Limit(l, u))
  {
    var r := AddEdgeAt(l, v, e);
    assert forall u :: 0 <= u < NumVertices(l) ==> Limit(r, u) == Limit(l, u);
    assert forall u :: 0 <= u < NumVertices(l) ==> r.ends.data[u] == if u == v then l.ends.data[v] + 1 else l.ends.data[u];
  }

  /**
   * While vertex `v`'s range has not reached its region's limit, the
   * private `addEdge` appends `e` to `v`'s edges, and no other vertex's
   * range, region or edges change.
   */
  lemma AddEdgeAtAppends(l: Loi, v: int, e: int)
    requires Valid(l) && 0 <= v < NumVertices(l) && End(l, v) < Limit(l, v)
    ensures l.ends.data[v] < l.slots.Capacity()
    ensures Valid(AddEdgeAt(l, v, e)) && NumVertices(AddEdgeAt(l, v, e)) == NumVertices(l)
    ensures EdgesOf(AddEdgeAt(l, v, e), v) == EdgesOf(l, v) + [Some(e)]
    ensures forall u :: 0 <= u < NumVertices(l) ==>
              Begin(AddEdgeAt(l, v, e), u) == Begin(l, u) && Limit(AddEdgeAt(l, v, e), u) == Limit(l, u)
    ensures forall u :: 0 <= u < NumVertices(l) && u != v ==>
              End(AddEdgeAt(l, v, e), u) == End(l, u) && EdgesOf(AddEdgeAt(l, v, e), u) == EdgesOf(l, u)
  {
    AddEdgeAtValid(l, v, e);
    var r := AddEdgeAt(l, v, e);
    var idx := l.ends.data[v];
    assert EdgesOf(r, v) == EdgesOf(l, v) + [Some(e)];
    forall u | 0 <= u < NumVertices(l) && u != v
      ensures EdgesOf(r, u) == EdgesOf(l, u)
    {
      // Regions are disjoint: `idx` lies in `v`'s region, outside `u`'s range.
      assert idx < Begin(l, u) || End(l, u) <= idx by {
        if u < v {
          assert Limit(l, u) <= l.begins.data[v];
        } else {
          assert Limit(l, v) <= l.begins.data[u];
        }
      }
    }
  }

  /** `addEdge(s, t, e)` with room in both regions enters `e` once into each endpoint's edges. */
  lemma AddEdgeAppends(l: Loi, s: int, t: int, e: int)
    requires Valid(l) && 0 <= s < NumVertices(l) && 0 <= t < NumVertices(l) && s != t
    requires End(l, s) < Limit(l, s) && End(l, t) < Limit(l, t)
    ensures l.ends.data[s] < l.slots.Capacity() && l.ends.data[t] < l.slots.Capacity()
    ensures Valid(AddEdge(l, s, t, e)) && NumVertices(AddEdge(l, s, t, e)) == NumVertices(l)
    ensures EdgesOf(AddEdge(l, s, t, e), s) == EdgesOf(l, s) + [Some(e)]
    ensures EdgesOf(AddEdge(l, s, t, e), t) == EdgesOf(l, t) + [Some(e)]
    ensures forall u :: 0 <= u < NumVertices(l) ==>
              Begin(AddEdge(l, s, t, e), u) == Begin(l, u) && Limit(AddEdge(l, s, t, e), u) == Limit(l, u)
    ensures forall u :: 0 <= u < NumVertices(l) && u != s && u != t ==>
              End(AddEdge(l, s, t, e), u) == End(l, u) && EdgesOf(AddEdge(l, s, t, e), u) == EdgesOf(l, u)
  {
    AddEdgeAtAppends(l, s, e);
    var m := AddEdgeAt(l, s, e);
    AddEdgeAtAppends(m, t, e);
  }

  /** `clear()`: no vertices and an empty arena; the buffers keep their capacity. */
  function Clear(l: Loi): (r: Loi)
    requires Valid(l)
    ensures Valid(r) && NumVertices(r) == 0 && r.slots.size == 0 && r.ends.size == 0
    ensures r.begins.Capacity() == l.begins.Capacity() && r.slots.Capacity() == l.slots.Capacity()
  {
    Loi(SetSize(l.begins, 0, 0, CopyBuffer), SetSize(l.ends, 0, 0, CopyBuffer), SetSize(l.slots, 0, None, CopyBuffer))
  }
}
