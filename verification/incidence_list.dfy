/**
 * IncidenceList: the older fixed-stride incidence structure. Vertex `v`
 * owns the `stride` slots starting at `v * stride`; its first `degree(v)`
 * slots hold its incident edges (by index; `None` is an empty slot).
 */
module IncidenceList {
  import opened Wrappers
  import opened Strides

  datatype IncList = IncList(stride: nat, degrees: seq<int>, slots: seq<Option<int>>)

  /** One block of `stride` slots per degree entry, and no block overfilled. */
  ghost predicate Valid(l: IncList) {
    && |l.slots| == RowStart(|l.degrees|, l.stride)
    && (forall v :: 0 <= v < |l.degrees| ==> 0 <= l.degrees[v] <= l.stride)
  }

  /** `IncidenceList(stride, initialCapacity)`: all degrees zero, all slots empty. */
  function New(stride: nat, initialCapacity: nat): (l: IncList)
    ensures Valid(l) && l.stride == stride && |l.degrees| == initialCapacity
    ensures forall v :: 0 <= v < initialCapacity ==> Incident(l, v) == []
  {
    RowStartIsProduct(initialCapacity, stride);
    IncList(stride, seq(initialCapacity, _ => 0), seq(initialCapacity * stride, _ => None))
  }

  /** `IncidenceList()`: stride 10, room for 40 vertices. */
  function Default(): (l: IncList)
    ensures Valid(l) && l.stride == 10 && |l.degrees| == 40
  {
    New(10, 40)
  }

  /** `begin(vertexIdx)`: the first slot of the vertex's block. */
  function Begin(l: IncList, v: int): int {
    v * l.stride
  }

  /** `degree(vertexIdx)`. */
  function Degree(l: IncList, v: int): int
    requires 0 <= v < |l.degrees|
  {
    l.degrees[v]
  }

  /** `get(idx)`. */
  function GetSlot(l: IncList, k: int): Option<int>
    requires 0 <= k < |l.slots|
  {
    l.slots[k]
  }

  /** Vertex `v`'s block starts at `RowStart(v, stride)` and lies inside the slots. */
  lemma BlockInside(l: IncList, v: int)
    requires Valid(l) && 0 <= v < |l.degrees|
    ensures Begin(l, v) == RowStart(v, l.stride)
    ensures Begin(l, v) + l.stride <= |l.slots|
  {
    RowStartIsProduct(v, l.stride);
    RowsApart(v, |l.degrees|, l.stride);
  }

  /** The edges of vertex `v`: slots `[begin(v), begin(v) + degree(v))`. */
  function Incident(l: IncList, v: int): (es: seq<Option<int>>)
    requires Valid(l) && 0 <= v < |l.degrees|
    ensures |es| == Degree(l, v)
  {
    BlockInside(l, v);
    l.slots[Begin(l, v)..Begin(l, v) + l.degrees[v]]
  }

  /**
   * The private `addEdge(v, e)`: stores `e` right after the vertex's
   * current edges and bumps its degree. There is no bound check; the Java
   * array accesses demand the vertex and the slot to exist.
   */
  function AddEdgeAt(l: IncList, v: int, e: int): (r: IncList)
    requires 0 <= v < |l.degrees| && 0 <= Begin(l, v) + l.degrees[v] < |l.slots|
    ensures r.stride == l.stride && |r.degrees| == |l.degrees| && |r.slots| == |l.slots|
  {
    var d := l.degrees[v];
    IncList(l.stride, l.degrees[v := d + 1], l.slots[Begin(l, v) + d := Some(e)])
  }

  /** `addEdge(src, tgt, e)`: enters `e` for the source, then for the target. */
  function AddEdge(l: IncList, s: int, t: int, e: int): (r: IncList)
    requires 0 <= s < |l.degrees| && 0 <= Begin(l, s) + l.degrees[s] < |l.slots|
    requires 0 <= t < |l.degrees|
    requires 0 <= Begin(l, t) + (if s == t then l.degrees[t] + 1 else l.degrees[t]) < |l.slots|
    ensures r.stride == l.stride && |r.degrees| == |l.degrees| && |r.slots| == |l.slots|
  {
    AddEdgeAt(AddEdgeAt(l, s, e), t, e)
  }

  /**
   * While vertex `v` has fewer than `stride` edges, the private `addEdge`
   * appends `e` to its edges (at `begin(v) + degree(v)`) and no other
   * vertex's edges change. At `degree(v) == stride` the write would land
   * in vertex `v + 1`'s block, so that case is excluded.
   */
  lemma AddEdgeAtAppends(l: IncList, v: int, e: int)
    requires Valid(l) && 0 <= v < |l.degrees| && l.degrees[v] < l.stride
    ensures 0 <= Begin(l, v) + l.degrees[v] < |l.slots|
    ensures Valid(AddEdgeAt(l, v, e))
    ensures Degree(AddEdgeAt(l, v, e), v) == Degree(l, v) + 1
    ensures Incident(AddEdgeAt(l, v, e), v) == Incident(l, v) + [Some(e)]
    ensures forall u :: 0 <= u < |l.degrees| && u != v ==> Incident(AddEdgeAt(l, v, e), u) == Incident(l, u)
  {
    BlockInside(l, v);
    var r := AddEdgeAt(l, v, e);
    assert Incident(r, v) == Incident(l, v) + [Some(e)];
    forall u | 0 <= u < |l.degrees| && u != v
      ensures Incident(r, u) == Incident(l, u)
    {
      BlockInside(l, u);
      if u < v {
        RowsApart(u, v, l.stride);
      } else {
        RowsApart(v, u, l.stride);
      }
    }
  }

  /** `addEdge(s, t, e)` for two distinct vertices with room enters `e` once into each one's edges. */
  lemma AddEdgeAppends(l: IncList, s: int, t: int, e: int)
    requires Valid(l) && 0 <= s < |l.degrees| && 0 <= t < |l.degrees| && s != t
    requires l.degrees[s] < l.stride && l.degrees[t] < l.stride
    ensures 0 <= Begin(l, s) + l.degrees[s] < |l.slots| && 0 <= Begin(l, t) + l.degrees[t] < |l.slots|
    ensures Valid(AddEdge(l, s, t, e))
    ensures Incident(AddEdge(l, s, t, e), s) == Incident(l, s) + [Some(e)]
    ensures Incident(AddEdge(l, s, t, e), t) == Incident(l, t) + [Some(e)]
    ensures forall u :: 0 <= u < |l.degrees| && u != s && u != t ==> Incident(AddEdge(l, s, t, e), u) == Incident(l, u)
  {
    AddEdgeAtAppends(l, s, e);
    AddEdgeAtAppends(l, t, e);
    AddEdgeAtAppends(AddEdgeAt(l, s, e), t, e);
  }

  /** `clear()`: every degree drops to zero; the stored edge references stay in their slots. */
  function Clear(l: IncList): (r: IncList)
    requires Valid(l)
    ensures Valid(r) && |r.degrees| == |l.degrees| && r.slots == l.slots && r.stride == l.stride
    ensures forall v :: 0 <= v < |l.degrees| ==> Incident(r, v) == []
  {
    IncList(l.stride, seq(|l.degrees|, _ => 0), l.slots)
  }

  /**
   * `ensureCapacity(vertexIdx)` as written: only when the degree table is
   * strictly shorter than `vertexIdx`, it grows once, to `length * 3 / 2`
   * entries and `stride` slots per entry, keeping the old contents.
   */
  function EnsureCapacity(l: IncList, vertexIdx: int): (r: IncList)
    requires Valid(l)
    ensures Valid(r) && r.stride == l.stride
    ensures |r.degrees| == if |l.degrees| < vertexIdx then |l.degrees| * 3 / 2 else |l.degrees|
    ensures |r.degrees| >= |l.degrees| && |r.slots| >= |l.slots|
    ensures r.degrees[..|l.degrees|] == l.degrees && r.slots[..|l.slots|] == l.slots
    ensures forall v :: 0 <= v < |l.degrees| ==> Incident(r, v) == Incident(l, v)
  {
    if |l.degrees| < vertexIdx then Grown(l, |l.degrees| * 3 / 2) else l
  }

  /** Both tables widened to `n` entries, old contents first, new degrees zero and new slots empty. */
  function Grown(l: IncList, n: int): (r: IncList)
    requires Valid(l) && n >= |l.degrees|
    ensures Valid(r) && r.stride == l.stride && |r.degrees| == n
    ensures |r.degrees| >= |l.degrees| && |r.slots| >= |l.slots|
    ensures r.degrees[..|l.degrees|] == l.degrees && r.slots[..|l.slots|] == l.slots
    ensures forall v :: 0 <= v < |l.degrees| ==> Incident(r, v) == Incident(l, v)
  {
    RowsNested(|l.degrees|, n, l.stride);
    var r := IncList(l.stride, l.degrees + seq(n - |l.degrees|, _ => 0),
                     l.slots + seq(RowStart(n, l.stride) - |l.slots|, _ => None));
    assert forall v :: 0 <= v < |l.degrees| ==> Incident(r, v) == Incident(l, v) by {
      forall v | 0 <= v < |l.degrees| ensures Incident(r, v) == Incident(l, v) {
        BlockInside(l, v);
      }
    }
    r
  }

  /** More rows of the same stride need at least as many slots. */
  lemma RowsNested(m: nat, n: nat, stride: nat)
    requires m <= n
    ensures RowStart(m, stride) <= RowStart(n, stride)
  {
    if m < n {
      RowsApart(m, n, stride);
    }
  }

  /**
   * The growth step does not reach the requested size: a table of one
   * entry stays at one (`1 * 3 / 2 == 1`), so `ensureCapacity(2)` leaves
   * vertex 1 without a degree entry.
   */
  lemma EnsureCapacityFallsShort()
    ensures |EnsureCapacity(New(10, 1), 2).degrees| == 1
  {
  }

  /**
   * `ensureCapacity` as evidently intended: when the table is shorter than
   * `vertexIdx`, it grows by half or to `vertexIdx`, whichever is more.
   */
  function EnsureCapacityAtLeast(l: IncList, vertexIdx: int): (r: IncList)
    requires Valid(l)
    ensures Valid(r) && r.stride == l.stride
    ensures |r.degrees| >= vertexIdx && |r.degrees| >= |l.degrees|
    ensures |l.degrees| >= vertexIdx ==> r == l
    ensures |r.degrees| >= |l.degrees| && |r.slots| >= |l.slots|
    ensures r.degrees[..|l.degrees|] == l.degrees && r.slots[..|l.slots|] == l.slots
    ensures forall v :: 0 <= v < |l.degrees| ==> Incident(r, v) == Incident(l, v)
  {
    if |l.degrees| < vertexIdx then
      Grown(l, if |l.degrees| * 3 / 2 > vertexIdx then |l.degrees| * 3 / 2 else vertexIdx)
    else l
  }
}
