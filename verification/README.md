# IcOpt core in Dafny

A Dafny model of the data structures and the cycle-basis algorithm at the
heart of IcOpt, a circuit solver that writes a network's loop equations.
The core is modelled: the schema graph and its arena incidence list, the
fundamental cycle basis it produces as a signed loop-incidence matrix, the
compressed-sparse-row (CSR) containers that hold that matrix and its
products, the small dense and diagonal helpers, and the growable arrays
underneath them all.

Every container is an immutable datatype, and every operation is a function
that returns the new state. The traversal of `getCycles` and the loops of
`makePath`, `trimToVertex`, `get`, `KZ` and the `KMatrix` constructor are
methods with loop invariants. Each module follows one source file:

- `DynamicArrays` (dynamic_arrays.dfy): the three growable arrays of `DynamicArrays.kt`, and the complex pair type.
- `Csr`, `IMatrixCsr`, `DMatrixCsr`, `ZMatrixCsr` (csr.dfy, csr_classes.dfy): the three CSR matrices, which share one generic CSR over growable arrays.
- `KMatrixCsr` (k_matrix_csr.dfy): CSR pattern plus dense row storage.
- `KMatrix` (k_matrix.dfy): a dense `byte` matrix with per-row nonzero index lists.
- `ZMatrixAc`, `VectorAc`, `VectorDc` (z_matrix_ac.dfy, vectors.dfy): AC row blocks and the two vectors.
- `ZMatrixDc`, `DcMatrixOps` (dc_matrix_ops.dfy): diagonal resistances and `KZ`.
- `ListOfIncidence`, `IncidenceList` (list_of_incidence.dfy, incidence_list.dfy): the arena incidence list and the older fixed-stride one.
- `SchemaGraph` (schema_graph.dfy): vertices, edges and their incidence.
- `Walks`, `SpanningForest` (walks.dfy, forest.dfy): walks, signed rows and parent chains, the vocabulary of the proofs.
- `CycleBasis`, `CycleSearch` (cycle_basis.dfy, cycle_search.dfy): `SchemaGraphCycleBasis`.
- `BasisSize` (basis_size.dfy): the row count of the finished basis and why its trees are the connected components.
- `Wrappers`, `JavaInts`, `Strides` (wrappers.dfy, java_ints.dfy, strides.dfy): `Option` and `Max`; Java `byte`/`short` casts; `i * n` as repeated addition.

How Java constructs map to the model:

- Object identity of vertices and edges becomes their index.
- The `NONE` sentinel and `null` become `Option`.
- A spanning-forest entry is `Unreached` or `Reached(parent)`.
- `float`/`double` payloads are `real`.
- The casts `(byte)` and `(short)` are written out as wrap-around.

`getCycles` is checked against a ghost trace that holds:

- each vertex's depth and tree root;
- which vertices have been scanned;
- which edge each row was written for.

## Model

| member | source | states |
|---|---|---|
| DynamicArrays.Create | src/main/java/DynamicArrays.kt:7-9 | The `(capacity)` constructor gives an empty array of exactly the requested capacity, all slots zero. |
| DynamicArrays.EnsureCapacity | src/main/java/DynamicArrays.kt:19-26 | It never shrinks and grows to exactly `max(request, capacity)`. The live contents are kept. The int variant (`CopyBuffer`) keeps the whole old buffer; the double variant (`CopyLive`, lines 65-72) keeps only the first `size` slots and zeroes the rest. New slots are zero. A request within capacity changes nothing. |
| DynamicArrays.SetSize | src/main/java/DynamicArrays.kt:13-17 | The `size` setter grows the capacity first: the new size fits, capacity is `max(n, capacity)`, and elements below both sizes are kept. |
| DynamicArrays.GrownCapacity | src/main/java/DynamicArrays.kt:30 | The growth step is `max(capacity * 3 / 2, 16)`. It is strictly larger than the old capacity and at least 16. |
| DynamicArrays.Append | src/main/java/DynamicArrays.kt:28-34 | The contents become the old contents plus the value. A full array grows to `GrownCapacity`, otherwise capacity is unchanged. With `CopyBuffer`, stale slots past the size survive. |
| DynamicArrays.Set | src/main/java/DynamicArrays.kt:40-42 | Slot `i` reads back the value and every other slot is unchanged. Size and capacity are kept. A live index updates the contents; a slot past the size leaves them unchanged. |
| DynamicArrays.CopyTo | src/main/java/DynamicArrays.kt:44-47 | The destination takes the source's size and live contents, with capacity `max(src.size, dest.capacity)`. |
| DynamicArrays.WrapComplex | src/main/java/DynamicArrays.kt:103-105 | The complex array exists exactly when the real and imaginary arrays have equal length. |
| DynamicArrays.EnsureCapacityComplex | src/main/java/DynamicArrays.kt:116-126 | Both parts grow to `max(request, capacity)` and keep their whole old buffers. |
| DynamicArrays.AppendComplexIsAppend | src/main/java/DynamicArrays.kt:130-137 | Appending `(re, im)` to the two parallel arrays is appending the pair to the zipped array, so both parts stay the same length. |
| DynamicArrays.SetComplexIsSet | src/main/java/DynamicArrays.kt:148-151 | Setting both parts at one index is setting the pair in the zipped array. |
| DynamicArrays.CopyToComplex | src/main/java/DynamicArrays.kt:153-157 | The destination takes the source's size and both parts' live contents. |
| Csr.End | src/main/java/ic/matrix/IMatrixCsr.java:41-48 | `begin(i) <= end(i) <= nzCnt` and `end(i) == begin(i + 1)`. |
| Csr.New | src/main/java/ic/matrix/IMatrixCsr.java:16-23 | A new matrix has row pointers `[0]`, no columns or values, and no rows. |
| Csr.Reset | src/main/java/ic/matrix/IMatrixCsr.java:51-57 | `reset(n)` gives the empty matrix with `numCols == n`. The column and value buffers keep their capacity; the row-pointer buffer keeps at least its capacity. |
| Csr.ResetRebuildIsFresh | src/test/java/ic/matrix/IMatrixCsrTest.java:55-67 | Resetting a used matrix and refilling it gives the same rows and buffers as filling a new one. |
| Csr.AddRow | src/main/java/ic/matrix/IMatrixCsr.java:60-62 | Adds one empty row with a copy of the last row pointer. Columns and values are unchanged. |
| Csr.Append | src/main/java/ic/matrix/IMatrixCsr.java:69-73 | Only the last row grows, by the entry `(c, v)`. The last row pointer goes up by one, and `c` and `v` are pushed in parallel. |
| Csr.Get | src/main/java/ic/matrix/IMatrixCsr.java:79-86 | Returns the value of the first entry of row `i` with column `j`, or zero when there is none. |
| Csr.FillRows | src/test/java/ic/matrix/IMatrixCsrTest.java:36-53 | Building rows by `addRow` and `append` yields exactly those rows after the existing ones. |
| Csr.Extensional | src/main/java/ic/matrix/IMatrixCsr.java:26-38 | Two valid CSR matrices with the same rows have the same row pointers, columns and values. |
| Csr.LookupSparseRow | src/test/java/ic/matrix/IMatrixCsrTest.java:85-95 | Storing a dense row's nonzeros in column order and reading any column back gives the dense value. |
| Csr.AddFilledRow | src/main/java/ic/matrix/IMatrixCsr.java:60-73 | `addRow` followed by `append` of a row's entries adds exactly that row after the old rows. Column count and zero are kept. |
| Csr.FillRowAt | src/test/java/ic/matrix/IMatrixCsrTest.java:36-53 | After filling, row `NumRows + i` is the `i`-th row given. |
| Csr.FillSparseReadBack | src/test/java/ic/matrix/IMatrixCsrTest.java:55-67 | Filling a matrix row by row with the nonzero cells of dense rows, as `fillKMatrix` does, and reading any cell of a filled row back gives the dense value. |
| Csr.SparseRowComplete | src/test/java/ic/matrix/IMatrixCsrTest.java:85-95 | Every nonzero cell of a dense row is among its stored entries. |
| IMatrixCsr.New | src/main/java/ic/matrix/IMatrixCsr.java:16-23 | An empty integer matrix with the given column count. |
| IMatrixCsr.Last | src/main/java/ic/matrix/IMatrixCsr.java:99-101 | `last(arr)` is the last live element. |
| IMatrixCsr.IncLast | src/main/java/ic/matrix/IMatrixCsr.java:104-107 | `incLast(arr, d)` adds `d` to the last live element and changes nothing else. |
| DMatrixCsr.New | src/main/java/ic/matrix/DMatrixCsr.java:13-20 | An empty real matrix with row pointers `[0]`. |
| DMatrixCsr.Reset | src/main/java/ic/matrix/DMatrixCsr.java:22-28 | No rows, no nonzeros, `numCols == n`. |
| DMatrixCsr.AddRow | src/main/java/ic/matrix/DMatrixCsr.java:30-32 | Adds an empty row; the nonzero count is unchanged. |
| DMatrixCsr.Append | src/main/java/ic/matrix/DMatrixCsr.java:54-58 | Only the last row grows, by `(c, v)`. |
| DMatrixCsr.Get | src/main/java/ic/matrix/DMatrixCsr.java:60-67 | Returns the first stored value with column `j` in row `i`, else 0.0. |
| ZMatrixCsr.New | src/main/java/ic/matrix/ZMatrixCsr.java:17-24 | An empty complex matrix with row pointers `[0]`. |
| ZMatrixCsr.Counts | src/main/java/ic/matrix/ZMatrixCsr.java:29-45 | The row count is one less than the number of row pointers, and the nonzero count equals the number of stored columns and of stored values. |
| ZMatrixCsr.Reset | src/main/java/ic/matrix/ZMatrixCsr.java:64-70 | No rows, no nonzeros, `numCols == n`. |
| ZMatrixCsr.AddRow | src/main/java/ic/matrix/ZMatrixCsr.java:76-78 | Repeats the last row pointer, which adds an empty row. Columns and values are untouched. |
| ZMatrixCsr.Append | src/main/java/ic/matrix/ZMatrixCsr.java:85-89 | The pair is stored at the same index as its column, and only the last row grows. |
| ZMatrixCsr.Get | src/main/java/ic/matrix/ZMatrixCsr.java:95-103 | Returns the first stored pair with column `j` in row `i`, else `(0, 0)`. |
| KMatrixCsr.New | src/main/java/ic/matrix/KMatrixCsr.java:15-22 | Row pointers `[0]`, no columns, no dense rows, and a dense buffer of `12 * numCols` slots. |
| KMatrixCsr.Reset | src/main/java/ic/matrix/KMatrixCsr.java:24-32 | No rows and `numCols` set. Capacities are kept, and every dense backing slot is zero. |
| KMatrixCsr.AddRow | src/main/java/ic/matrix/KMatrixCsr.java:34-39 | Adds a dense row of `numCols` zeros and an empty column list. |
| KMatrixCsr.Append | src/main/java/ic/matrix/KMatrixCsr.java:69-73 | Only cell `c` of the last dense row changes, to `v`, and `c` is listed after the last row's columns. |
| KMatrixCsr.LastRowIdx | src/main/java/ic/matrix/KMatrixCsr.java:45-47 | `lastRowIdx() == numRows() - 1`. |
| KMatrixCsr.Get | src/main/java/ic/matrix/KMatrixCsr.java:53-55 | Reads cell `c` of dense row `i`. |
| KMatrixCsr.Anchor | src/main/java/ic/matrix/KMatrixCsr.java:57-59 | Row `i`'s `numCols` dense slots start at the anchor. |
| KMatrixCsr.CsrEnd | src/main/java/ic/matrix/KMatrixCsr.java:61-67 | The columns between `csrBegin(i)` and `csrEnd(i)` are exactly row `i`'s column list. |
| KMatrixCsr.AppendKeepsSparse | src/main/java/ic/matrix/KMatrixCsr.java:69-73 | If every nonzero dense cell is listed in its row's columns, `append` keeps that so. |
| KMatrixCsr.ResetFillDense | src/test/java/ic/matrix/KMatrixCsrTest.java:55-67 | After `reset`, writing rows again reads back exactly those rows. A cell never appended reads 0. |
| KMatrix.New | src/main/java/ic/matrix/KMatrix.java:10-13 | All cells are zero, and every row's index list is empty with room for `nCols` entries. |
| KMatrix.NonzeroColsSpec | src/main/java/ic/matrix/KMatrix.java:21-25 | The nonzero columns of a row are exactly its nonzero cells, ascending. |
| KMatrix.IndexRow | src/main/java/ic/matrix/KMatrix.java:18-26 | Builds `nzi[r]`: the count of nonzero cells, then their columns, then zeros. |
| KMatrix.FromData | src/main/java/ic/matrix/KMatrix.java:15-27 | Keeps the data and lists each row's nonzero columns in ascending order, counted in `nzi[r][0]`. |
| KMatrix.Set | src/main/java/ic/matrix/KMatrix.java:37-43 | A zero value changes nothing. Otherwise the cell takes `(byte) v` and `(short) c` is listed after the row's entries, with no duplicate check; other rows are unchanged. |
| KMatrix.SetKeepsIndexed | src/main/java/ic/matrix/KMatrix.java:37-43 | `set` keeps every nonzero cell listed. |
| ZMatrixAc.New | src/main/java/ic/matrix/ZMatrixAc.java:17-28 | Row `i`'s block starts at `i * maxLineIdx` and every row is empty. |
| ZMatrixAc.AddAppends | src/main/java/ic/matrix/ZMatrixAc.java:30-35 | With room in row `r`, `add` appends `(c, re, im)` to row `r` only. |
| VectorAc.New | src/main/java/ic/matrix/VectorAc.java:11-14 | `2 * size` zero slots and nothing recorded. |
| VectorAc.Set | src/main/java/ic/matrix/VectorAc.java:30-34 | Element `i` reads back `(re, im)` and other elements are unchanged. `nzi` is untouched. |
| VectorAc.InsertRecords | src/main/java/ic/matrix/VectorAc.java:36-41 | `insert` appends the offset `(short) (2 * i)` to the recorded ones, with no zero or duplicate check. The element reads back and others are unchanged. |
| VectorAc.RecordedOffsetAddressesElement | src/main/java/ic/matrix/VectorAc.java:36-41 | The recorded offset is the data offset `2 * i` of the real part, not the element index. |
| VectorDc.New | src/main/java/ic/matrix/VectorDc.java:17-21 | `size` zero elements and an empty index list. |
| VectorDc.Insert | src/main/java/ic/matrix/VectorDc.java:27-30 | Element `i` becomes `x` and `i` is listed again, with no duplicate check. Nothing else changes. |
| VectorDc.Reset | src/main/java/ic/matrix/VectorDc.java:33-37 | `n` zero elements and an empty index list. |
| VectorDc.InsertKeepsListed | src/main/java/ic/matrix/VectorDc.java:27-30 | Every nonzero element stays listed. |
| ZMatrixDc.New | src/main/java/ic/matrix/ZMatrixDc.java:7-9 | `size` entries, all zero. |
| ZMatrixDc.Set | src/main/java/ic/matrix/ZMatrixDc.java:11-17 | `get(i)` after `set(i, v)` is `v`, other entries are unchanged, and the size is fixed. |
| DcMatrixOps.KZ | src/main/java/ic/matrix/DcMatrixOps.java:9-19 | The result has `K`'s row pointers and columns, and `data[i] = K.data[i] * Z[K.cols[i]]`. Each row is `K`'s row scaled by the resistances, and `numCols` is left as it was. |
| IncidenceList.New | src/main/java/graph/IncidenceList.java:11-19 | One block of `stride` slots per vertex, with every vertex's edge list empty. |
| IncidenceList.BlockInside | src/main/java/graph/IncidenceList.java:21-23 | `begin(v) == v * stride`, and the block lies inside the slots. |
| IncidenceList.AddEdgeAtAppends | src/main/java/graph/IncidenceList.java:43-48 | With room, `e` goes to `begin(v) + degree(v)`, the degree goes up, and no other vertex's edges change. |
| IncidenceList.AddEdgeAppends | src/main/java/graph/IncidenceList.java:34-37 | For distinct ends with room, `e` is appended once to each end's edges and to no other vertex's. |
| IncidenceList.Clear | src/main/java/graph/IncidenceList.java:39-41 | Every degree drops to zero and the slots keep their stored edges. |
| IncidenceList.EnsureCapacity | src/main/java/graph/IncidenceList.java:50-59 | Grows only when `length < vertexIdx`, and then once, to `length * 3 / 2` vertices of `stride` slots, keeping the old contents. |
| IncidenceList.EnsureCapacityFallsShort | src/main/java/graph/IncidenceList.java:50-59 | A one-entry table asked for two entries stays at one. |
| IncidenceList.EnsureCapacityAtLeast | src/main/java/graph/IncidenceList.java:50-59 | The corrected growth reaches at least `vertexIdx` entries and keeps the old contents. |
| ListOfIncidence.New | src/main/java/graph/ListOfIncidence.java:17-25 | No vertices and an empty arena. |
| ListOfIncidence.AppendVertex | src/main/java/graph/ListOfIncidence.java:32-37 | Opens an empty range with `begin == end ==` the old arena size, and grows the arena by `degree + MEM_RES` (2). Earlier ranges are unchanged. |
| ListOfIncidence.EdgesOfSlot | src/main/java/graph/ListOfIncidence.java:71-78 | `edgesOf(v)` is exactly the slots `[begin(v), end(v))`. |
| ListOfIncidence.AddEdgeAtAppends | src/main/java/graph/ListOfIncidence.java:87-89 | With room, `e` is written at `end(v)` and `end(v)` goes up by one. No other range or limit changes. |
| ListOfIncidence.AddEdgeAppends | src/main/java/graph/ListOfIncidence.java:45-48 | `e` is appended to the ranges of both distinct ends and to no other range. |
| ListOfIncidence.Clear | src/main/java/graph/ListOfIncidence.java:81-85 | No vertices and an empty arena, with capacities kept. |
| SchemaGraph.New | src/main/java/graph/SchemaGraph.java:8-10 | An empty valid graph. |
| SchemaGraph.AddVertex | src/main/java/graph/SchemaGraph.java:17-22 | The new vertex's index is the old vertex count. Its range is empty with room for `degree + 2` edges, and other ranges are unchanged. |
| SchemaGraph.AddEdge | src/main/java/graph/SchemaGraph.java:30-36 | The edge gets the old edge count as its index, `src` as source and `tgt` as target. It joins the ranges of both ends and no other vertex's range changes. |
| SchemaGraph.Clear | src/main/java/graph/SchemaGraph.java:38-42 | No vertices, no edges and an empty incidence list. |
| SchemaGraph.RangeEntryTouches | src/main/java/graph/ListOfIncidence.java:54-73 | Every entry in a vertex's range is an edge with that vertex as an end. |
| SchemaGraph.EdgeInRange | src/test/java/graph/SchemaGraphTest.java:28-35 | Every edge appears in the ranges of both its ends. |
| SchemaGraph.AddEdgeUnique | src/main/java/graph/SchemaGraph.java:30-35 | The new edge takes the next index, larger than any already in a range, so no range holds an edge twice. |
| Walks.Opposite | src/main/java/graph/SchemaGraphCycleBasis.java:189-192 | For a non-loop edge touching `v`, `oppositeVertex` is its other end. |
| SpanningForest.ChainFacts | src/main/java/graph/SchemaGraphCycleBasis.java:127-152 | Following parent edges is a walk through reached vertices of one tree, each left by its own parent edge, with strictly falling depth, ending at the root. |
| SpanningForest.ChainDistinct | src/main/java/graph/SchemaGraphCycleBasis.java:127-152 | A parent chain never repeats a vertex. |
| SpanningForest.ParentEdgeOnce | src/main/java/graph/SchemaGraphCycleBasis.java:70-71 | An edge is the parent edge of at most one vertex. |
| CycleBasis.Push | src/main/java/graph/SchemaGraphCycleBasis.java:95-97 | `push` appends at the back. |
| CycleBasis.Pop | src/main/java/graph/SchemaGraphCycleBasis.java:99-101 | `QUEUE_BASED` takes the front and `STACK_BASED` the back. Either way the rest is the deque without that element. |
| CycleBasis.DrainQueue | src/main/java/graph/SchemaGraphCycleBasis.java:95-101 | Queue-based popping returns vertices in push order. |
| CycleBasis.DrainStack | src/main/java/graph/SchemaGraphCycleBasis.java:95-101 | Stack-based popping returns vertices in reverse push order. |
| CycleBasis.PopAfterPush | src/main/java/graph/SchemaGraphCycleBasis.java:95-101 | Right after a push, stack-based pops the pushed vertex and queue-based pops the oldest one. |
| CycleBasis.AppendEdge | src/main/java/graph/SchemaGraphCycleBasis.java:163-173 | The entry is +1 exactly when the edge's source is the current vertex, and only the last row grows. Reading the entry at the current vertex leads to the returned one. |
| CycleBasis.EmitEdges | src/main/java/graph/SchemaGraphCycleBasis.java:153-160 | Appending a walk's edges one by one adds its signed row to the last row, and ends at its last vertex. |
| CycleBasis.TrimToVertex | src/main/java/graph/SchemaGraphCycleBasis.java:175-183 | Removes only a tail. What is left ends with the first edge of the last run touching `v`, and is empty when no edge touches `v`. |
| CycleBasis.TrimOnDistinctWalk | src/main/java/graph/SchemaGraphCycleBasis.java:175-183 | On a walk without repeated vertices, trimming to its vertex `w[j]` leaves exactly the first `j` edges. |
| CycleBasis.MakePath | src/main/java/graph/SchemaGraphCycleBasis.java:120-161 | Adds exactly one row, after the old rows unchanged. The row is a closed walk whose last entry is the flagged edge and whose other entries are parent edges. When `el` is not `er`, no edge appears twice in the row. `mark` goes up by one and every vertex mark stays `<= mark`. |
| CycleBasis.MeetingDistinct | src/main/java/graph/SchemaGraphCycleBasis.java:127-160 | When `er` is no parent edge, the left side and the reversed right side together use no edge twice, because they climb through distinct vertices until they meet. |
| CycleBasis.ErNotParent | src/main/java/graph/SchemaGraphCycleBasis.java:67-76 | An edge from `rootIdx` that is not `rootIdx`'s parent edge, leading to a vertex whose chain avoids `rootIdx`, is the parent edge of no vertex. |
| Walks.ClosedWalkRow | src/main/java/graph/SchemaGraphCycleBasis.java:153-173 | The signed row of a closed walk, read from its first vertex, returns there. |
| CycleSearch.Init | src/main/java/graph/SchemaGraphCycleBasis.java:103-118 | No vertex reached, every mark and flag zero, the deque empty and `mark == 0`. |
| CycleSearch.ResetOrCreate | src/main/java/graph/SchemaGraphCycleBasis.java:86-93 | An empty matrix with one column per edge, keeping a given matrix's buffers. |
| CycleSearch.FlagEdge | src/main/java/graph/SchemaGraphCycleBasis.java:73-77 | Flagging an edge whose ends are both reached, and which is the parent edge of neither end, sets its `tmpe` flag. It adds exactly one row, the fundamental cycle of that edge with no edge twice, after the old rows unchanged. The forest and the deque are untouched, and flagged edges stay off the forest. |
| CycleSearch.FlagFlags | src/main/java/graph/SchemaGraphCycleBasis.java:73-76 | Setting the flag of an edge that is the parent edge of no vertex keeps every flagged edge between reached vertices and off the forest. |
| CycleSearch.ReachFlags | src/main/java/graph/SchemaGraphCycleBasis.java:70-72 | Making `e` a parent edge keeps flagged edges off the forest, because an edge with an unreached end was never flagged. |
| CycleSearch.NotChildYet | src/main/java/graph/SchemaGraphCycleBasis.java:65-76 | The edge at slot `j` of the scanned vertex is not the parent edge of its other end, since each edge sits once in the range and the children so far were reached over earlier slots. So a flagged edge's `el` is never `er`. |
| CycleSearch.ChildrenSeenStep | src/main/java/graph/SchemaGraphCycleBasis.java:65-72 | After slot `j` is settled, every vertex reached from the scanned vertex was reached over a slot before `j + 1`. |
| CycleSearch.SettleEdge | src/main/java/graph/SchemaGraphCycleBasis.java:65-78 | One edge of the vertex being scanned, in four cases. The vertex's own parent edge changes nothing. An unreached other end becomes reached over the edge and is pushed. An unflagged edge to a reached end is flagged and emits its fundamental cycle as one new row. An already flagged edge changes nothing. In every case the edge ends up a parent edge or flagged, and the search invariant is kept. |
| CycleSearch.ScanVertex | src/main/java/graph/SchemaGraphCycleBasis.java:63-79 | After the inner loop, every edge in the vertex's range is accounted for. |
| CycleSearch.DrainDeque | src/main/java/graph/SchemaGraphCycleBasis.java:59-80 | After the `while`, the deque is empty and the search invariant still holds. The invariant covers the forest, the scanned vertices' edges and the rows written so far. |
| CycleSearch.GrowTree | src/main/java/graph/SchemaGraphCycleBasis.java:54-80 | After one outer-loop turn, vertex `i` is reached, whether or not it was a new root. |
| CycleSearch.GetCycles | src/main/java/graph/SchemaGraphCycleBasis.java:51-83 | See the summary below this table. |
| CycleSearch.AllScanned | src/main/java/graph/SchemaGraphCycleBasis.java:54-80 | Once the outer loop ends, every edge is the parent edge of one of its ends or flagged, and both ends of every edge lie in one tree. |
| CycleSearch.BasisFacts | src/main/java/graph/SchemaGraphCycleBasis.java:51-83 | At the end of the run, flagged edges are not parent edges, the number of rows is the edge count minus the vertex count plus the root count, every vertex is joined to a root and no two roots are joined. |
| BasisSize.TreeEdgeCount | src/main/java/graph/SchemaGraphCycleBasis.java:55-72 | When every vertex is reached, the parent edges plus the roots number the vertices: every non-root has its own parent edge. |
| BasisSize.EdgeSplit | src/main/java/graph/SchemaGraphCycleBasis.java:67-77 | When every edge is a parent edge or flagged and never both, the parent edges plus the flagged edges number the edges. |
| BasisSize.GensCount | src/main/java/graph/SchemaGraphCycleBasis.java:73-76 | One row per flagged edge, each edge once, gives as many rows as flagged edges. |
| BasisSize.RowCount | src/main/java/graph/SchemaGraphCycleBasis.java:51-83 | The number of rows is the edge count minus the vertex count plus the number of roots. |
| BasisSize.WalkStaysInTree | src/main/java/graph/SchemaGraphCycleBasis.java:65-77 | When both ends of every edge share a tree, a walk ends in the tree it starts in. |
| BasisSize.ReachesRoot | src/main/java/graph/SchemaGraphCycleBasis.java:55-72 | A reached vertex's tree root is a root and is joined to it by a walk. |
| BasisSize.RootsApart | src/main/java/graph/SchemaGraphCycleBasis.java:54-58 | No walk joins two distinct roots when every edge stays inside one tree. |
| BasisSize.Components | src/main/java/graph/SchemaGraphCycleBasis.java:54-80 | The trees are the connected components: every vertex is joined to a root and no two roots are joined. So `C` is the number of components. |

`CycleSearch.GetCycles` states that, after the run:

- every vertex is reached;
- the parent edges form a forest;
- every edge is a parent edge or flagged;
- the matrix has one column per edge;
- each row is the fundamental cycle of a distinct flagged edge, in flagging order: a closed walk of parent edges closed by the flagged edge, with no edge twice;
- an edge is flagged exactly when a row was written for it;
- a flagged edge is never a parent edge;
- there are `|E| - |V| + C` rows, where `C` is the number of roots;
- every vertex is joined to a root, and no two roots are joined, so `C` is the number of connected components.

## Left out

- AcMatrixOps, `KMatrix.mulTransR`, `ZMatrixAc.mul` and `VectorAc.mulR`: single-precision complex arithmetic over EJML matrices.
- `toCMatrixRMaj`, `rowToString` and every `print`: conversion to EJML types, formatting and console output.
- `DcMatrixOps.mult` (src/main/java/ic/matrix/DcMatrixOps.java:21-38): it calls `csrBegin`/`csrEnd` on an `IMatrixCsr`, which defines neither. It also indexes `K.data` densely, so it does not fit the container it is given.
- The test-only operations `transpose`, `KZKT`, `add` and a second `mult` are not defined in the source.
- JGraphTCycleBasis, GraphUtils, BasicEdge, ListSubset and the `CycleBasis` interface are not part of this model. They are JGraphT adapters and interfaces.
- The cycle basis's constructor and `setGraph`: buffer allocation only. `Traversing` is a two-case datatype.
- Floating-point rounding: all `float`/`double` payloads are `real`.
- `int` overflow of `mark`, of capacities and of indices is not modelled. Integers are unbounded except where the source casts to `byte` or `short`.
- Self-loops are excluded by preconditions: `SchemaGraph.AddEdge` requires `src != tgt`. The source has no check and would enter the edge twice into one range.
- Overflowing a vertex's incidence range or a `ZMatrixAc` row is a precondition, not a checked error. The source has no bound check and would write into the next block.
- IncidenceList.AddEdgeAppends: stated for distinct ends only. With `s == t` the source writes the edge twice into one block.
- KMatrixCsr.Append: requires `c < numCols`. The source writes any in-bounds dense slot, so a larger `c` would land in a later row's cells.
- CycleSearch.GetCycles: the comparison with reference cycle sets in the tests is not modelled. The row count and the component facts rest on each edge appearing once in each end's range. `SchemaGraph.Valid` requires this, and `SchemaGraph.AddEdge` keeps it.
- CycleBasis.MakePath: promises no repeated edge only when `el` is not `er`. With `el == er` the source writes `er` on both sides. `getCycles` never calls it that way (CycleSearch.NotChildYet).
- KMatrix.FromData: requires at least one row, no row shorter than the first and fewer than 32768 columns. The constructor throws on an empty array or a short row, and the `(short)` column index wraps past 32767; those paths are not modelled.
- KMatrix.Set: requires room in row `r`'s index list and a count below 32768. On a full list the source throws only after writing `data[r][c]` and raising the count, so it leaves a partial write behind; that path is not modelled.
- DynamicArrays.Set: requires an index inside the capacity. The source throws an out-of-bounds error past it, which is not modelled.
- VectorAc.Insert: requires room in the index list and both slots of the pair inside the data. The source throws otherwise, and by then it may already have raised the count or recorded the index; that path is not modelled.
- VectorDc.Insert: requires an index inside the data's capacity. The source throws otherwise, which is not modelled.
- DcMatrixOps.KZ: requires every stored column of `K` to index `Z`. The source throws `ArrayIndexOutOfBoundsException` otherwise, after `dest`'s row pointers, columns and part of its values have been overwritten; that path is not modelled.
- ZMatrixDc.Set: requires an index inside the diagonal. The source throws otherwise, which is not modelled. `ZMatrixDc.Get` has the same requires for the same reason.
- ListOfIncidence.AppendVertex: the edge arena is the generic `DynamicArray<E>`, whose source is not part of this model. Its `setSize` is assumed to behave like `DynamicIntArray`'s, growing with the whole old buffer kept (`CopyBuffer`).
- CycleSearch.Init: `spanningForest` is modelled with exactly one entry per vertex. The source may keep a longer array from an earlier graph, but reads only the first vertex-count entries.
- `tmpv` and `tmpe` are modelled as plain sequences of the right length, not as growable arrays.
- The expectation at src/test/java/ic/matrix/VectorAcTest.java:75 that `insert` skips zero values does not match `VectorAc.insert`, which records every value. The model follows the code.

## Findings

| source | as written | input that shows it | evidently intended | confidence | as-written member | corrected member |
|---|---|---|---|---|---|---|
| src/main/java/graph/IncidenceList.java:50-59 | `ensureCapacity(vertexIdx)` grows once, to `length * 3 / 2`, and only when `length < vertexIdx` | a table of length 1 asked for `ensureCapacity(2)` stays at length 1, because `1 * 3 / 2 == 1` (IncidenceList.EnsureCapacityFallsShort) | grow to at least `vertexIdx` entries | medium, not executed | IncidenceList.EnsureCapacity | IncidenceList.EnsureCapacityAtLeast |
