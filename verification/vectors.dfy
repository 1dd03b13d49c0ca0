/**
 * VectorAc: a complex vector of the AC solver. Element `i` occupies the
 * interleaved slots `2i` (real part) and `2i + 1` (imaginary part) of
 * `data`; `nzi[0]` counts the recorded nonzeros and `nzi[1..]` holds their
 * data offsets as Java `short`s.
 */
module VectorAc {
  import opened JavaInts
  import opened DynamicArrays

  datatype VecAc = VecAc(data: seq<real>, nzi: seq<int>)

  /** The layout the constructor sets up and `insert` keeps while `nzi` has room. */
  ghost predicate Valid(v: VecAc) {
    && |v.nzi| >= 1
    && |v.data| == 2 * (|v.nzi| - 1)
    && 0 <= v.nzi[0] < |v.nzi|
  }

  /** The recorded data offsets, in insertion order. */
  function Recorded(v: VecAc): seq<int>
    requires Valid(v)
  {
    v.nzi[1..v.nzi[0] + 1]
  }

  /** The number of complex elements. */
  function Size(v: VecAc): nat
    requires Valid(v)
  {
    |v.nzi| - 1
  }

  /** `VectorAc(size)`: `2 * size` zero slots and nothing recorded. */
  function New(size: nat): (v: VecAc)
    ensures Valid(v) && Size(v) == size && Recorded(v) == []
    ensures forall i :: 0 <= i < size ==> Get(v, i) == ComplexZero
  {
    VecAc(seq(2 * size, _ => 0.0), seq(size + 1, _ => 0))
  }

  /** `getRe(idx)`: the slot at `2 * idx`. */
  function GetRe(v: VecAc, i: int): real
    requires 0 <= 2 * i < |v.data|
  {
    v.data[2 * i]
  }

  /** `getIm(idx)`: the slot at `2 * idx + 1`. */
  function GetIm(v: VecAc, i: int): real
    requires 0 <= 2 * i && 2 * i + 1 < |v.data|
  {
    v.data[2 * i + 1]
  }

  /** `get(idx, dest)`: both parts of element `idx`. */
  function Get(v: VecAc, i: int): (z: Complex)
    requires 0 <= 2 * i && 2 * i + 1 < |v.data|
    ensures z == Complex(GetRe(v, i), GetIm(v, i))
  {
    Complex(v.data[2 * i], v.data[2 * i + 1])
  }

  /** `set(idx, re, im)`: writes element `idx` and records nothing. */
  function Set(v: VecAc, i: int, re: real, im: real): (r: VecAc)
    requires 0 <= 2 * i && 2 * i + 1 < |v.data|
    ensures |r.data| == |v.data| && r.nzi == v.nzi
    ensures Get(r, i) == Complex(re, im)
    ensures forall j :: 0 <= 2 * j && 2 * j + 1 < |v.data| && j != i ==> Get(r, j) == Get(v, j)
    ensures Valid(v) ==> Valid(r) && Recorded(r) == Recorded(v)
  {
    VecAc(v.data[2 * i := re][2 * i + 1 := im], v.nzi)
  }

  /**
   * `insert(idx, re, im)`: bumps the `short` counter `nzi[0]`, records the
   * data offset `(short) (2 * idx)` at the new count, then writes the
   * element. There is no zero, duplicate or room check; the Java array
   * accesses demand the bumped counter and the element to be in range.
   */
  function Insert(v: VecAc, i: int, re: real, im: real): (r: VecAc)
    requires |v.nzi| >= 1 && 0 <= ToShort(v.nzi[0] + 1) < |v.nzi|
    requires 0 <= 2 * i && 2 * i + 1 < |v.data|
    ensures |r.data| == |v.data| && |r.nzi| == |v.nzi|
  {
    var count := ToShort(v.nzi[0] + 1);
    VecAc(v.data[2 * i := re][2 * i + 1 := im], v.nzi[0 := count][count := ToShort(2 * i)])
  }

  /**
   * While `nzi` has room, `insert` appends the data offset `2 * idx` (as a
   * `short`) to the recorded offsets, and the element reads back as written.
   */
  lemma InsertRecords(v: VecAc, i: int, re: real, im: real)
    requires Valid(v) && v.nzi[0] + 1 < |v.nzi| && v.nzi[0] + 1 < 32768 && 0 <= i < Size(v)
    ensures 0 <= ToShort(v.nzi[0] + 1) < |v.nzi|
    ensures Valid(Insert(v, i, re, im))
    ensures Recorded(Insert(v, i, re, im)) == Recorded(v) + [ToShort(2 * i)]
    ensures Get(Insert(v, i, re, im), i) == Complex(re, im)
    ensures forall j :: 0 <= j < Size(v) && j != i ==> Get(Insert(v, i, re, im), j) == Get(v, j)
  {
    var r := Insert(v, i, re, im);
    assert Recorded(r) == Recorded(v) + [ToShort(2 * i)];
  }

  /** A recorded offset is twice the element index when the offset fits a `short`, so it addresses the real part. */
  lemma RecordedOffsetAddressesElement(v: VecAc, i: int, re: real, im: real)
    requires Valid(v) && v.nzi[0] + 1 < |v.nzi| && v.nzi[0] + 1 < 32768 && 0 <= i < Size(v)
    requires 2 * i < 32768
    ensures 0 <= ToShort(v.nzi[0] + 1) < |v.nzi|
    ensures Recorded(Insert(v, i, re, im))[|Recorded(v)|] == 2 * i
    ensures Insert(v, i, re, im).data[Recorded(Insert(v, i, re, im))[|Recorded(v)|]] == re
  {
    InsertRecords(v, i, re, im);
  }
}

/**
 * VectorDc: a real vector of the DC solver over growable arrays; `nzi`
 * lists the indices of inserted elements.
 */
module VectorDc {
  import opened DynamicArrays

  datatype VecDc = VecDc(data: DynArray<real>, nzi: DynArray<int>)

  ghost predicate Valid(v: VecDc) {
    v.data.Valid() && v.nzi.Valid()
  }

  /** Every nonzero live element is listed in `nzi`. */
  ghost predicate Listed(v: VecDc)
    requires Valid(v)
  {
    forall i :: 0 <= i < v.data.size && v.data.data[i] != 0.0 ==> i in v.nzi.Contents()
  }

  /** `VectorDc(size)`: `size` live zeros and an empty `nzi` of capacity 16. */
  function New(size: nat): (v: VecDc)
    ensures Valid(v) && v.data.Contents() == seq(size, _ => 0.0)
    ensures v.nzi.Contents() == [] && v.nzi.Capacity() == 16
  {
    VecDc(SetSize(Create(size, 0.0), size, 0.0, CopyLive), Create(16, 0))
  }

  /**
   * `insert(idx, value)`: writes the element and appends `idx` to `nzi`,
   * with no duplicate check. `set` writes the backing buffer, so the index
   * must lie below the capacity.
   */
  function Insert(v: VecDc, i: int, x: real): (r: VecDc)
    requires Valid(v) && 0 <= i < v.data.Capacity()
    ensures Valid(r) && r.data.size == v.data.size && r.data.Capacity() == v.data.Capacity()
    ensures r.nzi.Contents() == v.nzi.Contents() + [i]
    ensures Get(r.data, i) == x
    ensures forall j :: 0 <= j < v.data.Capacity() && j != i ==> Get(r.data, j) == Get(v.data, j)
  {
    VecDc(DynamicArrays.Set(v.data, i, x), Append(v.nzi, i, 0, CopyBuffer))
  }

  /** `reset(size)`: `size` live elements, all zero, and an empty `nzi`. */
  function Reset(v: VecDc, n: nat): (r: VecDc)
    requires Valid(v)
    ensures Valid(r) && r.data.Contents() == seq(n, _ => 0.0) && r.nzi.Contents() == []
    ensures r.nzi.Capacity() == v.nzi.Capacity()
  {
    var d := SetSize(v.data, n, 0.0, CopyLive);
    VecDc(DynArray(seq(n, _ => 0.0) + d.data[n..], n), SetSize(v.nzi, 0, 0, CopyBuffer))
  }

  /** A new vector lists all its (no) nonzeros. */
  lemma NewListed(size: nat)
    ensures Listed(New(size))
  {
    var v := New(size);
    forall i | 0 <= i < v.data.size
      ensures v.data.data[i] == 0.0
    {
      assert v.data.data[i] == v.data.Contents()[i];
    }
  }

  /** Inserting a live element keeps every nonzero listed. */
  lemma InsertKeepsListed(v: VecDc, i: int, x: real)
    requires Valid(v) && Listed(v) && 0 <= i < v.data.size
    ensures Listed(Insert(v, i, x))
  {
    var r := Insert(v, i, x);
    forall j | 0 <= j < r.data.size && r.data.data[j] != 0.0
      ensures j in r.nzi.Contents()
    {
      if j == i {
        assert r.nzi.Contents()[|v.nzi.Contents()|] == i;
      } else {
        assert j in v.nzi.Contents();
        assert r.nzi.Contents()[..|v.nzi.Contents()|] == v.nzi.Contents();
      }
    }
  }

  /** After `reset` nothing is nonzero, so the empty `nzi` lists every nonzero. */
  lemma ResetListed(v: VecDc, n: nat)
    requires Valid(v)
    ensures Listed(Reset(v, n))
  {
    var r := Reset(v, n);
    forall i | 0 <= i < r.data.size
      ensures r.data.data[i] == 0.0
    {
      assert r.data.data[i] == r.data.Contents()[i];
    }
  }
}
