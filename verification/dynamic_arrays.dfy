/**
 * Growable arrays backing every container of the model (DynamicArrays.kt).
 *
 * A growable array is a backing buffer `data` (its length is the capacity)
 * and a logical `size`; the live elements are `data[..size]`. Elements past
 * `size` stay in the buffer and are observable by code that writes through
 * the buffer directly, so the model keeps them.
 */
module DynamicArrays {
  import opened Wrappers

  /** How `ensureCapacity` carries the old buffer over into a larger one. */
  datatype Growth =
    | CopyBuffer   // DynamicIntArray, DynamicComplexArray: the whole old buffer
    | CopyLive     // DynamicDoubleArray: only the first `size` elements

  datatype DynArray<T> = DynArray(data: seq<T>, size: int) {

    ghost predicate Valid() {
      0 <= size <= |data|
    }

    function Capacity(): nat {
      |data|
    }

    /** The live elements. */
    function Contents(): seq<T>
      requires Valid()
    {
      data[..size]
    }
  }

  /** Growth target of `append` on a full array: `max(capacity * 3 / 2, 16)`. */
  function GrownCapacity(capacity: nat): (c: nat)
    ensures c > capacity
    ensures c >= 16
  {
    Max(capacity * 3 / 2, 16)
  }

  /** The `(capacity)` constructor: an empty array with the requested capacity, zero-filled. */
  function Create<T>(capacity: nat, zero: T): (a: DynArray<T>)
    ensures a.Valid() && a.size == 0 && a.Contents() == []
    ensures a.Capacity() == capacity
    ensures forall i :: 0 <= i < capacity ==> a.data[i] == zero
  {
    DynArray(seq(capacity, _ => zero), 0)
  }

  /** The primary constructor: wraps an existing buffer, all of it live. */
  function Wrap<T>(data: seq<T>): (a: DynArray<T>)
    ensures a.Valid() && a.Contents() == data && a.Capacity() == |data|
  {
    DynArray(data, |data|)
  }

  /** `ensureCapacity`: grows the buffer to exactly `capacity` when it is larger, never shrinks. */
  function EnsureCapacity<T>(a: DynArray<T>, capacity: int, zero: T, g: Growth): (r: DynArray<T>)
    requires a.Valid()
    ensures r.Valid() && r.size == a.size && r.Contents() == a.Contents()
    ensures r.Capacity() == Max(capacity, a.Capacity())
    ensures capacity <= a.Capacity() ==> r == a
    ensures g == CopyBuffer ==> r.data[..|a.data|] == a.data
    ensures forall i :: a.Capacity() <= i < r.Capacity() ==> r.data[i] == zero
    ensures g == CopyLive && capacity > a.Capacity() ==>
              forall i :: a.size <= i < r.Capacity() ==> r.data[i] == zero
  {
    if capacity > |a.data| then
      var kept := if g == CopyBuffer then a.data else a.data[..a.size];
      DynArray(kept + seq(capacity - |kept|, _ => zero), a.size)
    else
      a
  }

  /** The `size` setter: makes room first, then moves the logical end. */
  function SetSize<T>(a: DynArray<T>, n: nat, zero: T, g: Growth): (r: DynArray<T>)
    requires a.Valid()
    ensures r.Valid() && r.size == n
    ensures r.Capacity() == Max(n, a.Capacity())
    ensures n <= a.Capacity() ==> r.data == a.data
    ensures forall i :: 0 <= i < a.size && i < n ==> r.data[i] == a.data[i]
    ensures g == CopyBuffer ==> forall i :: 0 <= i < a.Capacity() ==> r.data[i] == a.data[i]
    ensures forall i :: a.Capacity() <= i < r.Capacity() ==> r.data[i] == zero
    ensures g == CopyLive && n > a.Capacity() ==>
              forall i :: a.size <= i < r.Capacity() ==> r.data[i] == zero
  {
    var b := EnsureCapacity(a, n, zero, g);
    assert g == CopyBuffer ==> forall i :: 0 <= i < a.Capacity() ==> b.data[i] == b.data[..|a.data|][i];
    DynArray(b.data, n)
  }

  /** `append`: grows to `max(capacity * 3 / 2, 16)` when full, then writes at the old size. */
  function Append<T>(a: DynArray<T>, v: T, zero: T, g: Growth): (r: DynArray<T>)
    requires a.Valid()
    ensures r.Valid() && r.Contents() == a.Contents() + [v]
    ensures a.size < a.Capacity() ==> r.Capacity() == a.Capacity()
    ensures a.size == a.Capacity() ==> r.Capacity() == GrownCapacity(a.Capacity())
    ensures forall i :: a.size < i < r.Capacity() && i < a.Capacity() && g == CopyBuffer ==> r.data[i] == a.data[i]
  {
    var b := if a.size == |a.data| then EnsureCapacity(a, GrownCapacity(|a.data|), zero, g) else a;
    assert b.data[..b.size] == a.data[..a.size];
    assert g == CopyBuffer ==> forall i :: 0 <= i < a.Capacity() ==> b.data[i] == b.data[..|a.data|][i];
    DynArray(b.data[b.size := v], b.size + 1)
  }

  /** `get`: reads the backing buffer (live or not), as the source does. */
  function Get<T>(a: DynArray<T>, i: int): T
    requires 0 <= i < a.Capacity()
  {
    a.data[i]
  }

  /** `set`: writes the backing buffer at `i`; nothing else changes. */
  function Set<T>(a: DynArray<T>, i: int, v: T): (r: DynArray<T>)
    requires a.Valid() && 0 <= i < a.Capacity()
    ensures r.Valid() && r.size == a.size && r.Capacity() == a.Capacity()
    ensures Get(r, i) == v
    ensures forall j :: 0 <= j < r.Capacity() && j != i ==> Get(r, j) == Get(a, j)
    ensures i < a.size ==> r.Contents() == a.Contents()[i := v]
    ensures i >= a.size ==> r.Contents() == a.Contents()
  {
    DynArray(a.data[i := v], a.size)
  }

  /** `copyTo`: `dest` takes `src`'s size and its live elements. */
  function CopyTo<T>(src: DynArray<T>, dest: DynArray<T>, zero: T, g: Growth): (r: DynArray<T>)
    requires src.Valid() && dest.Valid()
    ensures r.Valid() && r.size == src.size
    ensures r.Contents() == src.Contents()
    ensures r.Capacity() == Max(src.size, dest.Capacity())
  {
    var d := SetSize(dest, src.size, zero, g);
    DynArray(src.data[..src.size] + d.data[src.size..], src.size)
  }

  /** A complex number; single/double precision rounding is not modelled. */
  datatype Complex = Complex(re: real, im: real)

  const ComplexZero := Complex(0.0, 0.0)

  /** DynamicComplexArray: two parallel buffers sharing one size and one capacity. */
  datatype ComplexArray = ComplexArray(re: seq<real>, im: seq<real>, size: int) {

    ghost predicate Valid() {
      |re| == |im| && 0 <= size <= |re|
    }

    function Capacity(): nat {
      |re|
    }
  }

  /** The primary constructor; its `require` rejects buffers of different lengths. */
  function WrapComplex(re: seq<real>, im: seq<real>): (r: Option<ComplexArray>)
    ensures r.Some? <==> |re| == |im|
    ensures r.Some? ==> r.value.Valid() && r.value.size == |re| && r.value.re == re && r.value.im == im
  {
    if |re| == |im| then Some(ComplexArray(re, im, |re|)) else None
  }

  function CreateComplex(capacity: nat): (a: ComplexArray)
    ensures a.Valid() && a.size == 0 && a.Capacity() == capacity
  {
    ComplexArray(seq(capacity, _ => 0.0), seq(capacity, _ => 0.0), 0)
  }

  function EnsureCapacityComplex(a: ComplexArray, capacity: int): (r: ComplexArray)
    requires a.Valid()
    ensures r.Valid() && r.size == a.size
    ensures r.Capacity() == Max(capacity, a.Capacity())
    ensures r.re[..|a.re|] == a.re && r.im[..|a.im|] == a.im
  {
    if capacity > |a.re| then
      ComplexArray(a.re + seq(capacity - |a.re|, _ => 0.0), a.im + seq(capacity - |a.im|, _ => 0.0), a.size)
    else
      a
  }

  function SetSizeComplex(a: ComplexArray, n: nat): (r: ComplexArray)
    requires a.Valid()
    ensures r.Valid() && r.size == n && r.Capacity() == Max(n, a.Capacity())
  {
    var b := EnsureCapacityComplex(a, n);
    ComplexArray(b.re, b.im, n)
  }

  /** `append(re, im)`: both parts land at the same index. */
  function AppendComplex(a: ComplexArray, re: real, im: real): (r: ComplexArray)
    requires a.Valid()
    ensures r.Valid() && r.size == a.size + 1
    ensures r.re[..r.size] == a.re[..a.size] + [re]
    ensures r.im[..r.size] == a.im[..a.size] + [im]
  {
    var b := if a.size == |a.re| then EnsureCapacityComplex(a, GrownCapacity(|a.re|)) else a;
    assert b.re[..b.size] == a.re[..a.size] && b.im[..b.size] == a.im[..a.size];
    ComplexArray(b.re[b.size := re], b.im[b.size := im], b.size + 1)
  }

  function SetComplex(a: ComplexArray, i: int, re: real, im: real): (r: ComplexArray)
    requires a.Valid() && 0 <= i < a.Capacity()
    ensures r.Valid() && r.size == a.size && r.Capacity() == a.Capacity()
    ensures r.re[i] == re && r.im[i] == im
    ensures forall j :: 0 <= j < r.Capacity() && j != i ==> r.re[j] == a.re[j] && r.im[j] == a.im[j]
  {
    ComplexArray(a.re[i := re], a.im[i := im], a.size)
  }

  function GetComplex(a: ComplexArray, i: int): Complex
    requires a.Valid() && 0 <= i < a.Capacity()
  {
    Complex(a.re[i], a.im[i])
  }

  function CopyToComplex(src: ComplexArray, dest: ComplexArray): (r: ComplexArray)
    requires src.Valid() && dest.Valid()
    ensures r.Valid() && r.size == src.size
    ensures r.re[..r.size] == src.re[..src.size] && r.im[..r.size] == src.im[..src.size]
  {
    var d := SetSizeComplex(dest, src.size);
    ComplexArray(src.re[..src.size] + d.re[src.size..], src.im[..src.size] + d.im[src.size..], src.size)
  }

  /** The two parallel buffers seen as one buffer of pairs. */
  function Zip(a: ComplexArray): (z: DynArray<Complex>)
    requires a.Valid()
    ensures z.Valid() && z.size == a.size && z.Capacity() == a.Capacity()
  {
    DynArray(seq(|a.re|, i requires 0 <= i < |a.re| => Complex(a.re[i], a.im[i])), a.size)
  }

  /** Appending to the two buffers is appending one pair to the zipped buffer. */
  lemma AppendComplexIsAppend(a: ComplexArray, re: real, im: real)
    requires a.Valid()
    ensures Zip(AppendComplex(a, re, im)) == Append(Zip(a), Complex(re, im), ComplexZero, CopyBuffer)
  {
    var z := Zip(a);
    var l := Zip(AppendComplex(a, re, im));
    var r := Append(z, Complex(re, im), ComplexZero, CopyBuffer);
    assert |l.data| == |r.data|;
    forall i | 0 <= i < |l.data|
      ensures l.data[i] == r.data[i]
    {
      if a.size == |a.re| {
        var b := EnsureCapacityComplex(a, GrownCapacity(|a.re|));
        var zb := EnsureCapacity(z, GrownCapacity(|a.re|), ComplexZero, CopyBuffer);
        if i < |a.re| {
          assert b.re[i] == b.re[..|a.re|][i] && b.im[i] == b.im[..|a.im|][i];
          assert zb.data[i] == zb.data[..|z.data|][i];
        }
      }
    }
  }

  /** Writing both parts at one index is writing one pair in the zipped buffer. */
  lemma SetComplexIsSet(a: ComplexArray, i: int, re: real, im: real)
    requires a.Valid() && 0 <= i < a.Capacity()
    ensures Zip(SetComplex(a, i, re, im)) == Set(Zip(a), i, Complex(re, im))
  {
    var l := Zip(SetComplex(a, i, re, im));
    var r := Set(Zip(a), i, Complex(re, im));
    assert l.data == r.data;
  }
}
