/** The element loops of `nexus::vector<T>` over a freshly allocated buffer:
    the copy loop of `reallocate` and the filling and copying loops of the
    count, initializer-list and pointer-range constructors. Each allocates an
    array the way `new T[n]` does, every slot holding `blank` (whatever a
    fresh slot holds; no contract depends on it), and
    then overwrites the front slots one index at a time. */
module Buffers {
  import opened Storage

  /** The copy loop of `reallocate(new_cap)`; it computes `Storage.Reallocate`. */
  method ReallocateLoop<T>(v: Vector<T>, newCap: nat, blank: T) returns (r: Vector<T>)
    requires v.Valid() && v.size <= newCap
    ensures r == Reallocate(v, newCap, blank)
    ensures r.Contents() == v.Contents() && r.Capacity() == newCap
  {
    var newData := new T[newCap](_ => blank);
    var i := 0;
    while i < v.size
      invariant i <= v.size
      invariant forall j :: 0 <= j < i ==> newData[j] == v.slots[j]
      invariant forall j :: i <= j < newCap ==> newData[j] == blank
    {
      newData[i] := v.slots[i];
      i := i + 1;
    }
    r := Vector(newData[..], v.size);
    assert r.slots == v.Contents() + Repeat(blank, newCap - v.size);
  }

  /** The count constructor `vector(count, value)`: `count` slots, all live,
      every one set to `value`. */
  method FillConstruct<T>(count: nat, value: T, blank: T) returns (r: Vector<T>)
    ensures r.Valid()
    ensures r.size == count && r.Capacity() == count
    ensures r.Contents() == Repeat(value, count)
  {
    var data := new T[count](_ => blank);
    var i := 0;
    while i < count
      invariant i <= count
      invariant forall j :: 0 <= j < i ==> data[j] == value
    {
      data[i] := value;
      i := i + 1;
    }
    r := Vector(data[..], count);
  }

  /** The initializer-list constructor: delegate to the count constructor,
      here with `blank` where the source passes a value-initialised `T()`,
      then overwrite the slots with the list's elements in order; every slot
      is overwritten, so that fill value is never observed. */
  method ListConstruct<T>(init: seq<T>, blank: T) returns (r: Vector<T>)
    ensures r.Valid()
    ensures r.Contents() == init
    ensures r.Capacity() == |init|
  {
    r := FillConstruct(|init|, blank, blank);
    var i := 0;
    while i < |init|
      invariant i <= |init|
      invariant r.size == |init| && |r.slots| == |init|
      invariant forall j :: 0 <= j < i ==> r.slots[j] == init[j]
    {
      r := Vector(r.slots[i := init[i]], r.size);
      i := i + 1;
    }
  }

  /** The pointer-range constructor `vector(start, end)`: the values of
      `source[start..end]` in a buffer of exactly that many slots. A range
      whose end precedes its start makes `new T[]` throw, which is outside
      this model, so it is excluded. */
  method RangeConstruct<T>(source: seq<T>, start: nat, end: nat, blank: T) returns (r: Vector<T>)
    requires start <= end <= |source|
    ensures r.Valid()
    ensures r.Contents() == source[start..end]
    ensures r.Capacity() == end - start
  {
    var n := end - start;
    var data := new T[n](_ => blank);
    var i := 0;
    while i < n
      invariant i <= n
      invariant forall j :: 0 <= j < i ==> data[j] == source[start + j]
    {
      data[i] := source[start + i];
      i := i + 1;
    }
    r := Vector(data[..], n);
  }
}
