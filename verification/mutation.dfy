/** The appending and removing operations of `nexus::vector<T>`:
    `push_back`, `emplace_back`, `pop_back`, `clear` and `resize`. Every one
    of them funnels its growth through `Storage.Grow` or `Storage.Reserve`. */
module Mutation {
  import opened Faults
  import opened Storage

  /** `push_back(value)`, by copy or by move alike: grow when the buffer is
      full, then store `x` in the first free slot. */
  function PushBack<T>(v: Vector<T>, x: T, blank: T): (r: Vector<T>)
    requires v.Valid()
    ensures r.Valid()
    ensures r.Contents() == v.Contents() + [x]
    ensures v.Capacity() == 0 ==> r.Capacity() == 1
    ensures 0 < v.size == v.Capacity() ==> r.Capacity() == 2 * v.Capacity()
    ensures v.size < v.Capacity() ==> r.Capacity() == v.Capacity()
  {
    var w := if v.size == v.Capacity() then Grow(v, blank) else v;
    assert w.slots[w.size := x][..w.size + 1] == w.Contents() + [x];
    Vector(w.slots[w.size := x], w.size + 1)
  }

  /** `emplace_back(args...)`: the element is built in the free slot by the
      constructor `construct` of `T` applied to `args`. */
  function EmplaceBack<A, T>(v: Vector<T>, construct: A -> T, args: A, blank: T): (r: Vector<T>)
    requires v.Valid()
    ensures r.Valid()
    ensures |r.Contents()| == |v.Contents()| + 1
    ensures r.Contents()[..v.size] == v.Contents()
    ensures r.Contents()[v.size] == construct(args)
    ensures v.Capacity() == 0 ==> r.Capacity() == 1
    ensures 0 < v.size == v.Capacity() ==> r.Capacity() == 2 * v.Capacity()
    ensures v.size < v.Capacity() ==> r.Capacity() == v.Capacity()
  {
    PushBack(v, construct(args), blank)
  }

  /** `pop_back()`: fatal on an empty vector, otherwise the last element is
      destroyed and the buffer is kept. */
  function PopBack<T>(v: Vector<T>): (r: Outcome<Vector<T>>)
    requires v.Valid()
    ensures r.Fatal? <==> v.Contents() == []
    ensures r.Fatal? ==> r.fault == EmptyPopBack
    ensures r.Ok? ==> r.value.Valid()
    ensures r.Ok? ==> v.Contents() == r.value.Contents() + [v.Contents()[v.size - 1]]
    ensures r.Ok? ==> r.value.Capacity() == v.Capacity()
  {
    if v.size == 0 then Fatal(EmptyPopBack)
    else
      var w := Vector(v.slots, v.size - 1);
      assert v.Contents() == w.Contents() + [v.Contents()[v.size - 1]];
      Ok(w)
  }

  /** The truncating loop of `resize`: pop from the back while more than `k`
      elements are live. */
  function Truncate<T>(v: Vector<T>, k: nat): (r: Vector<T>)
    requires v.Valid() && k <= v.size
    ensures r.Valid()
    ensures r.Contents() == v.Contents()[..k]
    ensures r.Capacity() == v.Capacity()
    decreases v.size
  {
    if v.size == k then v
    else
      var w := PopBack(v).value;
      assert w.Contents()[..k] == v.Contents()[..k];
      Truncate(w, k)
  }

  /** `clear()`: destroy from the back until no element is live; the buffer
      is kept. */
  function Clear<T>(v: Vector<T>): (r: Vector<T>)
    requires v.Valid()
    ensures r.Valid()
    ensures r.Contents() == []
    ensures r.Capacity() == v.Capacity()
  {
    Truncate(v, 0)
  }

  /** The filling loop of `resize`: append `value` while fewer than `k`
      elements are live. When the buffer already has room for `k` elements,
      no append grows it. */
  function AppendUntil<T>(v: Vector<T>, k: nat, value: T, blank: T): (r: Vector<T>)
    requires v.Valid() && v.size <= k
    ensures r.Valid()
    ensures r.Contents() == v.Contents() + Repeat(value, k - v.size)
    ensures k <= v.Capacity() ==> r.Capacity() == v.Capacity()
    decreases k - v.size
  {
    if v.size >= k then v
    else
      var w := PushBack(v, value, blank);
      assert [value] + Repeat(value, k - w.size) == Repeat(value, k - v.size);
      AppendUntil(w, k, value, blank)
  }

  /** `resize(new_size, value)`: truncate, or reserve `k` slots and then
      append copies of `value`; equal sizes leave the vector as it is. */
  function Resize<T>(v: Vector<T>, k: nat, value: T, blank: T): (r: Vector<T>)
    requires v.Valid()
    ensures r.Valid()
    ensures k < v.size ==> r.Contents() == v.Contents()[..k] && r.Capacity() == v.Capacity()
    ensures k > v.size ==> r.Contents() == v.Contents() + Repeat(value, k - v.size)
    ensures k > v.size ==> r.Capacity() == Max(v.Capacity(), k)
    ensures k == v.size ==> r == v
  {
    if k < v.size then Truncate(v, k)
    else if k > v.size then AppendUntil(Reserve(v, k, blank), k, value, blank)
    else v
  }

  /** `pop_back` undoes `push_back` on the elements; the capacity gained by a
      growth is kept. */
  lemma PopUndoesPush<T>(v: Vector<T>, x: T, blank: T)
    requires v.Valid()
    ensures PopBack(PushBack(v, x, blank)).Ok?
    ensures PopBack(PushBack(v, x, blank)).value.Contents() == v.Contents()
    ensures PopBack(PushBack(v, x, blank)).value.Capacity() >= v.Capacity()
  {
    var w := PushBack(v, x, blank);
    assert w.Contents()[..|w.Contents()| - 1] == v.Contents();
  }

  /** Growing with `resize` and then resizing back to the old size restores
      the elements; the reserved capacity stays. */
  lemma ResizeBackRestores<T>(v: Vector<T>, k: nat, value: T, blank: T)
    requires v.Valid() && v.size <= k
    ensures Resize(Resize(v, k, value, blank), v.size, value, blank).Contents() == v.Contents()
    ensures Resize(Resize(v, k, value, blank), v.size, value, blank).Capacity() == Max(v.Capacity(), k)
  {
    var w := Resize(v, k, value, blank);
    assert w.Contents()[..v.size] == v.Contents();
  }
}
