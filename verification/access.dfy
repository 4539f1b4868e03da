/** Element access of `nexus::vector<T>`: the unchecked `operator[]`, the
    checked `at`, and `front` and `back`. The references they return are
    modelled as the element values they refer to. */
module Access {
  import opened Faults
  import opened Storage

  /** `operator[](index)`: no check; an index past the live elements is a
      caller error, so it is excluded by the precondition. */
  function Index<T>(v: Vector<T>, i: nat): (x: T)
    requires v.Valid() && i < v.size
    ensures x == v.Contents()[i]
  {
    v.slots[i]
  }

  /** `at(index)`: element `i` when it is live, fatal otherwise. */
  function At<T>(v: Vector<T>, i: nat): (r: Outcome<T>)
    requires v.Valid()
    ensures r.Ok? <==> i < |v.Contents()|
    ensures r.Ok? ==> r.value == v.Contents()[i]
    ensures r.Fatal? ==> r.fault == IndexOutOfRange(i)
  {
    if i >= v.size then Fatal(IndexOutOfRange(i)) else Ok(v.slots[i])
  }

  /** The checked and the unchecked access agree wherever both are defined. */
  lemma AtAgreesWithIndex<T>(v: Vector<T>, i: nat)
    requires v.Valid() && i < v.size
    ensures At(v, i) == Ok(Index(v, i))
  {
  }

  /** `at(size())` never returns an element, whatever the vector. */
  lemma AtSizeIsFatal<T>(v: Vector<T>)
    requires v.Valid()
    ensures At(v, v.size) == Fatal(IndexOutOfRange(v.size))
  {
  }

  /** `front()`: the first element, fatal on an empty vector. */
  function Front<T>(v: Vector<T>): (r: Outcome<T>)
    requires v.Valid()
    ensures r.Ok? <==> v.Contents() != []
    ensures r.Ok? ==> r.value == v.Contents()[0]
    ensures r.Fatal? ==> r.fault == EmptyFront
  {
    if IsEmpty(v) then Fatal(EmptyFront) else Ok(v.slots[0])
  }

  /** `back()`: the last element, fatal on an empty vector. */
  function Back<T>(v: Vector<T>): (r: Outcome<T>)
    requires v.Valid()
    ensures r.Ok? <==> v.Contents() != []
    ensures r.Ok? ==> r.value == v.Contents()[|v.Contents()| - 1]
    ensures r.Fatal? ==> r.fault == EmptyBack
  {
    if IsEmpty(v) then Fatal(EmptyBack) else Ok(v.slots[v.size - 1])
  }
}
