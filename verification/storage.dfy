/** The storage manager of `nexus::vector<T>`: the buffer, the logical size and
    the capacity, and every operation that allocates, relocates or hands over
    that buffer (constructors, assignment, `reserve`, `shrink_to_fit`, `swap`
    and the private `grow` and `reallocate`). */
module Storage {

  /** The state of one vector. `slots` is the allocated buffer, so its length is
      the capacity (`end_ptr - first`); the first `size` slots hold the live
      elements (`last - first`). Slots past `size` are reserved storage whose
      values are never observed. */
  datatype Vector<T> = Vector(slots: seq<T>, size: nat)
  {
    /** The class invariant `first <= last <= end_ptr`. */
    predicate Valid() {
      size <= |slots|
    }

    /** `capacity()`: the number of slots in the buffer. */
    function Capacity(): (c: nat) {
      |slots|
    }

    /** The live elements, in index order. */
    function Contents(): (s: seq<T>)
      requires Valid()
    {
      slots[..size]
    }
  }

  /** `n` copies of `value`. */
  function Repeat<T>(value: T, n: nat): (r: seq<T>)
    ensures |r| == n
    ensures forall i :: 0 <= i < n ==> r[i] == value
  {
    seq(n, _ => value)
  }

  function Max(a: nat, b: nat): (m: nat) {
    if a < b then b else a
  }

  /** `size()`: the number of live elements. */
  function Size<T>(v: Vector<T>): (n: nat)
    requires v.Valid()
    ensures n == |v.Contents()|
  {
    v.size
  }

  /** `empty()`: no live element. */
  function IsEmpty<T>(v: Vector<T>): (b: bool)
    requires v.Valid()
    ensures b <==> v.Contents() == []
  {
    v.size == 0
  }

  /** The default constructor: no buffer at all. */
  function EmptyVector<T>(): (r: Vector<T>)
    ensures r.Valid() && r.Contents() == [] && r.Capacity() == 0
  {
    Vector([], 0)
  }

  /** The private `reallocate(new_cap)`: a fresh buffer of exactly `newCap`
      slots, each holding `blank` (whatever `new T[new_cap]` leaves in a fresh slot),
      receives the live elements in order. The callers only ever pass a
      capacity that can hold the live elements. */
  function Reallocate<T>(v: Vector<T>, newCap: nat, blank: T): (r: Vector<T>)
    requires v.Valid() && v.size <= newCap
    ensures r.Valid()
    ensures r.Contents() == v.Contents()
    ensures r.Capacity() == newCap
  {
    Vector(v.Contents() + Repeat(blank, newCap - v.size), v.size)
  }

  /** The growth rule of the private `grow()`: start at one slot, then
      double, so there is always room for one more element. */
  function NextCapacity(cap: nat): (c: nat)
    ensures cap < c
    ensures cap == 0 ==> c == 1
    ensures cap > 0 ==> c == 2 * cap
  {
    if cap == 0 then 1 else cap * 2
  }

  /** The private `grow()`, called by the appends when the buffer is full. */
  function Grow<T>(v: Vector<T>, blank: T): (r: Vector<T>)
    requires v.Valid()
    ensures r.Valid()
    ensures r.Contents() == v.Contents()
    ensures r.Capacity() > v.Capacity()
    ensures v.Capacity() == 0 ==> r.Capacity() == 1
    ensures v.Capacity() > 0 ==> r.Capacity() == 2 * v.Capacity()
  {
    Reallocate(v, NextCapacity(v.Capacity()), blank)
  }

  /** `reserve(new_cap)`: reallocate to exactly `newCap` slots when that is
      more than the current capacity, otherwise do nothing; it never shrinks. */
  function Reserve<T>(v: Vector<T>, newCap: nat, blank: T): (r: Vector<T>)
    requires v.Valid()
    ensures r.Valid()
    ensures r.Contents() == v.Contents()
    ensures r.Capacity() == Max(v.Capacity(), newCap)
    ensures newCap <= v.Capacity() ==> r == v
  {
    if newCap > v.Capacity() then Reallocate(v, newCap, blank) else v
  }

  /** `shrink_to_fit()`: drop all slack, down to capacity 0 for an empty vector. */
  function ShrinkToFit<T>(v: Vector<T>, blank: T): (r: Vector<T>)
    requires v.Valid()
    ensures r.Valid()
    ensures r.Contents() == v.Contents()
    ensures r.Capacity() == v.size
    ensures v.Capacity() == v.size ==> r == v
  {
    if v.Capacity() > v.size then Reallocate(v, v.size, blank) else v
  }

  /** `a.swap(b)`: the two states change places; no element is copied. The
      result is the new pair (a, b). */
  function Swap<T>(a: Vector<T>, b: Vector<T>): (r: (Vector<T>, Vector<T>))
    ensures r.0 == b && r.1 == a
  {
    (b, a)
  }

  lemma SwapTwiceRestores<T>(a: Vector<T>, b: Vector<T>)
    ensures var s := Swap(a, b); Swap(s.0, s.1) == (a, b)
  {
  }

  /** The copy constructor: a buffer of the source's capacity holding copies
      of its live elements. */
  function CopyConstruct<T>(other: Vector<T>, blank: T): (r: Vector<T>)
    requires other.Valid()
    ensures r.Valid()
    ensures r.Contents() == other.Contents()
    ensures r.Capacity() == other.Capacity()
  {
    Reallocate(other, other.Capacity(), blank)
  }

  /** The move constructor. The result is (new vector, source afterwards): the
      new vector takes over the source's buffer, the source is left empty with
      no buffer. */
  function MoveConstruct<T>(other: Vector<T>): (r: (Vector<T>, Vector<T>))
    ensures r.0 == other
    ensures r.1.Valid() && r.1.Contents() == [] && r.1.Capacity() == 0
  {
    (other, EmptyVector())
  }

  /** Copy assignment `dst = src`. `aliased` says that both name the same
      object (`this == &other`), in which case nothing happens; otherwise a
      copy of `src` is built and swapped into `dst`, and the old buffer of
      `dst` goes away with the temporary. */
  function CopyAssign<T>(dst: Vector<T>, src: Vector<T>, aliased: bool, blank: T): (r: Vector<T>)
    requires src.Valid()
    requires aliased ==> dst == src
    ensures r.Valid()
    ensures r.Contents() == src.Contents()
    ensures r.Capacity() == src.Capacity()
    ensures aliased ==> r == dst
  {
    if aliased then dst else Swap(dst, CopyConstruct(src, blank)).0
  }

  /** Move assignment `dst = std::move(src)`. The result is (dst, src)
      afterwards: `dst` releases its buffer and takes over the source's, the
      source is left empty with no buffer; self-assignment changes nothing. */
  function MoveAssign<T>(dst: Vector<T>, src: Vector<T>, aliased: bool): (r: (Vector<T>, Vector<T>))
    requires aliased ==> dst == src
    ensures aliased ==> r == (dst, src)
    ensures !aliased ==> r.0 == src
    ensures !aliased ==> r.1.Valid() && r.1.Contents() == [] && r.1.Capacity() == 0
  {
    if aliased then (dst, src) else (src, EmptyVector())
  }
}
