/** The amortised growth policy of `nexus::vector<T>`: over any run of
    appends that starts from a vector with no buffer, the capacity after the
    first append is always a power of two below twice the size, so N appends
    reallocate O(log N) times. A vector emptied by `clear` keeps its buffer
    and is not covered. */
module Growth {
  import opened Storage
  import opened Mutation

  /** `xs` appended one `push_back` at a time. */
  function PushAll<T>(v: Vector<T>, xs: seq<T>, blank: T): (r: Vector<T>)
    requires v.Valid()
    ensures r.Valid()
    ensures r.Contents() == v.Contents() + xs
    ensures r.Capacity() >= v.Capacity()
    decreases |xs|
  {
    if xs == [] then v
    else
      var w := PushBack(v, xs[0], blank);
      assert w.Contents() + xs[1..] == v.Contents() + xs;
      PushAll(w, xs[1..], blank)
  }

  /** How many of those appends found the buffer full and called `grow`. */
  function Growths<T>(v: Vector<T>, xs: seq<T>, blank: T): (g: nat)
    requires v.Valid()
    decreases |xs|
  {
    if xs == [] then 0
    else (if v.size == v.Capacity() then 1 else 0) + Growths(PushBack(v, xs[0], blank), xs[1..], blank)
  }

  function Pow2(k: nat): (p: nat) {
    if k == 0 then 1 else 2 * Pow2(k - 1)
  }

  /** The shape a vector has after `g` growths from empty: no buffer before
      the first growth, afterwards a capacity of 2^(g-1) that is at least the
      size and less than twice it. */
  ghost predicate Doubled<T>(v: Vector<T>, g: nat) {
    if g == 0 then v.size == 0 && v.Capacity() == 0
    else v.Capacity() == Pow2(g - 1) && v.size <= v.Capacity() < 2 * v.size
  }

  lemma PushBackKeepsDoubled<T>(v: Vector<T>, x: T, blank: T, g: nat)
    requires v.Valid() && Doubled(v, g)
    ensures Doubled(PushBack(v, x, blank), g + if v.size == v.Capacity() then 1 else 0)
  {
    if g > 0 && v.size == v.Capacity() {
      assert Pow2(g) == 2 * Pow2(g - 1);
    }
  }

  lemma {:induction false} PushAllKeepsDoubled<T>(v: Vector<T>, xs: seq<T>, blank: T, g: nat)
    requires v.Valid() && Doubled(v, g)
    ensures Doubled(PushAll(v, xs, blank), g + Growths(v, xs, blank))
    decreases |xs|
  {
    if xs != [] {
      var w := PushBack(v, xs[0], blank);
      PushBackKeepsDoubled(v, xs[0], blank, g);
      PushAllKeepsDoubled(w, xs[1..], blank, g + if v.size == v.Capacity() then 1 else 0);
    }
  }

  /** N appends to a vector with no buffer (default-constructed or moved
      from): the contents are the appended values, and after g growths the
      capacity is 2^(g-1), between N and 2N - 1; so g is at most one more
      than log2 of 2N - 1. */
  lemma {:induction false} AppendsFromEmpty<T>(xs: seq<T>, blank: T)
    ensures PushAll(EmptyVector(), xs, blank).Contents() == xs
    ensures xs == [] ==> PushAll(EmptyVector(), xs, blank).Capacity() == 0
    ensures xs != [] ==>
      var r := PushAll(EmptyVector(), xs, blank);
      var g := Growths(EmptyVector(), xs, blank);
      && g > 0
      && r.Capacity() == Pow2(g - 1)
      && |xs| <= r.Capacity() < 2 * |xs|
  {
    var e: Vector<T> := EmptyVector();
    PushAllKeepsDoubled(e, xs, blank, 0);
  }
}
