# nexus::vector in Dafny

This project models `nexus::vector<T>` (`vector.h`), a from-scratch growable
contiguous array. The model keeps the state the class keeps: one buffer
(`first .. end_ptr`) and the live prefix of it (`first .. last`). Here that is
`Storage.Vector<T>(slots, size)`:

- the capacity is `|slots|`, returned by the member `Capacity()` as `capacity()` does (vector.h:162-165);
- the live elements are `slots[..size]`;
- the class invariant `size <= capacity` is `Valid()`.

Every operation is a pure function or method from states to states, and its
contract is stated on the abstract view `(Contents(), Capacity())`.

Modules follow the parts of the class:

- `Storage` holds the buffer management:
  - the default constructor, the copy and move constructors, and copy and move assignment;
  - the private `reallocate` and `grow`;
  - `reserve`, `shrink_to_fit`, `swap` and `empty`.
- `Mutation` holds `push_back`, `emplace_back`, `pop_back`, `clear` and
  `resize`. The two `while` loops of `resize` are the recursive functions
  `Truncate` and `AppendUntil`; `clear` is truncation to zero.
- `Access` holds `operator[]`, `at`, `front` and `back`.
- `Buffers` holds the element loops over a freshly allocated array:
  - the copy loop of `reallocate`;
  - the count, initializer-list and pointer-range constructors.
- `Growth` proves the amortised growth policy for a run of appends.
- `Relational` holds `==`, `!=`, `<`, `<=`, `>` and `>=`.

Modelling conventions:

- `blank` stands for whatever a fresh slot of `new T[n]` holds. `new T[n]` default-initialises its slots. For a class type with a user-provided default constructor, that gives the value the constructor builds. For `int`, the slot is indeterminate. No contract depends on `blank`.
- The default arguments `T()` of the count constructor and of `resize` are passed explicitly.
- The initializer-list constructor passes an explicit, value-initialised `T()` to the count constructor (vector.h:36). `Buffers.ListConstruct` passes `blank` there instead. That is a separate value, and it is harmless only because the list then overwrites every slot.
- The fatal paths of `at`, `front`, `back` and `pop_back` print a diagnostic and
  call `std::exit`. Here they return `Faults.Outcome.Fatal` with the failed
  check. The unchecked `operator[]` instead has the precondition `i < size`.
- The `this == &other` test of the two assignments is the parameter `aliased`.
  It requires the two states to be the same.
- The comparisons use Dafny equality for `T`'s `==`, and a function parameter
  `lt` for `T`'s `<`. The ordering lemmas assume `lt` is a strict total order.

Two facts about the storage in vector.h shape the model:

- Capacity 0 does not mean that nothing is allocated. Every path that asks for
  zero slots runs `new T[0]`, which allocates a zero-length array. These paths are:
  - the count constructor with count 0 (vector.h:29);
  - the empty initializer list, which delegates to it (vector.h:36);
  - the range constructor with `start == end` (vector.h:62);
  - copy construction, and through it copy assignment, from a capacity-0
    vector (vector.h:45, vector.h:75);
  - `shrink_to_fit` of an empty vector that has slack (vector.h:235, vector.h:316).

  A null buffer comes from the default constructor (vector.h:25). Move
  construction and move assignment leave one in the source (vector.h:55-57,
  vector.h:88-90). Moves and swap also pass a null buffer on (vector.h:54,
  vector.h:85-87, vector.h:241-243). The model tracks the capacity alone,
  which is 0 in all of these cases.
- Freshly allocated slots hold whatever `new T[n]` default-initialises them
  to; the model fills them with `blank`.
  Slots freed by `pop_back`, `clear` or a shrinking `resize` hold a destroyed
  element (vector.h:200-201, vector.h:207, vector.h:215); the model keeps its
  old value there. Neither kind of slot is ever read. `push_back` assigns into
  the next slot, and `emplace_back` constructs into it with placement `new`
  (vector.h:175, vector.h:191).

## Model

| member | source | states |
|---|---|---|
| Storage.Size | vector.h:157-160 | `size()` is the number of live elements |
| Storage.IsEmpty | vector.h:167-168 | `empty()` holds exactly when there is no live element |
| Storage.EmptyVector | vector.h:24-25 | the default constructor gives no elements and capacity 0 |
| Storage.Reallocate | vector.h:314-327 | reallocating keeps the element sequence and makes the capacity exactly the requested count, for any count that holds the live elements |
| Storage.NextCapacity | vector.h:307-310 | the growth rule gives 1 for capacity 0 and twice the capacity otherwise, always more than before |
| Storage.Grow | vector.h:307-312 | growth keeps the elements and raises the capacity from 0 to 1, or doubles it |
| Storage.Reserve | vector.h:225-230 | reserve keeps the elements, and the capacity becomes the larger of the old capacity and the request; a request not above the capacity leaves the vector untouched |
| Storage.ShrinkToFit | vector.h:232-237 | shrink_to_fit keeps the elements and makes the capacity equal to the size, 0 for an empty vector; a vector without slack is untouched |
| Storage.Swap | vector.h:239-244 | swap exchanges the two complete states, buffers included |
| Storage.SwapTwiceRestores | vector.h:239-244 | swapping twice restores both vectors |
| Storage.CopyConstruct | vector.h:43-50 | a copy has the same elements and the same capacity as its source |
| Storage.MoveConstruct | vector.h:52-58 | the new vector takes the source's whole state; the source is left with no elements and capacity 0 |
| Storage.CopyAssign | vector.h:72-79 | after copy assignment the target has the source's elements and capacity; self-assignment changes nothing |
| Storage.MoveAssign | vector.h:81-93 | after move assignment the target has the source's state and the source is empty with capacity 0; self-assignment changes nothing |
| Mutation.PushBack | vector.h:170-184 | push_back appends the value after the unchanged earlier elements; the capacity goes 0 to 1, doubles when the buffer was full, and is otherwise unchanged |
| Mutation.EmplaceBack | vector.h:186-192 | emplace_back adds one element built from the arguments after the unchanged earlier elements, with the same capacity rule as push_back |
| Mutation.PopBack | vector.h:194-202 | pop_back is fatal exactly on an empty vector; otherwise it removes exactly the last element and keeps the capacity |
| Mutation.Truncate | vector.h:213-216 | popping until k elements remain leaves exactly the first k elements and the same capacity |
| Mutation.Clear | vector.h:204-209 | clear leaves no elements and keeps the capacity |
| Mutation.AppendUntil | vector.h:217-222 | appending until k elements are live adds copies of the value after the old elements, without growth when the buffer already holds k |
| Mutation.Resize | vector.h:211-223 | shrinking keeps the first k elements and the capacity; growing appends k - size copies of the value with capacity max(old, k); equal size changes nothing |
| Mutation.PopUndoesPush | vector.h:170-202 | pop_back after push_back succeeds and restores the elements, never lowering the capacity |
| Mutation.ResizeBackRestores | vector.h:211-230 | resizing up to k and back to the old size restores the elements and keeps capacity max(old, k) |
| Access.Index | vector.h:95-97 | unchecked access to a live index gives that element |
| Access.At | vector.h:99-113 | at(i) gives element i exactly when i is below the size, and is otherwise the out-of-range fault for i |
| Access.AtAgreesWithIndex | vector.h:95-113 | checked and unchecked access agree on every live index |
| Access.AtSizeIsFatal | vector.h:100-104 | at(size()) is fatal on every vector, the empty one included |
| Access.Front | vector.h:115-129 | front gives the first element, and is fatal exactly on an empty vector |
| Access.Back | vector.h:131-145 | back gives the last element, and is fatal exactly on an empty vector |
| Buffers.ReallocateLoop | vector.h:315-327 | the copy loop into a fresh default-filled buffer computes the reallocated state: the same elements, capacity exactly the request |
| Buffers.FillConstruct | vector.h:27-33 | the count constructor gives count elements, all equal to the fill value, and capacity count |
| Buffers.ListConstruct | vector.h:35-41 | the initializer-list constructor gives the list's elements in order, with capacity the list length |
| Buffers.RangeConstruct | vector.h:60-67 | the range constructor gives the values between start and end, with capacity end - start |
| Growth.PushAll | vector.h:170-176 | a run of push_back calls appends the values in order and never lowers the capacity |
| Growth.PushBackKeepsDoubled | vector.h:307-312 | one append keeps the capacity at 2^(g-1) and between the size and twice the size, where g counts the growths |
| Growth.PushAllKeepsDoubled | vector.h:307-312 | a run of appends keeps that shape, counting every append that found the buffer full |
| Growth.AppendsFromEmpty | vector.h:307-312 | N appends to a vector with no buffer give exactly the appended values; the capacity is 0 for N = 0, else 2^(g-1) after g growths and between N and 2N - 1, so there are O(log N) reallocations |
| Relational.Equal | vector.h:265-274 | == holds exactly when the sizes are equal and the elements are equal pointwise, whatever the capacities |
| Relational.NotEqual | vector.h:276-279 | != holds exactly when the element sequences differ |
| Relational.LexCompare | vector.h:281-285 | the element-by-element lexicographical_compare: an empty left side is less exactly when the right side is non-empty, nothing is less than an empty sequence, and a true answer comes from the left side running out first or from a position where its element comes first |
| Relational.Less | vector.h:281-285 | < on vectors is, for a strict total order on the elements, the lexicographic order of their live elements |
| Relational.LessEq | vector.h:287-290 | <= is not (rhs < lhs), which for a strict total order means < or equal contents |
| Relational.Greater | vector.h:292-295 | > is rhs < lhs, which for a strict total order is the lexicographic order with the operands exchanged |
| Relational.GreaterEq | vector.h:297-300 | >= is not (lhs < rhs), which for a strict total order means > or equal contents |
| Relational.LexCompareIsLexLess | vector.h:281-285 | the step-by-step lexicographical_compare holds exactly when the first sequence is a proper prefix of the second, or is smaller at the first position where they differ |
| Relational.LessIsLexicographic | vector.h:281-285 | < on vectors is the lexicographic order of their elements |
| Relational.LexCompareTrichotomy | vector.h:281-285 | for a strict total order, equal sequences are not less either way, and of two different sequences exactly one is less |
| Relational.Trichotomy | vector.h:265-300 | exactly one of <, == and > holds for two vectors |
| Relational.DerivedOperators | vector.h:287-300 | <= means < or ==, >= means > or ==, > is < flipped, and != is the negation of == |
| Relational.IntegerExamples | vector.h:265-285 | [1,2,3] < [1,2,4], [1,2] < [1,2,3], [1,2,3] is not less than itself, and equality ignores capacity |

## Left out

- `operator>>` and `operator<<` (vector.h:247-263) are text I/O that depends on `T`'s own stream formatting.
- `begin`, `end`, `cbegin` and `cend` (vector.h:147-155) return raw pointers. The range they delimit is `Contents()`. Iterator and reference invalidation is not modelled.
- Mutation.PushBack: assumes the argument does not alias an element of the vector's own buffer. In the source, `v.push_back(v[i])` on a full vector first runs `grow`, which moves from and then frees the referenced element (vector.h:320-323). The assignment at vector.h:175 then reads freed memory, which the model cannot express.
- Mutation.EmplaceBack: assumes the constructor arguments do not refer into the vector's own buffer, for the same reason (vector.h:188-191).
- Mutation.Resize: assumes the fill value does not alias an element of the vector. With `k` above the capacity, `reserve` at vector.h:218 frees the referenced element before the appends at vector.h:219-221 copy it.
- Growth.PushAll: assumes, like Mutation.PushBack, that no appended value aliases the vector's own buffer.
- The references returned by `operator[]`, `at`, `front` and `back` are modelled as the values they refer to. Writing through them is not modelled.
- The destructor `~vector` (vector.h:70) is not modelled. Its `delete[] first` runs `~T()` on all `capacity()` slots and then releases the storage, and values have no lifetime here.
- Object lifetime is not modelled. This covers placement `new` in `emplace_back` and the explicit `~T()` calls in `pop_back` and `clear`. It also covers the later reuse or second destruction of those slots by assignment or `delete[]`.
- `size_t` width is not modelled: capacities and sizes are unbounded naturals, so `old_cap * 2` in `grow` (vector.h:310) cannot wrap.
- Buffers.RangeConstruct: requires `start <= end`. At vector.h:62, `end - start` is a signed `ptrdiff_t`; when it is negative, `new T[end - start]` throws `std::bad_array_new_length`, and exceptions are not modelled.
- Allocation failure is not modelled: `std::bad_alloc` from `new T[n]` at vector.h:29, vector.h:45, vector.h:62 and vector.h:316 cannot happen in the model.
- The diagnostic text written to `std::cerr` is not modelled. Only which check failed is kept.
- Copying versus moving an element, in `push_back` and in relocation, gives the same state here. The moved-from source value is not modelled.
- Exceptions from `T`'s constructors and assignments, and any rollback after them, are not modelled.
- Independence of a copy from its source holds by construction, since states are values. No separate lemma states it.
