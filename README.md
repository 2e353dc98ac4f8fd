# SimpleVector in Dafny

A model of `SimpleVector<Type>`, a growable contiguous array that manages its
own buffer, and of `ReserveProxyObj`, the small object that carries a
requested capacity to one of its constructors.

- `sequences.dfy` (module `Sequences`) holds the abstract view: the growth rule
  (`0` becomes `1`, anything else doubles), insertion at a position, removal at
  a position, resizing with a default value, and the lexicographic order used by
  `<`, with its laws (irreflexive, asymmetric, transitive and trichotomous under
  a strict total element order; the first differing element decides; a shorter
  equal prefix sorts first).
- `simple_vector.dfy` (module `SimpleVectors`) holds the class `SimpleVector<T>`
  with fields `data: array<T>` (the buffer, whose length is the capacity) and
  `size: nat`; `Valid()` is `size <= capacity` and `Elements()` is
  `data[..size]`. Every operation that replaces the buffer allocates a fresh
  array and moves the live elements into it by a loop; `Insert` and `Erase`
  shift the suffix inside the buffer by loops. Each mutating method states the
  new `Elements()` and capacity in terms of the old ones.
- `comparisons.dfy` (module `Comparisons`) holds the free operators `==`, `!=`,
  `<`, `<=`, `>`, `>=` as read-only index loops, proved equal to sequence
  equality and to the lexicographic order.
- `insert_as_written.dfy` (module `InsertAsWritten`) models the in-place path of
  `Insert` as the C++ standard's equivalent element-by-element loop for
  `std::uninitialized_move_n` specifies it, with each move read as a copy, and
  shows where it goes wrong (see Findings). The overlapping ranges the source
  passes violate that call's precondition, so a particular library may behave
  differently.
- `scenarios.dfy` (module `Scenarios`) holds client methods that use only the
  contracts: push-then-pop and insert-then-erase round trips, isolation of a
  copy, move leaving the source empty, `At` past the end, and worked examples
  of shrinking and regrowing with `Resize` and of equality.

The element type's `Type{}` (value initialisation) is an explicit `zero`/`value`
parameter. Element ordering is an explicit parameter `lt: (T, T) -> bool`; the
source's element test `x > y` is read as `lt(y, x)`. Element equality is Dafny's
`==`.

## Model

| member | source | states |
|---|---|---|
| `Sequences.NextCapacity` | simple-vector/simple_vector.h:106 | the grown capacity always leaves room for one more element and is at most double plus one |
| `Sequences.InsertAt` | simple-vector/simple_vector.h:132-172 | the prefix before the position is kept, the new value sits at the position, and each later element sits one slot higher |
| `Sequences.RemoveAt` | simple-vector/simple_vector.h:179-185 | the prefix before the position is kept and each later element sits one slot lower; the length drops by one |
| `Sequences.Resized` | simple-vector/simple_vector.h:232-251 | the length becomes the requested size, the first min(old size, new size) elements are kept, newly exposed slots hold the default value |
| `Sequences.RemoveAtInsertAt` | simple-vector/simple_vector.h:132-185 | erasing at the position just inserted at restores the element sequence |
| `Sequences.InsertAtRemoveAt` | simple-vector/simple_vector.h:132-185 | inserting the erased element back at its position restores the element sequence |
| `Sequences.ResizedForgetsCutTail` | simple-vector/simple_vector.h:244-249 | shrinking then growing again fills the regrown slots with the default value; cut-off values never come back |
| `Sequences.FirstDifference` | simple-vector/simple_vector.h:316-324 | the index where the comparison loop stops: all earlier pairs are equivalent, and it is the common length or a pair the order tells apart |
| `Sequences.FirstDifferenceSymmetric` | simple-vector/simple_vector.h:316-324 | the stopping index is the same with the operands swapped |
| `Sequences.FirstDifferingElementDecides` | simple-vector/simple_vector.h:317-323 | when the first pair the order tells apart is at k, `<` holds exactly when the left element at k is the smaller |
| `Sequences.ShorterPrefixSortsFirst` | simple-vector/simple_vector.h:325 | a proper prefix sorts before the longer vector, and not the other way round |
| `Sequences.LexLessIrreflexive` | simple-vector/simple_vector.h:315-326 | no vector is less than itself when the element order is irreflexive |
| `Sequences.LexLessAsymmetric` | simple-vector/simple_vector.h:315-326 | `a < b` and `b < a` never both hold when the element order is asymmetric |
| `Sequences.LexLessTrichotomy` | simple-vector/simple_vector.h:315-326 | under a strict total element order exactly one of `a < b`, `a == b`, `b < a` holds |
| `Sequences.LexLessTransitive` | simple-vector/simple_vector.h:315-326 | under a strict total element order `<` is transitive |
| `Sequences.IntegerOrderExamples` | simple-vector/simple_vector.h:315-326 | on integers {1,2} < {1,2,3}, not {1,3} < {1,2,9}, and not {1,2,3} < {1,2,3} |
| `SimpleVectors.Reserve` | simple-vector/simple_vector.h:23-25 | the proxy carries exactly the requested capacity |
| `SimpleVectors.ReserveProxyObj.GetCapacity` | simple-vector/simple_vector.h:16-18 | returns the requested capacity, which is all the proxy carries |
| `SimpleVectors.SimpleVector.Capacity` | simple-vector/simple_vector.h:197-199 | the buffer's slot count, never below the number of live elements |
| `SimpleVectors.MoveN` | simple-vector/simple_vector.h:108 | moving n elements between two buffers puts them at the destination offset in order and leaves every other destination slot unchanged |
| `SimpleVectors.FillN` | simple-vector/simple_vector.h:44 | exactly the n slots from the offset hold the value afterwards |
| `SimpleVectors.ShiftUp` | simple-vector/simple_vector.h:146 | the back-to-front move: each slot in (lo, hi] holds the old content of the slot below it, all other slots unchanged |
| `SimpleVectors.ShiftDown` | simple-vector/simple_vector.h:181 | each slot in [lo, hi-1) holds the old content of the slot above it, all other slots unchanged |
| `SimpleVectors.SimpleVector.GetSize` | simple-vector/simple_vector.h:193-195 | the size is the number of live elements |
| `SimpleVectors.SimpleVector.IsEmpty` | simple-vector/simple_vector.h:201-203 | empty exactly when there are no live elements |
| `SimpleVectors.SimpleVector.constructor` | simple-vector/simple_vector.h:33 | no elements, capacity 0 |
| `SimpleVectors.SimpleVector.Filled` | simple-vector/simple_vector.h:35-45 | n elements all equal to the given value, capacity exactly n |
| `SimpleVectors.SimpleVector.FromList` | simple-vector/simple_vector.h:47-51 | the list's elements in order, capacity exactly the list length |
| `SimpleVectors.SimpleVector.FromReserve` | simple-vector/simple_vector.h:53-61 | no elements, capacity exactly the proxy's number |
| `SimpleVectors.SimpleVector.Copy` | simple-vector/simple_vector.h:63-68 | the same elements and the same capacity as the source, in a fresh buffer |
| `SimpleVectors.SimpleVector.Move` | simple-vector/simple_vector.h:70-75 | takes over the source's buffer, elements and capacity; the source ends with no elements and capacity 0 |
| `SimpleVectors.SimpleVector.CopyAssign` | simple-vector/simple_vector.h:78-83 | afterwards the elements and capacity are those of the right-hand side; self-assignment changes nothing |
| `SimpleVectors.SimpleVector.MoveAssign` | simple-vector/simple_vector.h:85-97 | takes over the right-hand side's buffer, elements and capacity and empties it to capacity 0; self-assignment changes nothing |
| `SimpleVectors.SimpleVector.Swap` | simple-vector/simple_vector.h:187-191 | buffers, elements and capacities are exchanged |
| `SimpleVectors.SimpleVector.PushBack` | simple-vector/simple_vector.h:104-130 | the elements become the old ones plus the item at the end; a full buffer grows by the doubling rule, otherwise the buffer and capacity are unchanged |
| `SimpleVectors.SimpleVector.Insert` | simple-vector/simple_vector.h:132-172 | returns the position; the elements become the old ones with the value inserted there; a full buffer grows by the doubling rule, otherwise the buffer and capacity are unchanged |
| `SimpleVectors.SimpleVector.PopBack` | simple-vector/simple_vector.h:174-177 | the last element is dropped, the buffer and capacity stay |
| `SimpleVectors.SimpleVector.Erase` | simple-vector/simple_vector.h:179-185 | returns the position; exactly the element there is removed, later ones move down, the buffer and capacity stay |
| `SimpleVectors.SimpleVector.Clear` | simple-vector/simple_vector.h:227-230 | no elements remain; the buffer and capacity stay |
| `SimpleVectors.SimpleVector.Resize` | simple-vector/simple_vector.h:232-251 | the elements become the old ones cut or padded with the default value to the new size; capacity becomes exactly the new size when it was smaller, otherwise the buffer and capacity stay |
| `SimpleVectors.SimpleVector.Reserve` | simple-vector/simple_vector.h:253-265 | the elements never change; a request within capacity keeps the very same buffer, a larger one gives a fresh buffer of exactly that capacity |
| `SimpleVectors.SimpleVector.Get` | simple-vector/simple_vector.h:209-211 | returns the element at an in-range index |
| `SimpleVectors.SimpleVector.Set` | simple-vector/simple_vector.h:205-207 | writing through the reference replaces exactly the element at that index |
| `SimpleVectors.SimpleVector.At` | simple-vector/simple_vector.h:213-225 | out of range exactly when the index is at least the size, otherwise the element at the index; the vector is not changed |
| `Comparisons.Equal` | simple-vector/simple_vector.h:296-307 | true exactly when both vectors hold the same element sequence |
| `Comparisons.NotEqual` | simple-vector/simple_vector.h:309-312 | true exactly when the element sequences differ |
| `Comparisons.Less` | simple-vector/simple_vector.h:314-326 | the loop's answer is the lexicographic order of the element sequences |
| `Comparisons.LessOrEqual` | simple-vector/simple_vector.h:328-331 | `!(rhs < lhs)`; under a strict total element order, less or equal |
| `Comparisons.Greater` | simple-vector/simple_vector.h:333-336 | `rhs < lhs` in the lexicographic order |
| `Comparisons.GreaterOrEqual` | simple-vector/simple_vector.h:338-341 | `!(lhs < rhs)`; under a strict total element order, greater or equal |
| `InsertAsWritten.ForwardMove` | simple-vector/simple_vector.h:146 | the standard's element-by-element loop for the move, with a move read as a copy, changes only the destination slots |
| `InsertAsWritten.ForwardMoveByOneSmears` | simple-vector/simple_vector.h:146 | with the destination one slot above the source, every moved slot ends up holding the first source element |
| `InsertAsWritten.InPlaceInsert` | simple-vector/simple_vector.h:145-148 | the in-place insertion under the standard's forward loop: the value at the position, a copy of the old element at the position in every later live slot, and every slot before the position or past the old size unchanged |
| `InsertAsWritten.InPlaceInsertCounterexample` | simple-vector/simple_vector.h:146-147 | inserting 9 at position 1 of [1,2,3] with a spare slot gives [1,9,2,2] under the standard's forward loop, not [1,9,2,3] |
| `InsertAsWritten.InPlaceInsertLosesLastElement` | simple-vector/simple_vector.h:146 | under that loop, the result differs from the intended insertion whenever the position lies before the end and the element there differs from the last live element |
| `Scenarios.PushThenPop` | simple-vector/simple_vector.h:104-177 | PushBack then PopBack restores the element sequence |
| `Scenarios.InsertThenErase` | simple-vector/simple_vector.h:132-185 | Insert at p then Erase at p restores the element sequence |
| `Scenarios.CopyThenPush` | simple-vector/simple_vector.h:63-68 | appending to a copy leaves the original's elements and capacity unchanged |
| `Scenarios.MoveOut` | simple-vector/simple_vector.h:70-75 | the moved-from vector is empty with capacity 0, the new one holds its old contents |
| `Scenarios.AtPastEndFails` | simple-vector/simple_vector.h:213-218 | checked access at or past the size fails for every size |
| `Scenarios.ResizeExample` | simple-vector/simple_vector.h:232-251 | [1,2] resized to 5, written at 3 and 4, resized to 3 and back to 5 reads [1,2,0,0,0] |
| `Scenarios.ReserveBelowCapacityKeepsBuffer` | simple-vector/simple_vector.h:253-256 | reserving within capacity keeps the buffer and the elements |
| `Scenarios.EqualityExamples` | simple-vector/simple_vector.h:296-307 | {1,2,3} == {1,2,3}; {1,2} != {1,2,3}; {1,2,3} != {3,2,1} |

## Left out

- Object lifetime: placement `new`, `std::destroy_n`/`destroy_at`, `delete[]`, the destructor and the difference between live and uninitialised slots. Dafny arrays are garbage-collected and always initialised; only the contents of the live slots are modelled.
- The copy and move overloads of `PushBack` and `Insert`, and the const and non-const overloads of `operator[]` and `At`: each pair is one value operation here.
- Iterators (`begin`, `end`, `cbegin`, `cend`) and iterator positions: `Insert` and `Erase` take and return indices; pointer arithmetic and invalidation are not modelled.
- Allocation failure (`std::bad_alloc`) and the exception-safety guarantees of each operation.
- `size_t` wrap-around: sizes and capacities are unbounded naturals, so `2 * capacity_` never overflows.
- The non-copyability of `ReserveProxyObj`; it is a plain value here.
- Out-of-range `operator[]`: its index bound is a precondition of `Get` and `Set`; `PopBack` and `Erase` likewise require a non-empty vector and an index below the size, as the source's callers must guarantee.
- `Type{}`: value initialisation is the explicit `zero` parameter of `Resize` and the `value` parameter of `Filled`, which models both the one- and the two-argument sized constructors.
- `SimpleVectors.SimpleVector.Filled` as the one-argument constructor: the model takes the value-initialised buffer that `new Type[size]{}` produces at simple-vector/simple_vector.h:36. Line 38 then runs `std::uninitialized_default_construct_n` over those same live slots. For a class type that default-constructs them again, with no visible change. For a scalar type such as `int` the C++ standard leaves a default-initialised object with an indeterminate value, so by the standard `SimpleVector<int>(n)` holds indeterminate values rather than zeros; a library that skips that call for trivial types keeps the zeros. The model does not capture indeterminate values.
- Aliased arguments: the item of `PushBack` and the value of `Insert` are Dafny values that never alias the vector's own elements, whereas the source takes `const Type&`, which may refer into the vector's buffer. Two source behaviours are therefore not modelled. (1) `v.PushBack(v[0])` on a full vector: simple-vector/simple_vector.h:109-110 destroy and free the old buffer, and line 114 then reads `item` from freed memory, which is undefined behaviour; the model appends the old `v[0]`. (2) `v.Insert(v.begin(), v[1])` on {1,2,3} with capacity 4: the move at simple-vector/simple_vector.h:146 overwrites the slot `value` refers to before line 147 reads it. The source then gives {1,1,1,1} under the forward loop, and {1,1,2,3} even with a back-to-front shift; the model gives {2,1,2,3}. The rvalue overloads behave alike: line 128 reads `item` after lines 123-124 have freed the old buffer, and the move at line 167 overwrites the slot line 168 then moves from. On the reallocating path of `Insert`, line 138 reads `value` after line 137 has moved the elements before the position out of the old buffer, so an argument referring there is read in its moved-from state.
- Element order: `<` and `>` on elements are one parameter `lt`, with `x > y` read as `lt(y, x)`; the derived laws of the lexicographic order are proved under an irreflexive, asymmetric or strict total `lt` as each needs.
- `Sequences.NextCapacity`: its contract only bounds the grown capacity; the exact rule is its definition, which the `PushBack` and `Insert` contracts use.
- `SimpleVectors.SimpleVector.Insert`: models the intended back-to-front shift on the in-place path, not the forward move into an overlapping range that the source writes; that is modelled separately in `InsertAsWritten`.
- Ownership: nothing in `Valid()` says that two vectors never share a buffer; copies get a fresh buffer and moves hand the buffer over, which the contracts state.

## Findings

| source | as written | input that shows it | evidently intended | confidence | as-written member | corrected member |
|---|---|---|---|---|---|---|
| simple-vector/simple_vector.h:146 | the in-place path of `Insert` (also at line 167) moves the suffix up with `std::uninitialized_move_n` into the range one slot higher; overlapping ranges violate that call's precondition, and under the standard's equivalent forward loop, with a move read as a copy, each step reads the slot the previous step wrote | `Insert` of 9 at position 1 into {1,2,3} with capacity 4 gives {1,9,2,2} under that loop (a library that copies an `int` range as a block may give {1,9,2,3}; a type whose move empties its source leaves emptied slots) | the suffix moved up one slot back to front, giving {1,9,2,3} | not executed | `InsertAsWritten.InPlaceInsertCounterexample` | `SimpleVectors.SimpleVector.Insert` |
