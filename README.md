# advanced-vector in Dafny

A model of `advanced-vector/vector.h`, a growable contiguous array built on raw
storage. It has two layers:

- `RawMemory<T>` owns a block of `capacity` slots. It never constructs or
  destroys elements. It offers slot addressing, `Swap` and ownership transfer.
- `Vector<T>` owns one `RawMemory`. Its slots `[0, size)` hold the live
  elements, and `size <= capacity` always holds. It implements construction,
  indexing, `Reserve`, `Resize`, `PushBack`/`EmplaceBack`, `PopBack`,
  `Emplace`/`Insert`, `Erase`, copy and move assignment, and `Swap`. A full
  vector grows to twice its size, or to one slot when its capacity is 0;
  `Reserve` and `Resize` grow to exactly n.

Files:

- `raw_memory.dfy` (module `RawStorage`): class `RawMemory` with an
  `array<T>` block and its capacity. It also holds the bulk slot algorithms the
  vector uses, all as loops over arrays:
  - `CopyN`: `std::uninitialized_copy_n`, `std::uninitialized_move_n` and
    `std::copy`;
  - `FillN`: `std::uninitialized_value_construct_n`;
  - `MoveBackward`: `std::move_backward`;
  - `MoveForward`: `std::move`.
- `vector.dfy` (module `DynamicArray`): class `Vector`, with `const data:
  RawMemory<T>` and `size`. `Contents()` is `data.buffer[..size]`, and
  `Model()` pairs it with the capacity. Every method states its effect on
  `Model()`. Most do it through the matching function of `VectorModel`. `Set`,
  `Swap`, `MoveAssign` and the move constructor instead state it directly in
  terms of the old values. `Reserve`, `Resize`, `PushBack`, `EmplaceBack`,
  `Emplace`, `Insert` and `CopyAssign` say exactly when they replace the block
  with a fresh one and when they keep it. `Set`, `PopBack` and `Erase` keep the
  block. `Swap` and `MoveAssign` exchange blocks with the other vector. The move
  constructor takes the source's block and leaves the source a fresh empty one.
- `vector_model.dfy` (module `VectorModel`): the abstract value
  `Vec(elems, cap)`, one function per operation, and the lemmas. The lemmas
  cover:
  - Insert and Erase undo each other;
  - pushing n elements and popping n restores the contents, and capacity never
    decreases;
  - capacity stays tight under doubling;
  - what Reserve and Resize guarantee;
  - copy self-assignment.
- `as_written.dfy` (module `AsWritten`): the two places where the source as
  written leaves defined behaviour (see Findings).
- `scenario.dfy` (module `VectorScenarios`): concrete callers whose results
  are derived from the contracts alone.

Positions (the source's iterators) are indices. Dafny has no expression for the
default value of a generic `T(0)`, so the value-initialised element `T{}` is a
parameter, `init`.

## Model

| member | source | states |
|---|---|---|
| RawStorage.RawMemory.Empty | advanced-vector/vector.h:14 | The default block has capacity 0 and no slots. |
| RawStorage.RawMemory.constructor | advanced-vector/vector.h:16-19 | A fresh block of exactly `capacity` slots. |
| RawStorage.RawMemory.Move | advanced-vector/vector.h:23-25 | Move construction swaps with an empty block. The new block takes the source's buffer and capacity, and the source is left with capacity 0. |
| RawStorage.RawMemory.Offset | advanced-vector/vector.h:34-38 | A slot address can be formed for every offset up to and including `capacity` (one past the end). It is the offset from the block start. |
| RawStorage.RawMemory.At | advanced-vector/vector.h:48-51 | A slot read is defined only for `index < capacity` and yields that slot. |
| RawStorage.RawMemory.Put | advanced-vector/vector.h:48-51 | A write through the slot reference changes that slot and no other. |
| RawStorage.RawMemory.Swap | advanced-vector/vector.h:53-56 | Exchanges buffer and capacity with the other block. Swapping a block with itself changes nothing. |
| RawStorage.RawMemory.Capacity | advanced-vector/vector.h:66-68 | Capacity is the number of slots in the block. |
| RawStorage.CopyN | advanced-vector/vector.h:239-243 | The destination range receives the source range element by element. Every other destination slot keeps its value. |
| RawStorage.FillN | advanced-vector/vector.h:262 | The range becomes the value-initialised element. Nothing else changes. |
| RawStorage.MoveBackward | advanced-vector/vector.h:169 | `[first, last)` moves to end at `dLast`, copying back to front so the overlap is safe. Other slots are unchanged. It requires `first <= last`. |
| RawStorage.MoveForward | advanced-vector/vector.h:177 | `[first, last)` moves to start at `dFirst <= first`, copying front to back so the overlap is safe. Other slots are unchanged. |
| DynamicArray.Vector.constructor | advanced-vector/vector.h:88 | A new vector has no elements and capacity 0. |
| DynamicArray.Vector.Sized | advanced-vector/vector.h:90-95 | `Vector(n)` holds n copies of the value-initialised element, with capacity exactly n. |
| DynamicArray.Vector.Copy | advanced-vector/vector.h:97-106 | A copy has the source's elements, capacity equal to the source's size, and its own fresh storage. The source is unchanged. |
| DynamicArray.Vector.Move | advanced-vector/vector.h:107-111 | The new vector has the source's exact elements, capacity and block. The source is left with size 0, capacity 0 and a fresh empty block of its own, so it stays usable independently. |
| DynamicArray.Vector.Size | advanced-vector/vector.h:216-218 | Size is the number of live elements. |
| DynamicArray.Vector.Capacity | advanced-vector/vector.h:220-222 | Capacity is the block's slot count and is never below the size. |
| DynamicArray.Vector.At | advanced-vector/vector.h:228-231 | Indexing is defined for `index < size` and yields element `index`. |
| DynamicArray.Vector.Set | advanced-vector/vector.h:228-231 | A write through the reference replaces element `index` only. Capacity is unchanged. |
| DynamicArray.Vector.Reserve | advanced-vector/vector.h:233-248 | If `n <= capacity`, nothing happens and the block is kept. Otherwise the elements move unchanged to a fresh block of exactly n slots, and the size is kept. |
| DynamicArray.Vector.Resize | advanced-vector/vector.h:259-270 | Contents become `Resized(old, n, init)`. When growing, capacity becomes `max(capacity, n)` via Reserve. `n == size` changes nothing. The block is kept when `n <= capacity` and replaced by a fresh one when `n > capacity`. |
| DynamicArray.Vector.PushBack | advanced-vector/vector.h:272-311 | Contents become `old + [v]`. When full, capacity becomes 1 from 0 or `2*size` otherwise, in a fresh block. When not full, the block is kept. |
| DynamicArray.Vector.EmplaceBack | advanced-vector/vector.h:313-334 | Same effect as PushBack. Returns the position of the new last element, which holds v. |
| DynamicArray.Vector.PopBack | advanced-vector/vector.h:336-339 | On a non-empty vector, drops the last element. The block and capacity are kept. |
| DynamicArray.Vector.Emplace | advanced-vector/vector.h:136-174 | At `pos <= size`, contents become `old[..pos] + [v] + old[pos..]` and pos is returned. When full, capacity grows to 1 from 0 or `2*size` otherwise, in a fresh block. Otherwise the block is kept. |
| DynamicArray.Vector.InsertRelocating | advanced-vector/vector.h:142-165 | The full branch: a fresh block of `2*size` slots, holding the elements with v inserted at pos. |
| DynamicArray.Vector.InsertInPlace | advanced-vector/vector.h:166-173 | The branch with room: the same block, holding the elements with v inserted at pos. This includes pos == size (see Findings). |
| DynamicArray.Vector.Insert | advanced-vector/vector.h:182-187 | Insert is Emplace, with the same contents, capacity and returned position. |
| DynamicArray.Vector.Erase | advanced-vector/vector.h:175-181 | At `pos < size`, contents become `old[..pos] + old[pos+1..]`, pos is returned, and the same block and capacity are kept. |
| DynamicArray.Vector.Swap | advanced-vector/vector.h:250-253 | Exchanges contents, capacity and blocks with the other vector. Swapping with itself changes nothing. |
| DynamicArray.Vector.MoveAssign | advanced-vector/vector.h:211-214 | Move assignment is a swap: each vector ends with what the other held. Self move-assignment changes nothing. |
| DynamicArray.Vector.CopyAssign | advanced-vector/vector.h:189-210 | After copy assignment the contents equal rhs's, and rhs is unchanged. Capacity is kept, in the same block, when `rhs.size <= capacity`. Otherwise capacity becomes `rhs.size`, in a fresh block. Self-assignment changes nothing. |
| VectorModel.InsertAt | advanced-vector/vector.h:149-152 | After insertion, elements before pos are kept, v is at pos, and later elements are shifted one to the right. |
| VectorModel.RemoveAt | advanced-vector/vector.h:177 | After removal, elements before pos are kept and later elements are shifted one to the left. The length drops by one. |
| VectorModel.Resized | advanced-vector/vector.h:259-270 | The result has length n. The first `min(size, n)` elements are kept, and the positions `[size, n)` hold init. |
| VectorModel.GrowthCapacity | advanced-vector/vector.h:274 | The grown capacity always has room for one more element. |
| VectorModel.GrowthDoubles | advanced-vector/vector.h:273-274 | A full vector grows to `max(1, 2*size)` slots. |
| VectorModel.OperationsKeepValid | advanced-vector/vector.h:344-345 | Every operation keeps `size <= capacity`. |
| VectorModel.SizedIsDefault | advanced-vector/vector.h:90-95 | `Vector(n)` has size n, capacity n, and every element equal to the value-initialised one. |
| VectorModel.ReserveGuarantees | advanced-vector/vector.h:233-248 | Reserve is a no-op when `n <= capacity`. Otherwise capacity becomes exactly n. Capacity is at least n and never shrinks, the elements are unchanged, and Reserve is idempotent. |
| VectorModel.ResizeGuarantees | advanced-vector/vector.h:259-270 | After Resize the size is n and the prefix is kept. A grown tail holds init. Capacity becomes `max(capacity, n)` when growing and is unchanged otherwise. `n == size` is a no-op. |
| VectorModel.ResizeBackRestores | advanced-vector/vector.h:259-270 | Growing and then resizing back to the old size restores the original elements. |
| VectorModel.CopyAssignSelf | advanced-vector/vector.h:189-190 | Copy assignment to itself leaves the vector unchanged. |
| VectorModel.CopyAssignGuarantees | advanced-vector/vector.h:189-210 | After copy assignment the contents equal rhs's and capacity is `max(capacity, rhs.size)`. |
| VectorModel.RemoveAtInsertAt | advanced-vector/vector.h:136-181 | Removing at pos what was inserted at pos gives back the original sequence. |
| VectorModel.InsertAtRemoveAt | advanced-vector/vector.h:136-181 | Re-inserting a removed element at its position gives back the original sequence. |
| VectorModel.EraseUndoesInsert | advanced-vector/vector.h:136-181 | `Insert(pos, v)` then `Erase(pos)` restores the contents, and capacity does not shrink. |
| VectorModel.InsertUndoesErase | advanced-vector/vector.h:136-181 | `Erase(pos)` then re-inserting the erased element at pos restores the contents and the capacity. |
| VectorModel.PushBackIsInsertAtEnd | advanced-vector/vector.h:136-140 | Inserting at `end()` has the same effect as PushBack, on contents and on capacity. |
| VectorModel.PushAll | advanced-vector/vector.h:272-291 | Repeated PushBack appends all the values, keeps `size <= capacity`, and never lowers the capacity. |
| VectorModel.PopN | advanced-vector/vector.h:336-339 | PopBack k times drops the last k elements and keeps the capacity. |
| VectorModel.PushThenPopRestores | advanced-vector/vector.h:272-339 | Pushing any values and popping as many restores the contents. Capacity ends no lower than before. |
| VectorModel.PushBackKeepsTight | advanced-vector/vector.h:272-291 | A single PushBack preserves `Tight`: capacity 0 while empty, otherwise a power of two in `[size, 2*size)`. |
| VectorModel.PushAllKeepsTight | advanced-vector/vector.h:272-291 | The same tightness holds after any number of PushBacks. |
| VectorModel.PushesFromEmptyAreTight | advanced-vector/vector.h:272-291 | After n pushes into `Vector()` with n > 0, capacity is a power of two with `n <= capacity < 2n`. |
| AsWritten.EraseAsWritten | advanced-vector/vector.h:175-181 | The as-written Erase has a defined result only when its operator[] assertion holds. That result is the intended Erase. |
| AsWritten.EraseAsWrittenFailsExactlyOnFullTail | advanced-vector/vector.h:177 | The assertion fails exactly when erasing the last element of a full vector. |
| AsWritten.EraseAsWrittenCounterexample | advanced-vector/vector.h:177 | `PushBack(7)` into `Vector()` and then `Erase(0)` trips the assertion, although erasing is intended to give `[]`. |
| AsWritten.InPlaceEmplaceAsWritten | advanced-vector/vector.h:166-173 | The as-written in-place Emplace has a defined result only when its move_backward source is a range. That result is the intended insert. |
| AsWritten.InPlaceEmplaceAsWrittenFailsExactlyAtEnd | advanced-vector/vector.h:169 | The range is reversed exactly when inserting at `end()` of a non-empty vector that has room. |
| AsWritten.InPlaceEmplaceAsWrittenCounterexample | advanced-vector/vector.h:169 | `[1,2,3]` in four slots with `Insert(3, 4)` hands move_backward the reversed range `[3, 2)`, although the insert is intended to give `[1,2,3,4]`. |
| VectorScenarios.BasicScenario | advanced-vector/vector.h:136-339 | Push 1,2,3, insert 99 at 1, erase 1, resize to 5, pop twice. The contents are `[1,2,3]`, `[1,99,2,3]`, `[1,2,3]`, `[1,2,3,0,0]`, `[1,2,3]`, and the capacities 4, 4, 4, 5, 5. |
| VectorScenarios.CopyScenario | advanced-vector/vector.h:97-106 | A copy of `[7,8]` has capacity 2 and does not see a later push on its source. |
| VectorScenarios.MoveScenario | advanced-vector/vector.h:107-111 | Move construction leaves the source at size 0 and capacity 0, and the target holds `[5,6]` in 2 slots. Copy and move self-assignment keep `[5,6]`. |
| VectorScenarios.PushOneTwoThree | advanced-vector/vector.h:272-291 | Three pushes into `Vector()` give `[1,2,3]` in 4 slots (capacity 1, then 2, then 4). |
| VectorScenarios.MovedFromReuseScenario | advanced-vector/vector.h:107-111 | After move construction, a push into the moved-from vector gives it `[1]` and leaves the target holding `[5,6]`. |
| VectorScenarios.SwapScenario | advanced-vector/vector.h:211-214 | Move-assigning `[3]` into an empty vector leaves the source empty and the target holding `[3]`. |

## Left out

- Allocation and element lifetime are not modelled: `Allocate`, `Deallocate`,
  placement construction, `std::destroy_n` and the destructors. A slot is an
  array cell, and a cell outside `[0, size)` holds an arbitrary value. A missing
  block is a zero-length array.
- Exceptions and the strong failure guarantee are not modelled: Dafny has no
  exceptions, so a failing allocation or element constructor cannot be
  expressed. The growth paths still write the new element into the new block
  before moving the old elements, as the source does.
- The move-or-copy choice on type traits is not modelled: Dafny values are
  immutable, so both branches are the same single copy (`CopyN`), and a
  moved-from element keeps its value. The model therefore does not show the
  moved-from former last element that the in-place `Emplace` as written leaves
  at slot size - 1 when pos == size (vector.h:168, 170).
- The two `PushBack` overloads and the two `Insert` overloads are each one
  method. The arguments of `EmplaceBack` and `Emplace` are the finished value
  `v`.
- Iterators, `begin`/`end`/`cbegin`/`cend` and `GetAddress` are not modelled:
  positions are indices into the live elements, and iterator invalidation is not
  tracked. `Emplace` and `Erase` return the index of the iterator they return.
  `EmplaceBack` returns the index of the reference it returns.
- RawMemory move assignment is not a separate member: its effect is
  `RawMemory.Swap`. Its missing `return` is not modelled.
- `DestroyN`, `CopyConstruct` and `Destroy` are left out because nothing calls
  them. The `const` overloads of `operator+` and `operator[]`, which forward to
  the non-const ones, are left out too.
- `size_t` is an unbounded `nat`: the overflow of `size_ * 2` is not modelled.
- Exclusive ownership: `Swap`, `MoveAssign` and `CopyAssign` require that the
  other vector is this one or shares no object with it. Distinct C++ vectors
  never share storage.
- The preconditions `index < size`, `size > 0` for `PopBack`,
  `pos <= size` for `Emplace` and `pos < size` for `Erase` are the source's
  asserts or undefined behaviour, not error paths.

## Findings

| source | as written | input that shows it | evidently intended | confidence | as-written member | corrected member |
|---|---|---|---|---|---|---|
| advanced-vector/vector.h:177 | Erase forms the address of slot pos + 1 through `RawMemory::operator[]`, which asserts pos + 1 < capacity | `PushBack(7)` into `Vector()` (size 1, capacity 1), then `Erase(begin())` | form the address with `operator+`, which allows one past the end | high (debug builds abort), not executed | AsWritten.EraseAsWrittenCounterexample | DynamicArray.Vector.Erase |
| advanced-vector/vector.h:169 | the in-place branch of Emplace hands `std::move_backward` the source `[pos, size - 1)` even when pos == size, where it is not a range | `PushBack` 1, 2, 3 into `Vector()` (size 3, capacity 4), then `Insert(end(), 4)` | shift nothing when pos == size, giving `[1,2,3,4]` | undefined by the standard, since `[first, last)` must be a range; even if the library skips it, slot size - 1 keeps the moved-from former last element (vector.h:168, 170); not executed | AsWritten.InPlaceEmplaceAsWrittenCounterexample | DynamicArray.Vector.InsertInPlace |
