# CompactVec, modelled in Dafny

A model of `CompactVec` from the `compact` library: a growable array whose
backing buffer is either *compact* (borrowed from an enclosing relocatable
region and never released by the vector) or *free* (heap storage the vector
owns and releases exactly once). Growing always spills the elements into fresh
free storage. The vector also implements the `Compact` contract: it reports
whether it is still entirely compact, how many bytes its out-of-line part
takes, and how to materialise itself into a destination region (`compact_from`).

The project has two modules:

- `CompactVecSpec` (`compact_vec_spec.dfy`) holds the value-level
  definitions. `Filter` is the meaning of `retain`. `KeptIndices` is an
  independent index view of it. `All` is `Iterator::all`. `Sum`, `Sizes`,
  `DynamicSize` and `Offsets` give the byte arithmetic of
  `dynamic_size_bytes` and the layout `compact_from` writes.
- `CompactVecs` (`compact_vec.dfy`) holds the classes.
  - `CompactVec<T>` keeps the Rust fields: `buf` (a Dafny `array<T>`), `len`,
    `cap`, and `isCompact` for the tag of `PointerToMaybeCompact`.
  - Its ghost `Contents` equals `buf[..len]`.
  - Its ghost counters `allocations` and `deallocations` count the calls made
    to the allocator.
  - `Valid()` is `len <= cap`, `cap == buf.Length` and
    `Contents == buf[..len]`.
  - `IntoIter<T>` is the consuming iterator, with its `index` cursor.
  - Client methods at the end derive the stack, insert/remove, round-trip,
    growth and retain scenarios from the contracts alone.

Modelling choices:

- Element `decompact()` and element `compact_from` are value-preserving
  copies.
- `size_of::<T>()` is a parameter `elemSize`.
- An element's `dynamic_size_bytes` is a parameter `dyn: T -> nat`.
- An element's `is_still_compact` is a parameter `elemStillCompact: T -> bool`.
- The allocator is fresh-array allocation plus the ghost counters. The
  counters count calls literally. `new` holds a null free pointer of capacity
  0, so its first growth counts one deallocation of that empty buffer.
- The Rust `Copy` specialisations are separate members, suffixed `Copy`.
  `IsStillCompactCopy` and `DynamicSizeBytesCopy` are tied by their `ensures`
  to the general member. `CompactFromCopy` and `CloneCopy` state their
  results directly. `CloneCopy` keeps the capacity `cap`, while `Clone` gives
  capacity `len`.

## Model

| member | source | states |
|---|---|---|
| CompactVecs.CompactVec.New | lib/compact/src/compact_vec.rs:33-40 | empty, capacity 0, free mode, no allocator call |
| CompactVecs.CompactVec.WithCapacity | lib/compact/src/compact_vec.rs:43-53 | empty, fresh free storage of exactly `capacity` slots, one allocation |
| CompactVecs.CompactVec.FromVec | lib/compact/src/compact_vec.rs:188-205 | adopts the given buffer itself (no copy) as free storage; contents are its first `length` slots, capacity its length |
| CompactVecs.CompactVec.Len | lib/compact/src/compact_vec.rs:23-25 | the length is the number of live elements |
| CompactVecs.CompactVec.IsEmpty | lib/compact/src/compact_vec.rs:28-30 | true exactly when there are no live elements |
| CompactVecs.CompactVec.DoubleBuf | lib/compact/src/compact_vec.rs:56-74 | capacity becomes 1 from 0 and doubles otherwise; elements kept in place and order in fresh free storage; one allocation; the old storage is deallocated only if it was free |
| CompactVecs.CompactVec.Push | lib/compact/src/compact_vec.rs:78-88 | contents become old contents plus the value; grows (as `DoubleBuf`) exactly when `len == cap`, leaving the old, possibly compact, buffer untouched; otherwise storage, mode and allocator calls are unchanged; `len <= cap` kept |
| CompactVecs.CompactVec.Pop | lib/compact/src/compact_vec.rs:91-100 | empty: `None` and nothing changes; otherwise `Some` of the last element and contents lose it; storage untouched |
| CompactVecs.CompactVec.Insert | lib/compact/src/compact_vec.rs:103-120 | for `index <= len`, contents become `old[..index] + [value] + old[index..]`; grows exactly when full, leaving the old, possibly compact, buffer untouched; otherwise storage is unchanged |
| CompactVecs.CompactVec.Remove | lib/compact/src/compact_vec.rs:123-146 | for `index < len` (otherwise a fatal assertion), returns `old[index]` and leaves `old[..index] + old[index+1..]`; same storage, capacity and mode |
| CompactVecs.CompactVec.Retain | lib/compact/src/compact_vec.rs:150-169 | contents become exactly the old elements `keep` accepts, in order; capacity, storage and mode unchanged |
| CompactVecs.CompactVec.RetainSlice | lib/compact/src/compact_vec.rs:151-164 | the swap loop leaves the filtered elements first in the slice, counts the rejected ones in `del`, and leaves those above them |
| CompactVecs.CompactVec.Truncate | lib/compact/src/compact_vec.rs:172-180 | no change when `desired >= len`; otherwise contents become `old[..desired]`; capacity and storage unchanged |
| CompactVecs.CompactVec.Clear | lib/compact/src/compact_vec.rs:183-185 | contents become empty; storage unchanged |
| CompactVecs.CompactVec.Extend | lib/compact/src/compact_vec.rs:392-398 | contents become old contents followed by the items; capacity never shrinks and free storage stays free; the old, possibly compact, buffer's live slots are left as they were |
| CompactVecs.CompactVec.FromIter | lib/compact/src/compact_vec.rs:381-390 | a fresh free vector holding exactly the items, in order, whatever the size hint |
| CompactVecs.CompactVec.Drop | lib/compact/src/compact_vec.rs:207-217 | destroys exactly the live elements; one deallocation if free, none if compact |
| CompactVecs.CompactVec.IsStillCompact | lib/compact/src/compact_vec.rs:309-311 | true exactly when the storage is compact and every live element is still compact |
| CompactVecs.CompactVec.IsStillCompactCopy | lib/compact/src/compact_vec.rs:348-350 | agrees with the general answer for elements that are always compact |
| CompactVecs.CompactVec.DynamicSizeBytes | lib/compact/src/compact_vec.rs:313-318 | at least the backing array; equal to where the last element's dynamic part ends in the `compact_from` layout (the backing array alone when empty) |
| CompactVecs.CompactVec.DynamicSizeBytesCopy | lib/compact/src/compact_vec.rs:352-354 | equals the general size with every element's dynamic part empty |
| CompactVecs.CompactVec.CompactFrom | lib/compact/src/compact_vec.rs:320-330 | takes `len`/`cap` and elements from the source, storage becomes the region in compact mode with no allocator call; element `i`'s dynamic part goes at `cap*elemSize + sum of sizes before i`, and the final offset equals the source's `dynamic_size_bytes` |
| CompactVecs.CompactVec.PlaceElements | lib/compact/src/compact_vec.rs:325-329 | the loop of `compact_from`: the region receives the source elements, and the running offsets are exactly the layout `Offsets` (each element after the sizes of those before it), ending at base plus the sum of all sizes |
| CompactVecs.CompactVec.CompactFromCopy | lib/compact/src/compact_vec.rs:356-361 | takes `len`/`cap` from the source, storage becomes the region in compact mode, the live elements are copied |
| CompactVecs.CompactVec.Decompact | lib/compact/src/compact_vec.rs:332-344 | same elements in free mode; compact storage is cloned into fresh storage, free storage is taken over without copying |
| CompactVecs.CompactVec.Clone | lib/compact/src/compact_vec.rs:364-368 | a fresh free vector with the same elements |
| CompactVecs.CompactVec.CloneCopy | lib/compact/src/compact_vec.rs:370-379 | a fresh free vector with the same elements and the same capacity, one allocation |
| CompactVecs.IntoIter.constructor | lib/compact/src/compact_vec.rs:277-287 | the iterator takes over the vector's buffer, capacity and mode (no copy), cursor at 0, remaining elements are the vector's contents |
| CompactVecs.IntoIter.Next | lib/compact/src/compact_vec.rs:244-253 | yields the element at the cursor and advances while elements remain, then `None` with nothing changed |
| CompactVecs.IntoIter.Drop | lib/compact/src/compact_vec.rs:255-271 | destroys exactly the elements not yet yielded; one deallocation if free, none if compact |
| CompactVecs.IntoIter.DropAsWritten | lib/compact/src/compact_vec.rs:255-271 | the drop as written: `drop_in_place` receives `&mut &[T]`, so no remaining element is destroyed, which differs from the elements not yet yielded whenever any remain; one deallocation if free, none if compact |
| CompactVecs.DropSliceAsWritten | lib/compact/src/compact_vec.rs:259-263 | the slice `IntoIter::drop` builds, as written: it starts at the cursor and ends `len` slots after it |
| CompactVecs.DropSliceAsWrittenOverruns | lib/compact/src/compact_vec.rs:259-263 | once the cursor is past 0, that slice ends `index` slots beyond the live elements |
| CompactVecs.DropSlice | lib/compact/src/compact_vec.rs:259-263 | the corrected slice starts at the cursor and ends exactly at the length |
| CompactVecSpec.KeptIndicesExact | lib/compact/src/compact_vec.rs:157-163 | the kept positions are in range, strictly increasing, and are exactly the accepted ones |
| CompactVecSpec.FilterAtKeptIndices | lib/compact/src/compact_vec.rs:157-163 | the k-th retained element is the element at the k-th kept position |
| CompactVecSpec.FilterKeepsAll | lib/compact/src/compact_vec.rs:150-169 | retaining with a predicate that accepts everything changes nothing |
| CompactVecSpec.FilterStep | lib/compact/src/compact_vec.rs:157-163 | one loop step: the filtered prefix grows by the element exactly when it is kept |
| CompactVecSpec.All | lib/compact/src/compact_vec.rs:310 | `Iterator::all` is true exactly when the predicate holds of every element |
| CompactVecSpec.SumPrefixBounded | lib/compact/src/compact_vec.rs:313-318 | the sizes of a prefix of the elements never exceed the sizes of all of them |
| CompactVecSpec.OffsetsContiguous | lib/compact/src/compact_vec.rs:325-329 | the first dynamic part starts right after the backing array, each one starts where the previous ends, and the last ends at the array plus the sum of sizes |
| CompactVecSpec.OffsetsWithinDynamicSize | lib/compact/src/compact_vec.rs:313-329 | every element's dynamic part lies after the backing array and inside the reported dynamic size |
| CompactVecSpec.NoDynamicPartsSize | lib/compact/src/compact_vec.rs:352-354 | with no element dynamic parts, the general size formula is just `cap * elemSize` |
| CompactVecs.PushThenPop | lib/compact/src/compact_vec.rs:78-100 | push then pop returns the pushed value and restores the contents |
| CompactVecs.InsertThenRemove | lib/compact/src/compact_vec.rs:103-146 | insert then remove at the same index returns the inserted value and restores the contents |
| CompactVecs.RoundTrip | lib/compact/src/compact_vec.rs:188-287 | adopting a Vec's buffer and draining the owning iterator yields exactly its elements, in order |
| CompactVecs.Materialize | lib/compact/src/compact_vec.rs:347-361 | for the `Copy` specialisation only (`CompactFromCopy`, `IsStillCompactCopy`): a vector materialised into a fresh region reports itself still compact and holds the source's elements and capacity |
| CompactVecs.InsertRemoveScenario | lib/compact/src/compact_vec.rs:78-146 | pushing 10, 20, 30, inserting 15 at 1 and removing at 2 returns 20 and leaves [10, 15, 30] |
| CompactVecs.GrowthScenario | lib/compact/src/compact_vec.rs:43-88 | three pushes into capacity 2 grow once, to 4, keep [1, 2, 3], and after the drop allocations equal deallocations |
| CompactVecs.RetainScenario | lib/compact/src/compact_vec.rs:150-169 | retaining the even values of [1, 2, 3, 4, 5] leaves [2, 4] |

## Findings

| source | as written | input that shows it | evidently intended | confidence | as-written member | corrected member |
|---|---|---|---|---|---|---|
| lib/compact/src/compact_vec.rs:259-263 | `IntoIter::drop` builds the slice of `self.len` elements starting at `self.index` and passes `&mut` of that `&[T]` to `drop_in_place`, so only the reference is dropped and no remaining element is destroyed | an iterator over 2 elements dropped after one `next()`: the slice built covers slots 1..3, past the 2 live slots, and the element in slot 1 is never destroyed | destroy the `len - index` elements not yet yielded | high (not executed) | CompactVecs.IntoIter.DropAsWritten, CompactVecs.DropSliceAsWritten, CompactVecs.DropSliceAsWrittenOverruns | CompactVecs.DropSlice, used by CompactVecs.IntoIter.Drop |

## Left out

- Raw memory operations (`ptr::read`, `ptr::write`, `offset`, `copy_nonoverlapping`, slices from raw parts in `Deref`/`DerefMut`) are array reads and writes. `copy_nonoverlapping` is a `forall` assignment over the live slots.
- Element destructors (`drop_in_place`) and their order are not modelled. `Truncate`, the two `Drop` methods and `IntoIter.DropAsWritten` only shrink `len` or name the elements they would destroy.
- `Allocator`, `DefaultHeap` and `PointerToMaybeCompact` are not part of this model. They appear only as fresh arrays, the `isCompact` flag and the ghost allocation counters.
- Recursive `decompact` and `compact_from` of nested element types, and the byte rewriting they do, are not modelled. Each is a value-preserving copy, and only the offset arithmetic is kept.
- Integer width: `usize` overflow of `cap * 2`, `cap * size_of` and the size sum is not modelled, because integers are unbounded here.
- `retain`'s `FnMut` predicate is a pure function `T -> bool`, so a predicate with its own state is not modelled.
- Aliasing after ownership transfer is not modelled. After `into_iter`, `From<Vec>` and the free-mode `decompact`, two objects share one `buf`, and the consumed or forgotten original still exists as a Dafny object.
- Nested compactness is not tracked. Element `compact_from` and `decompact` are value copies, and `elemStillCompact` is a fixed function of the value. So the model cannot show that `compact_from` leaves nested elements compact. Nor can it show that the element `decompact` calls in `double_buf`, `insert` and `remove` (lib/compact/src/compact_vec.rs:63, 114, 140) make them free. `IsStillCompact` after these operations therefore does not follow the Rust code when the elements are themselves `CompactVec`s.
- CompactVecs.CompactVec.Decompact: for `Copy` elements, Rust's specialisation makes the `self.clone()` at lib/compact/src/compact_vec.rs:334 the `Copy` clone, which keeps capacity `cap`. The model always takes the general `Clone`, which gives capacity `len`. The contract leaves the capacity open, so only the body differs.
- CompactVecs.CompactVec.Clone: the capacity of the Vec that `collect` builds is decided by the standard library. It is modelled as exactly the length.
- CompactVecs.CompactVec.Extend: the number of growths and the allocator calls across the pushes are not stated. Each push states them.
- Borrowed iterators (`&CompactVec` and `&mut CompactVec` `IntoIterator`), `Default`, `Debug` formatting, `PhantomData` and specialisation are not modelled, because they carry no behaviour beyond what is modelled.
