# gmf_memory_resource in Dafny

A model of `gmf_memory_resource`, the "general minimal-fragmentation"
`std::pmr::memory_resource` of the gmf-allocator repository, with proofs
about that model. The resource subdivides a caller-supplied address range
`[start, end)` into blocks (`entity` values, half-open ranges
`[front, back)`). It keeps three ordered indices:

- free blocks by byte count (a `std::multiset`);
- free blocks by front address (a `std::set`);
- occupied blocks by front address (a `std::set`).

`do_allocate(n)` is best fit. It takes the first free block of at least
`n` bytes in the size index. The first `n` bytes of that block become
occupied, and the rest of the block, if any, goes back to both free indices.
`do_deallocate(p)` ignores any address that is not the front of an occupied
block. Otherwise it merges the freed block with the free block that ends
where it starts and the free block that starts where it ends, and
re-inserts the merged block as free.

The project has three layers.

- **Values and indices.**
  - `Blocks` holds the entity and its predicates.
  - `SizeIndex` holds the by-size multiset, a sequence kept sorted by
    length. Equal lengths keep insertion order, as `std::multiset::insert`
    does.
  - `AddressIndex` holds the by-front sets, as maps from front address to
    block. It also holds the two neighbour searches of `do_deallocate`.
- **The transitions as functions on a `Pool` value** (`Allocator`). This
  module holds:
  - the constructor (`Init`);
  - `do_allocate` (`Allocate`);
  - `do_deallocate` exactly as written (`Deallocate`);
  - a corrected deallocation (`DeallocateExact`), see Findings.
- **The resource as an object** (`MemoryResource.Resource`). It has the
  five fields of the C++ class, which its methods update in place.
  - The constructor ends with the fields equal to `Init(start, end)`.
  - The move constructor and the move assignment leave this resource with
    the other's old fields, `old(other.Snapshot())`, and the other `Vacated`.
  - `Allocate` is tied to `Allocator.Allocate` by
    `Snapshot() == Allocator.Allocate(old(Snapshot()), n).pool`.
  - `Deallocate` is tied the same way to `Allocator.DeallocateExact`, the
    corrected deallocation of the Findings. It departs from lines 205 and
    211 as written; the as-written one stays in `Allocator.Deallocate`,
    with its properties and its counterexample.

The properties live in `Invariant` and `Freeing`, and concrete runs in
`Scenarios`. `Invariant.Consistent` is the state the allocator is designed
to keep:

- the two free indices hold the same blocks, each once;
- free and occupied blocks never share a front;
- all blocks together tile `[start, end)` without gap or overlap.

A null pointer is the address 0 and `nullptr` results are `None`. The
constructor's exceptions are the `InvalidArgument` result.

Two behaviours of the code are worth stating. The constructor accepts
`start == end` and builds one zero-length free block (lines 125-132), and
so does `Init`. The left-neighbour probe `get_preview_free` steps back one
entry whenever `lower_bound(p)` is not the first entry (lines 171-185), and
`AddressIndex.Preceding` models exactly that.

## Model

| member | source | states |
|---|---|---|
| `Blocks.MakeBlock` | source/gmf_memory_resource.h:33-37 | fails with `InvalidArgument` exactly when front > back; otherwise it has those bounds and spans back - front bytes |
| `Blocks.Bytes` | source/gmf_memory_resource.h:42-44 | `get_bytes_count`: the block is [front, front + r), so r is the number of bytes it spans |
| `Blocks.CloseLeft` | source/gmf_memory_resource.h:51-53 | `b.close_left(e)` holds iff `e.close_right(b)`, and then [e.front, b.back) spans the bytes of both |
| `Blocks.CloseRight` | source/gmf_memory_resource.h:60-62 | when `b.close_right(e)` holds, [b.front, e.back) is a block spanning the bytes of both |
| `Blocks.Offset` | source/gmf_memory_resource.h:228-230 | the result lies exactly `bytes` past `ptr` |
| `Blocks.AdjacencyJoins` | source/gmf_memory_resource.h:51-62 | `b.close_left(e)` holds iff `e.close_right(b)`; two adjacent blocks join into one valid block whose length is the sum of theirs |
| `SizeIndex.LowerBound` | source/gmf_memory_resource.h:140 | the result is the first position whose entry has at least `n` bytes; every earlier entry is shorter; `|s|` means end() |
| `SizeIndex.UpperBound` | source/gmf_memory_resource.h:249 | the first position whose entry is longer than `n` (where `multiset::insert` places an entry of length `n`) |
| `SizeIndex.EraseAt` | source/gmf_memory_resource.h:149 | erasing by iterator removes exactly the entry at that position; the other entries keep their order; the multiset loses one copy of it |
| `SizeIndex.Insert` | source/gmf_memory_resource.h:157 | the new entry goes after every entry of length <= its own; the others keep their order; the multiset gains one copy |
| `SizeIndex.InsertKeepsSorted` | source/gmf_memory_resource.h:235-237 | insertion keeps the index ordered by byte count |
| `SizeIndex.EraseLowerBound` | source/gmf_memory_resource.h:205 | `erase(lower_bound(e))` removes exactly one entry: the first at least as long as `e`, after entries that are all shorter. The others keep their order, and the multiset loses one copy of the removed entry. When every entry is shorter than `e`, nothing changes |
| `SizeIndex.EraseLowerBoundOfMember` | source/gmf_memory_resource.h:205 | in a sorted index that holds `e`, `erase(lower_bound(e))` removes one entry of exactly `e`'s length, the first one, which need not be `e` |
| `SizeIndex.EraseBlock` | source/gmf_memory_resource.h:205 | removal by identity: if `e` is present, exactly one copy of `e` goes; otherwise nothing changes |
| `SizeIndex.LowerBoundIsBestFit` | source/gmf_memory_resource.h:140 | in a sorted index, the entry `lower_bound(n)` finds is no longer than any entry of at least `n` bytes |
| `SizeIndex.LowerBoundOfMember` | source/gmf_memory_resource.h:205 | for a block in the index, `lower_bound` of its length finds an entry of exactly that length |
| `SizeIndex.FirstOfItsLength` | source/gmf_memory_resource.h:205 | `erase(lower_bound(e))` is removal of `e` when `e` is the entry that `lower_bound` finds |
| `SizeIndex.RemovesOnlyIfFirst` | source/gmf_memory_resource.h:205 | conversely, for `e` in the index, `erase(lower_bound(e))` is removal of `e` only when `e` is the entry that `lower_bound` finds |
| `SizeIndex.OnlyOfItsLength` | source/gmf_memory_resource.h:205 | an entry that no other entry matches in length is the one `lower_bound` finds |
| `AddressIndex.Insert` | source/gmf_memory_resource.h:158 | `std::set::insert` adds the block under its front unless that front is present, in which case the set is unchanged; keeps every entry at its own front |
| `AddressIndex.Erase` | source/gmf_memory_resource.h:150 | erase by key removes exactly that front and keeps the other entries |
| `AddressIndex.Preceding` | source/gmf_memory_resource.h:170-186 | `get_preview_free`: None iff every front exceeds p; otherwise the entry with the greatest front below p, or the entry at p when no front is below p |
| `AddressIndex.Next` | source/gmf_memory_resource.h:187-195 | `get_next_free`: None iff no front exceeds p; otherwise the entry with the least front above p |
| `Tiling.Partition` | source/gmf_memory_resource.h:249-260 | in a tiling of the pool, every address lies in exactly one block |
| `Allocator.Init` | source/gmf_memory_resource.h:125-132 | fails iff a bound is null or start > end; otherwise the whole pool is the one free block in both free indices and nothing is occupied |
| `Allocator.Allocate` | source/gmf_memory_resource.h:135-162 | fails iff n = 0 or no free entry holds n bytes, and then changes nothing; on success returns the front of the `lower_bound(n)` entry and adds exactly that address to the occupied keys; bounds never change |
| `Allocator.LeftAbsorbed` | source/gmf_memory_resource.h:197-205 | the left candidate is absorbed only if it ends where the freed block starts |
| `Allocator.RightAbsorbed` | source/gmf_memory_resource.h:198-211 | the right candidate is absorbed only if it starts where the freed block ends |
| `Allocator.Merged` | source/gmf_memory_resource.h:200-212 | the merged block covers the freed block, with its front moved only by a left absorption and its back moved only by a right one |
| `Allocator.FrontAfterAbsorb` | source/gmf_memory_resource.h:204-210 | the by-front index loses exactly the fronts of the absorbed neighbours |
| `Allocator.SizeAfterLeft` | source/gmf_memory_resource.h:197-205 | as written: with no left neighbour the size index is unchanged; otherwise it loses one copy of the first entry at least as long as the neighbour, which need not be the neighbour |
| `Allocator.SizeAfterAbsorb` | source/gmf_memory_resource.h:198-211 | as written: with no right neighbour the result is the index after the left step; otherwise it loses one copy of the first entry at least as long as the right neighbour |
| `Allocator.SizeAfterAbsorbExact` | source/gmf_memory_resource.h:197-211 | corrected: the size multiset loses exactly the absorbed neighbours, one copy each, and nothing else |
| `Allocator.Release` | source/gmf_memory_resource.h:214-217 | the occupied entry goes; the merged block joins the size multiset and, at a fresh front, the by-front index |
| `Allocator.Deallocate` | source/gmf_memory_resource.h:163-218 | `do_deallocate` as written: an address that is not an occupied front changes nothing; otherwise exactly that occupied entry goes; bounds never change |
| `Allocator.DeallocateExact` | source/gmf_memory_resource.h:163-218 | the corrected deallocation, with the same guarantees as `Deallocate` |
| `Allocator.AllocateWellFormed` | source/gmf_memory_resource.h:249-257 | `do_allocate` keeps the size index sorted and both address indices keyed by front |
| `Allocator.DeallocateWellFormed` | source/gmf_memory_resource.h:249-257 | `do_deallocate` as written keeps the three containers' own invariants |
| `Allocator.IsEqual` | source/gmf_memory_resource.h:219-221 | a resource never compares equal to another memory resource |
| `Invariant.InitConsistent` | source/gmf_memory_resource.h:125-132 | a freshly constructed resource is consistent |
| `Invariant.Partition` | source/gmf_memory_resource.h:249-260 | in a consistent state every pool address lies in exactly one block, and each block is free or occupied, never both |
| `Invariant.SizeEntryIsFree` | source/gmf_memory_resource.h:249-253 | every entry of the size index is the free block at its front and is not occupied |
| `Invariant.FreeBlockIsSized` | source/gmf_memory_resource.h:249-253 | every free block by front appears in the size index |
| `Invariant.AllocateChoosesFree` | source/gmf_memory_resource.h:140-147 | on success the chosen entry is a free, unoccupied block of at least n bytes, and its front is returned |
| `Invariant.AllocatePreserves` | source/gmf_memory_resource.h:135-162 | `do_allocate` keeps a consistent state consistent, whatever it is asked |
| `Invariant.AllocateIsBestFit` | source/gmf_memory_resource.h:140-146 | for n > 0, allocation fails iff no free block holds n bytes; otherwise it returns the front of a free block that holds n bytes and is no longer than any other free block that does |
| `Invariant.AllocateSplits` | source/gmf_memory_resource.h:146-159 | on success exactly [a, a + n) becomes occupied; the source block leaves the free set and is replaced by its remainder [a + n, back), or by nothing on an exact fit |
| `Freeing.LeftNeighbour` | source/gmf_memory_resource.h:197-205 | in a consistent state a left block is absorbed iff some free block ends at p, and then it is that block |
| `Freeing.RightNeighbour` | source/gmf_memory_resource.h:198-211 | a right block is absorbed iff a free block starts where the freed block ends, and then it is that block |
| `Freeing.DeallocateCoalesces` | source/gmf_memory_resource.h:200-217 | freeing merges with exactly the adjacent free blocks: the by-front index loses those and gains the merged block, no other free block changes, and the occupied index loses p |
| `Freeing.DeallocateExactPreserves` | source/gmf_memory_resource.h:163-218 | the corrected deallocation keeps a consistent state consistent, whatever it is asked to free |
| `Freeing.AgreesWhenExact` | source/gmf_memory_resource.h:205-211 | when each absorbed neighbour is the entry its `lower_bound` finds, the as-written deallocation equals the corrected one |
| `Freeing.DeallocatePreserves` | source/gmf_memory_resource.h:163-218 | under that condition, the as-written deallocation keeps a consistent state consistent; freeing a non-occupied address always does |
| `Freeing.ExactWhenUnique` | source/gmf_memory_resource.h:205-211 | free blocks of pairwise different lengths satisfy that condition |
| `Freeing.AllocateFresh` | source/gmf_memory_resource.h:135-162 | on a fresh resource, allocating 0 < n <= size bytes returns start, occupies exactly [start, start + n), and leaves [start + n, end) as the only free block, or no free block on an exact fit |
| `Freeing.ReleaseAlone` | source/gmf_memory_resource.h:163-218 | freeing the only occupied block [start, start + n) when the rest of the pool is one free block (or nothing) leaves the whole pool as the one free block and nothing occupied |
| `Freeing.RoundTrip` | source/gmf_memory_resource.h:125-218 | on a fresh resource, allocating n bytes (0 < n <= size) returns start, and freeing start restores the constructed state exactly |
| `Scenarios.DoubleHandOut` | source/gmf_memory_resource.h:205 | a concrete run on [100, 200) after which two allocations of 10 bytes both return 120, the second while [120, 130) is still occupied |
| `Scenarios.AsWrittenBreaksConsistency` | source/gmf_memory_resource.h:205-211 | in that run the state before the third free is consistent and the state after it is not |
| `Scenarios.CorrectedRun` | source/gmf_memory_resource.h:163-218 | with the corrected deallocation the same free leaves a consistent state, and the next two allocations return 100 and then 120 |
| `MemoryResource.Resource.Create` | source/gmf_memory_resource.h:125-132 | construction fails exactly as `Init` does; on success the fields hold the initial state and are consistent |
| `MemoryResource.Resource.Make` | source/gmf_memory_resource.h:131-132 | after the argument checks, the fields are one free block spanning the pool, in both free indices |
| `MemoryResource.Resource.MoveFrom` | source/gmf_memory_resource.h:92-105 | the new resource holds the other's former state; the other is left with null bounds and empty indices |
| `MemoryResource.Resource.MoveAssign` | source/gmf_memory_resource.h:107-122 | for another resource, this one takes its state and it is emptied; moving a resource into itself empties it |
| `MemoryResource.Resource.Allocate` | source/gmf_memory_resource.h:135-162 | the returned address and the new fields are those of `Allocator.Allocate` on the old fields; a consistent resource stays consistent |
| `MemoryResource.Resource.Deallocate` | source/gmf_memory_resource.h:163-218 | the new fields are those of `Allocator.DeallocateExact` on the old fields, the corrected deallocation of the Findings and not lines 205 and 211 as written; a consistent resource stays consistent whatever is freed |
| `MemoryResource.Resource.Absorb` | source/gmf_memory_resource.h:195-211 | after the two absorption steps the merged block is `Allocator.Merged` and the indices are those with exactly the absorbed neighbours removed (by identity from the size index) |

## Left out

- Alignment is left out. `do_allocate` and `do_deallocate` ignore their
  alignment argument, and `do_deallocate` ignores its size argument, so
  neither appears in the model.
- The `std::pmr` dispatch is left out: the public `allocate`,
  `deallocate` and `is_equal`, and the virtual calls behind them. The
  model has the private `do_*` operations directly.
- `source/main.cpp`, the demonstration driver, is not part of this model.
- Addresses are unbounded naturals, with 0 as null. `Blocks.Offset` does not
  model `size_t` wrap-around at 2^64, because a pool never extends past the
  end of the address space.
- The red-black trees behind `std::set` and `std::multiset` are left out.
  The indices are a sorted sequence and maps, with the same ordering, the
  same lookups and the same insert and erase results.
- `SizeIndex.EraseLowerBound`: when `lower_bound` returns `end()`, erasing it
  is undefined behaviour in C++. The model leaves the index unchanged. In a
  consistent state this case cannot arise, because an absorbed neighbour is
  always in the size index.
- Exceptions are the `InvalidArgument` result. The destructor releases
  nothing of the pool and is left out.
- Moving and copying a single `entity` (lines 16-29) are left out. Blocks
  are values. Every copy the resource makes is a copy of a live entity, and
  no moved-from entity is ever read.
- `imaginary_entity` (lines 70-83) is not a type of its own. A search by
  byte count is `SizeIndex.LowerBound(s, n)`, and a search by address is a
  lookup of the key in a map or a call to `AddressIndex.Preceding` or
  `AddressIndex.Next`.
- `MemoryResource.Resource.Deallocate` implements the corrected deallocation
  of the Findings, not lines 205 and 211 as written. Each absorbed neighbour
  leaves the size index by identity (`SizeIndex.EraseBlock`), whereas the
  C++ erases `lower_bound(neighbour)`. The two agree when each neighbour is
  the first entry of its length (`Freeing.AgreesWhenExact`). They differ in
  the run of `Scenarios.DoubleHandOut`. The as-written behaviour is modelled
  by `Allocator.Deallocate` and not by the class.
- `MemoryResource.Resource.Absorb` performs the two absorption steps of
  lines 195-211 with the same by-identity removal (`SizeIndex.EraseBlock`),
  not the `erase(lower_bound(neighbour))` of lines 205 and 211; it is the
  half of `Deallocate` where the corrected deallocation departs from the
  code.
- `MemoryResource.Resource.Allocate` computes the same result as
  `do_allocate` and writes the fields in the order the source does.
  `Deallocate` computes its new indices in locals (`Resource.Absorb`) and
  writes the two free indices once, after both absorptions, not inside each
  absorption branch. No other code runs in between, so the order of these
  writes is not observable.

## Findings

| source | as written | input that shows it | evidently intended | confidence | as-written member | corrected member |
|---|---|---|---|---|---|---|
| source/gmf_memory_resource.h:205-211 | an absorbed neighbour is removed from the size index with `erase(lower_bound(neighbour))`, which removes the first free block of the same length, not necessarily the neighbour | pool [100, 200): allocate 10, 10, 10 and 70 bytes; free 100, then 120, then 130. The size index drops [100, 110) and keeps [120, 130), which was absorbed. Allocating 10 bytes twice then returns 120 both times, the second while [120, 130) is occupied | the absorbed neighbour itself leaves the size index, so the two free indices stay in agreement | high (proved on the model; not executed) | `Scenarios.DoubleHandOut` | `Freeing.DeallocateExactPreserves` |
