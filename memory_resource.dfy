/** `gmf_memory_resource` as an object: the two pool bounds and the three
    indices are fields that the constructor, `do_allocate`, `do_deallocate`
    and the two moves update in place. The constructor ends in `Init`'s
    state and the moves in the other resource's old state and `Vacated`.
    `Allocate` and `Deallocate` are tied to the pure transitions of module
    Allocator, whose properties are proved in modules Invariant and Freeing;
    `Deallocate` follows the corrected deallocation `DeallocateExact`. */
module MemoryResource {
  import opened Wrappers
  import opened Blocks
  import SizeIndex
  import AddressIndex
  import opened Allocator
  import Invariant
  import Freeing

  class Resource {
    var poolStart: nat                   // memory_pool_start_, 0 is null
    var poolEnd: nat                     // memory_pool_end_, 0 is null
    var freeByBytes: seq<Block>          // free_entity_pool_by_bytes_
    var freeByFront: map<nat, Block>     // free_entity_pool_by_front_
    var occupied: map<nat, Block>        // occupied_entity_pool_by_front_

    /** The fields as one value of the pure model. */
    function Snapshot(): Pool
      reads this
    {
      Pool(poolStart, poolEnd, freeByBytes, freeByFront, occupied)
    }

    /** The two free indices describe the same blocks, and together with the
        occupied index they tile the pool. */
    ghost predicate Valid()
      reads this
    {
      Invariant.Consistent(Snapshot())
    }

    /** The body of the checking constructor, once its arguments passed. */
    constructor Make(start: nat, end: nat)
      requires 0 < start <= end
      ensures Snapshot() == Init(start, end).value
    {
      poolStart := start;
      poolEnd := end;
      var whole: Block := Range(start, end);
      freeByBytes := SizeIndex.Insert([], whole);
      freeByFront := AddressIndex.Insert(map[], whole);
      occupied := map[];
    }

    /** `gmf_memory_resource(start, end)`: a null bound, or a start past the
        end (refused by `entity`'s checking constructor), is an invalid
        argument; otherwise the whole pool is one free block. */
    static method Create(start: nat, end: nat) returns (r: Result<Resource>)
      ensures r.InvalidArgument? <==> Init(start, end).InvalidArgument?
      ensures r.Ok? ==> fresh(r.value) && r.value.Snapshot() == Init(start, end).value
      ensures r.Ok? ==> r.value.Valid()
    {
      if start == 0 || end == 0 {
        return InvalidArgument;
      }
      var whole := MakeBlock(start, end);
      if whole.InvalidArgument? {
        return InvalidArgument;
      }
      var resource := new Resource.Make(start, end);
      Invariant.InitConsistent(start, end);
      return Ok(resource);
    }

    /** The move constructor: this resource takes over `other`'s pool and
        indices, and `other` is left with null bounds and empty indices. */
    constructor MoveFrom(other: Resource)
      modifies other
      ensures Snapshot() == old(other.Snapshot())
      ensures other.Snapshot() == Vacated
    {
      poolStart := other.poolStart;
      poolEnd := other.poolEnd;
      freeByFront := other.freeByFront;
      freeByBytes := other.freeByBytes;
      occupied := other.occupied;
      new;
      other.poolStart := 0;
      other.poolEnd := 0;
      other.freeByFront := map[];
      other.freeByBytes := [];
      other.occupied := map[];
    }

    /** The move assignment: the same transfer as the move constructor. It
        does not test for self-assignment, so `r = std::move(r)` empties
        `r`. */
    method MoveAssign(other: Resource)
      modifies this, other
      ensures other != this ==> Snapshot() == old(other.Snapshot())
      ensures other.Snapshot() == Vacated
      ensures other == this ==> Snapshot() == Vacated
    {
      poolStart := other.poolStart;
      poolEnd := other.poolEnd;
      freeByFront := other.freeByFront;
      freeByBytes := other.freeByBytes;
      occupied := other.occupied;
      other.poolStart := 0;
      other.poolEnd := 0;
      other.freeByFront := map[];
      other.freeByBytes := [];
      other.occupied := map[];
    }

    /** `do_allocate(n, _)`: the shortest free block of at least `n` bytes
        is taken; its first `n` bytes become occupied and what is left of
        it goes back to both free indices. */
    method Allocate(n: nat) returns (p: Option<nat>)
      modifies this
      ensures p == Allocator.Allocate(old(Snapshot()), n).address
      ensures Snapshot() == Allocator.Allocate(old(Snapshot()), n).pool
      ensures old(Valid()) ==> Valid()
    {
      ghost var before := Snapshot();
      if n == 0 {
        return None;
      }
      var i := SizeIndex.LowerBound(freeByBytes, n);
      if i == |freeByBytes| {
        return None;
      }
      var chosen := freeByBytes[i];
      var taken: Block := Range(chosen.front, Offset(chosen.front, n));
      ghost var t := Allocator.Allocate(before, n).pool;
      AllocateTakes(before, n, i);
      freeByBytes := SizeIndex.EraseAt(freeByBytes, i);
      freeByFront := AddressIndex.Erase(freeByFront, chosen.front);
      occupied := AddressIndex.Insert(occupied, taken);
      if Bytes(chosen) > n {
        var rest: Block := Range(taken.back, chosen.back);
        freeByBytes := SizeIndex.Insert(freeByBytes, rest);
        freeByFront := AddressIndex.Insert(freeByFront, rest);
        assert freeByBytes == t.bySize;
        assert freeByFront == t.byFront;
      } else {
        assert freeByBytes == t.bySize;
        assert freeByFront == t.byFront;
      }
      assert occupied == t.occupied;
      Invariant.AllocatePreserves(before, n);
      return Some(chosen.front);
    }

    /** `do_deallocate(p, _, _)`: an address that is not the front of an
        occupied block is ignored; otherwise the block is merged with the
        free blocks that touch it and the result is free. Each absorbed
        neighbour leaves the size index by identity; lines 205 and 211
        erase `lower_bound(neighbour)` instead, which can be another block
        of the same length (module Scenarios shows the run). */
    method Deallocate(p: nat)
      modifies this
      ensures Snapshot() == Allocator.DeallocateExact(old(Snapshot()), p)
      ensures old(Valid()) ==> Valid()
    {
      ghost var before := Snapshot();
      if p !in occupied {
        return;
      }
      var merged, bySize, byFront := Absorb(before, p, occupied[p], freeByBytes, freeByFront);
      ghost var after := Release(before, p, bySize);
      ReleaseFields(before, p, bySize);
      DeallocateExactReleases(before, p);
      occupied := AddressIndex.Erase(occupied, p);
      freeByFront := AddressIndex.Insert(byFront, merged);
      freeByBytes := SizeIndex.Insert(bySize, merged);
      assert occupied == after.occupied;
      assert freeByFront == after.byFront;
      assert freeByBytes == after.bySize;
      Freeing.DeallocateExactPreserves(before, p);
    }

    /** Lines 195-211 of `do_deallocate`: the freed block absorbs the free
        block just before it and the one just after it when they touch it;
        each absorbed neighbour leaves both free indices. */
    static method Absorb(ghost s: Pool, p: nat, freed: Block, bySize0: seq<Block>, byFront0: map<nat, Block>)
      returns (merged: Block, bySize: seq<Block>, byFront: map<nat, Block>)
      requires p in s.occupied && freed == s.occupied[p]
      requires bySize0 == s.bySize && byFront0 == s.byFront
      ensures merged == Merged(s, p)
      ensures bySize == SizeAfterAbsorbExact(s, p)
      ensures byFront == FrontAfterAbsorb(s, p)
    {
      var left := AddressIndex.Preceding(byFront0, p);
      var right := AddressIndex.Next(byFront0, p);
      ghost var l := LeftAbsorbed(s, p);
      ghost var r := RightAbsorbed(s, p);
      assert l.Some? <==> left.Some? && CloseLeft(freed, left.value);
      assert l.Some? ==> l == left;
      merged := freed;
      bySize := bySize0;
      byFront := byFront0;
      if left.Some? && CloseLeft(merged, left.value) {
        merged := Range(left.value.front, merged.back);
        byFront := AddressIndex.Erase(byFront, left.value.front);
        bySize := SizeIndex.EraseBlock(bySize, left.value);
      }
      assert byFront == if l.Some? then AddressIndex.Erase(s.byFront, l.value.front) else s.byFront;
      assert bySize == if l.Some? then SizeIndex.EraseBlock(s.bySize, l.value) else s.bySize;
      assert merged.front == Merged(s, p).front && merged.back == freed.back;
      assert r.Some? <==> right.Some? && CloseRight(merged, right.value);
      assert r.Some? ==> r == right;
      AbsorbRight(s, p, byFront, bySize);
      if right.Some? && CloseRight(merged, right.value) {
        merged := Range(merged.front, right.value.back);
        byFront := AddressIndex.Erase(byFront, right.value.front);
        bySize := SizeIndex.EraseBlock(bySize, right.value);
      }
    }
  }
}
