/** The state of a `gmf_memory_resource` as a value, and its operations as
    functions of that value: the constructor, `do_allocate` and
    `do_deallocate` exactly as written, plus a corrected deallocation that
    removes absorbed neighbours from the size index by identity. */
module Allocator {
  import opened Wrappers
  import opened Blocks
  import SizeIndex
  import AddressIndex

  /** The pool bounds and the three indices of one resource. */
  datatype Pool = Pool(
    start: nat,                      // memory_pool_start_, 0 is null
    end: nat,                        // memory_pool_end_, 0 is null
    bySize: seq<Block>,              // free_entity_pool_by_bytes_
    byFront: map<nat, Block>,        // free_entity_pool_by_front_
    occupied: map<nat, Block>        // occupied_entity_pool_by_front_
  )

  /** What `do_allocate` leaves behind and what it returns (None is nullptr). */
  datatype Allocation = Allocation(pool: Pool, address: Option<nat>)

  /** The state of a moved-from resource: null bounds, empty indices. */
  const Vacated := Pool(0, 0, [], map[], map[])

  /** The containers' own invariants, which hold in every reachable state
      whatever the allocator does with them. */
  ghost predicate WellFormed(s: Pool)
  {
    SizeIndex.Sorted(s.bySize) && AddressIndex.KeyedByFront(s.byFront)
    && AddressIndex.KeyedByFront(s.occupied)
  }

  /** The constructor `gmf_memory_resource(start, end)`. */
  function Init(start: nat, end: nat): (r: Result<Pool>)
    ensures r.InvalidArgument? <==> start == 0 || end == 0 || start > end
    ensures r.Ok? ==> var whole := Range(start, end);
      r.value == Pool(start, end, [whole], map[start := whole], map[])
  {
    if start == 0 || end == 0 then InvalidArgument
    else match MakeBlock(start, end)
      case InvalidArgument => InvalidArgument
      case Ok(whole) =>
        Ok(Pool(start, end, SizeIndex.Insert([], whole), AddressIndex.Insert(map[], whole), map[]))
  }

  /** `do_allocate(n)`: best fit through `lower_bound`, then split. */
  function Allocate(s: Pool, n: nat): (r: Allocation)
    ensures r.address.None? <==> n == 0 || forall b :: b in s.bySize ==> Bytes(b) < n
    ensures r.address.None? ==> r.pool == s
    ensures r.address.Some? ==> var i := SizeIndex.LowerBound(s.bySize, n);
      i < |s.bySize| && r.address.value == s.bySize[i].front
      && (forall j :: 0 <= j < i ==> Bytes(s.bySize[j]) < n)
    ensures r.pool.start == s.start && r.pool.end == s.end
    ensures r.address.Some? ==>
      r.pool.occupied.Keys == s.occupied.Keys + {r.address.value}
  {
    if n == 0 then Allocation(s, None)
    else
      var i := SizeIndex.LowerBound(s.bySize, n);
      if i == |s.bySize| then Allocation(s, None)
      else
        var chosen := s.bySize[i];
        var taken := Range(chosen.front, Offset(chosen.front, n));
        var bySize := SizeIndex.EraseAt(s.bySize, i);
        var byFront := AddressIndex.Erase(s.byFront, chosen.front);
        var occupied := AddressIndex.Insert(s.occupied, taken);
        if Bytes(chosen) > n then
          var rest := Range(taken.back, chosen.back);
          Allocation(Pool(s.start, s.end, SizeIndex.Insert(bySize, rest),
                          AddressIndex.Insert(byFront, rest), occupied), Some(chosen.front))
        else
          Allocation(Pool(s.start, s.end, bySize, byFront, occupied), Some(chosen.front))
  }

  /** The successful path of `do_allocate`, field by field, for the index
      `i` that `lower_bound` returns. */
  lemma AllocateTakes(s: Pool, n: nat, i: nat)
    requires 0 < n && i == SizeIndex.LowerBound(s.bySize, n) && i < |s.bySize|
    ensures var c := s.bySize[i]; var taken: Block := Range(c.front, Offset(c.front, n));
      var t := Allocate(s, n).pool;
      && Allocate(s, n).address == Some(c.front)
      && t.start == s.start && t.end == s.end
      && t.occupied == AddressIndex.Insert(s.occupied, taken)
      && (Bytes(c) > n ==> var rest: Block := Range(taken.back, c.back);
           && t.bySize == SizeIndex.Insert(SizeIndex.EraseAt(s.bySize, i), rest)
           && t.byFront == AddressIndex.Insert(AddressIndex.Erase(s.byFront, c.front), rest))
      && (Bytes(c) <= n ==>
           && t.bySize == SizeIndex.EraseAt(s.bySize, i)
           && t.byFront == AddressIndex.Erase(s.byFront, c.front))
  {
  }

  /** The left free candidate of line 197 if it passes `close_left`. */
  function LeftAbsorbed(s: Pool, p: nat): (r: Option<Block>)
    requires p in s.occupied
    ensures r.Some? ==> r.value.back == s.occupied[p].front
    ensures r.Some? ==> r == AddressIndex.Preceding(s.byFront, p)
  {
    var left := AddressIndex.Preceding(s.byFront, p);
    if left.Some? && CloseLeft(s.occupied[p], left.value) then left else None
  }

  /** The right free candidate of line 198 if it passes `close_right`. */
  function RightAbsorbed(s: Pool, p: nat): (r: Option<Block>)
    requires p in s.occupied
    ensures r.Some? ==> r.value.front == s.occupied[p].back
    ensures r.Some? ==> r == AddressIndex.Next(s.byFront, p)
  {
    var right := AddressIndex.Next(s.byFront, p);
    if right.Some? && CloseRight(s.occupied[p], right.value) then right else None
  }

  /** `new_free_entity` after both absorptions: the freed block stretched to
      the front of an absorbed left neighbour and the back of an absorbed
      right one. */
  function Merged(s: Pool, p: nat): (r: Block)
    requires p in s.occupied
    ensures r.front <= s.occupied[p].front && s.occupied[p].back <= r.back
    ensures LeftAbsorbed(s, p).None? ==> r.front == s.occupied[p].front
    ensures RightAbsorbed(s, p).None? ==> r.back == s.occupied[p].back
  {
    var freed := s.occupied[p];
    var left := LeftAbsorbed(s, p);
    var right := RightAbsorbed(s, p);
    Range(if left.Some? then left.value.front else freed.front,
          if right.Some? then right.value.back else freed.back)
  }

  /** The by-front index once the absorbed neighbours are erased (lines 204
      and 210; these erasures are by key, hence exact). */
  function FrontAfterAbsorb(s: Pool, p: nat): (r: map<nat, Block>)
    requires p in s.occupied
    ensures LeftAbsorbed(s, p).None? && RightAbsorbed(s, p).None? ==> r == s.byFront
    ensures r.Keys == s.byFront.Keys
      - (if LeftAbsorbed(s, p).Some? then {LeftAbsorbed(s, p).value.front} else {})
      - (if RightAbsorbed(s, p).Some? then {RightAbsorbed(s, p).value.front} else {})
  {
    var left := LeftAbsorbed(s, p);
    var right := RightAbsorbed(s, p);
    var byFront := if left.Some? then AddressIndex.Erase(s.byFront, left.value.front) else s.byFront;
    if right.Some? then AddressIndex.Erase(byFront, right.value.front) else byFront
  }

  /** The by-size index after line 205 (`erase(lower_bound(left))`). */
  function SizeAfterLeft(s: Pool, p: nat): (r: seq<Block>)
    requires p in s.occupied
    ensures LeftAbsorbed(s, p).None? ==> r == s.bySize
    ensures var left := LeftAbsorbed(s, p);
      left.Some? && SizeIndex.LowerBound(s.bySize, Bytes(left.value)) < |s.bySize| ==>
        var i := SizeIndex.LowerBound(s.bySize, Bytes(left.value));
        && Bytes(s.bySize[i]) >= Bytes(left.value)
        && multiset(r) == multiset(s.bySize) - multiset{s.bySize[i]}
  {
    var left := LeftAbsorbed(s, p);
    if left.Some? then SizeIndex.EraseLowerBound(s.bySize, left.value) else s.bySize
  }

  /** The by-size index after line 211 (`erase(lower_bound(right))`). */
  function SizeAfterAbsorb(s: Pool, p: nat): (r: seq<Block>)
    requires p in s.occupied
    ensures LeftAbsorbed(s, p).None? && RightAbsorbed(s, p).None? ==> r == s.bySize
    ensures RightAbsorbed(s, p).None? ==> r == SizeAfterLeft(s, p)
    ensures var right := RightAbsorbed(s, p); var m := SizeAfterLeft(s, p);
      right.Some? && SizeIndex.LowerBound(m, Bytes(right.value)) < |m| ==>
        var i := SizeIndex.LowerBound(m, Bytes(right.value));
        && Bytes(m[i]) >= Bytes(right.value)
        && multiset(r) == multiset(m) - multiset{m[i]}
  {
    var right := RightAbsorbed(s, p);
    var bySize := SizeAfterLeft(s, p);
    if right.Some? then SizeIndex.EraseLowerBound(bySize, right.value) else bySize
  }

  /** The by-size index when each absorbed neighbour is removed by identity. */
  function SizeAfterAbsorbExact(s: Pool, p: nat): (r: seq<Block>)
    requires p in s.occupied
    ensures LeftAbsorbed(s, p).None? && RightAbsorbed(s, p).None? ==> r == s.bySize
    ensures var left := LeftAbsorbed(s, p); var right := RightAbsorbed(s, p);
      multiset(r) == multiset(s.bySize)
        - (if left.Some? then multiset{left.value} else multiset{})
        - (if right.Some? then multiset{right.value} else multiset{})
  {
    var left := LeftAbsorbed(s, p);
    var right := RightAbsorbed(s, p);
    var bySize := if left.Some? then SizeIndex.EraseBlock(s.bySize, left.value) else s.bySize;
    if right.Some? then SizeIndex.EraseBlock(bySize, right.value) else bySize
  }

  /** Lines 214-217: the occupied entry goes, the merged block is inserted
      into both free indices (`bySize` is the size index after absorption). */
  function Release(s: Pool, p: nat, bySize: seq<Block>): (r: Pool)
    requires p in s.occupied
    ensures r.start == s.start && r.end == s.end
    ensures r.occupied == s.occupied - {p}
    ensures multiset(r.bySize) == multiset(bySize) + multiset{Merged(s, p)}
    ensures Merged(s, p).front !in FrontAfterAbsorb(s, p) ==>
      r.byFront == FrontAfterAbsorb(s, p)[Merged(s, p).front := Merged(s, p)]
  {
    var merged := Merged(s, p);
    Pool(s.start, s.end, SizeIndex.Insert(bySize, merged),
         AddressIndex.Insert(FrontAfterAbsorb(s, p), merged),
         AddressIndex.Erase(s.occupied, p))
  }

  /** The three indices `Release` produces, stated by the steps that build
      them. */
  lemma ReleaseFields(s: Pool, p: nat, bySize: seq<Block>)
    requires p in s.occupied
    ensures var r := Release(s, p, bySize);
      && r.bySize == SizeIndex.Insert(bySize, Merged(s, p))
      && r.byFront == AddressIndex.Insert(FrontAfterAbsorb(s, p), Merged(s, p))
      && r.occupied == AddressIndex.Erase(s.occupied, p)
  {
  }

  /** `do_deallocate(p, _)` as written. The size argument plays no part. */
  function Deallocate(s: Pool, p: nat): (r: Pool)
    ensures p !in s.occupied ==> r == s
    ensures p in s.occupied ==> r.occupied == s.occupied - {p}
    ensures r.start == s.start && r.end == s.end
  {
    if p !in s.occupied then s else Release(s, p, SizeAfterAbsorb(s, p))
  }

  /** Deallocation as evidently intended: absorbed neighbours leave the size
      index by identity, not as "the first entry at least as long". */
  function DeallocateExact(s: Pool, p: nat): (r: Pool)
    ensures p !in s.occupied ==> r == s
    ensures p in s.occupied ==> r.occupied == s.occupied - {p}
    ensures r.start == s.start && r.end == s.end
  {
    if p !in s.occupied then s else Release(s, p, SizeAfterAbsorbExact(s, p))
  }

  /** Both free indices after absorption, in one step from the indices after
      the left neighbour has been absorbed. */
  lemma AbsorbRight(s: Pool, p: nat, byFront: map<nat, Block>, bySize: seq<Block>)
    requires p in s.occupied
    requires var l := LeftAbsorbed(s, p);
      byFront == if l.Some? then AddressIndex.Erase(s.byFront, l.value.front) else s.byFront
    requires var l := LeftAbsorbed(s, p);
      bySize == if l.Some? then SizeIndex.EraseBlock(s.bySize, l.value) else s.bySize
    ensures var r := RightAbsorbed(s, p);
      && FrontAfterAbsorb(s, p) == (if r.Some? then AddressIndex.Erase(byFront, r.value.front) else byFront)
      && SizeAfterAbsorbExact(s, p) == (if r.Some? then SizeIndex.EraseBlock(bySize, r.value) else bySize)
  {
  }

  /** Freeing an occupied block is its release with the neighbours removed
      from the size index by identity. */
  lemma DeallocateExactReleases(s: Pool, p: nat)
    requires p in s.occupied
    ensures DeallocateExact(s, p) == Release(s, p, SizeAfterAbsorbExact(s, p))
  {
  }

  /** The containers' own invariants hold after every operation. */
  lemma AllocateWellFormed(s: Pool, n: nat)
    requires WellFormed(s)
    ensures WellFormed(Allocate(s, n).pool)
  {
    var i := SizeIndex.LowerBound(s.bySize, n);
    if n != 0 && i < |s.bySize| {
      var chosen := s.bySize[i];
      SizeIndex.EraseAtKeepsSorted(s.bySize, i);
      if Bytes(chosen) > n {
        SizeIndex.InsertKeepsSorted(SizeIndex.EraseAt(s.bySize, i), Range(Offset(chosen.front, n), chosen.back));
      }
    }
  }

  lemma ReleaseWellFormed(s: Pool, p: nat, bySize: seq<Block>)
    requires p in s.occupied && WellFormed(s) && SizeIndex.Sorted(bySize)
    ensures WellFormed(Release(s, p, bySize))
  {
    SizeIndex.InsertKeepsSorted(bySize, Merged(s, p));
  }

  lemma DeallocateWellFormed(s: Pool, p: nat)
    requires WellFormed(s)
    ensures WellFormed(Deallocate(s, p))
  {
    if p in s.occupied {
      var left := LeftAbsorbed(s, p);
      var right := RightAbsorbed(s, p);
      if left.Some? {
        SizeIndex.EraseLowerBoundKeepsSorted(s.bySize, left.value);
      }
      if right.Some? {
        SizeIndex.EraseLowerBoundKeepsSorted(SizeAfterLeft(s, p), right.value);
      }
      ReleaseWellFormed(s, p, SizeAfterAbsorb(s, p));
    }
  }

  lemma DeallocateExactWellFormed(s: Pool, p: nat)
    requires WellFormed(s)
    ensures WellFormed(DeallocateExact(s, p))
  {
    if p in s.occupied {
      var left := LeftAbsorbed(s, p);
      var right := RightAbsorbed(s, p);
      var bySize := if left.Some? then SizeIndex.EraseBlock(s.bySize, left.value) else s.bySize;
      if left.Some? {
        SizeIndex.EraseBlockKeepsSorted(s.bySize, left.value);
      }
      if right.Some? {
        SizeIndex.EraseBlockKeepsSorted(bySize, right.value);
      }
      ReleaseWellFormed(s, p, SizeAfterAbsorbExact(s, p));
    }
  }

  /** `do_is_equal`: a resource is never interchangeable with another one. */
  function IsEqual(s: Pool, other: Pool): (r: bool)
    ensures !r
  {
    false
  }
}
