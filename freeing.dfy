/** What `do_deallocate` does to a consistent state. It merges the freed
    block with exactly the free blocks that touch it. The corrected
    deallocation keeps the state consistent. The one as written does too,
    whenever each absorbed neighbour is the entry `lower_bound` finds. */
module Freeing {
  import opened Wrappers
  import opened Blocks
  import SizeIndex
  import AddressIndex
  import opened Tiling
  import opened Allocator
  import opened Invariant

  /** The fronts of the absorbed neighbours. */
  function Gone(l: Option<Block>, r: Option<Block>): set<nat>
  {
    (if l.Some? then {l.value.front} else {}) + (if r.Some? then {r.value.front} else {})
  }

  /** The absorbed neighbours themselves. */
  function GoneBlocks(l: Option<Block>, r: Option<Block>): multiset<Block>
  {
    (if l.Some? then multiset{l.value} else multiset{})
    + (if r.Some? then multiset{r.value} else multiset{})
  }

  /** An occupied block starts at its key, is non-empty and lies in the pool. */
  lemma OccupiedFacts(s: Pool, p: nat)
    requires Consistent(s) && p in s.occupied
    ensures AllBlocks(s)[p] == s.occupied[p] && p !in s.byFront
    ensures s.occupied[p].front == p && s.start <= p < s.occupied[p].back <= s.end
  {
    assert AllBlocks(s)[p] == s.occupied[p];
  }

  /** A free block is the block of the tiling at its front. */
  lemma FreeFacts(s: Pool, k: nat)
    requires Consistent(s) && k in s.byFront
    ensures AllBlocks(s)[k] == s.byFront[k] && k !in s.occupied && s.byFront[k].front == k
  {
  }

  /** A free block ending at p is the left neighbour that `do_deallocate(p)`
      absorbs. */
  lemma LeftOf(s: Pool, p: nat, k: nat)
    requires Consistent(s) && p in s.occupied
    requires k in s.byFront && s.byFront[k].back == p
    ensures k < p && LeftAbsorbed(s, p) == Some(s.byFront[k])
  {
    OccupiedFacts(s, p);
    FreeFacts(s, k);
    var left := AddressIndex.Preceding(s.byFront, p);
    assert left.Some?;
    var l := left.value;
    FreeFacts(s, l.front);
    assert k != p && l.front != p;
    assert k <= l.front <= p;
    assert AllBlocks(s)[k].back <= l.front || l.front <= k;
    assert l.front == k && l == s.byFront[k];
    assert CloseLeft(s.occupied[p], l);
  }

  /** The left neighbour absorbed is exactly the free block ending at p. */
  lemma LeftNeighbour(s: Pool, p: nat)
    requires Consistent(s) && p in s.occupied
    ensures LeftAbsorbed(s, p).Some? <==> exists k :: k in s.byFront && s.byFront[k].back == p
    ensures LeftAbsorbed(s, p).Some? ==> var l := LeftAbsorbed(s, p).value;
      && l.front in s.byFront && s.byFront[l.front] == l && l.back == p && l.front < p
  {
    OccupiedFacts(s, p);
    forall k | k in s.byFront && s.byFront[k].back == p
      ensures LeftAbsorbed(s, p).Some?
    {
      LeftOf(s, p, k);
    }
    if LeftAbsorbed(s, p).Some? {
      var l := LeftAbsorbed(s, p).value;
      LeftOf(s, p, l.front);
    }
  }

  /** The right neighbour absorbed is exactly the free block starting where
      the freed block ends. */
  lemma RightNeighbour(s: Pool, p: nat)
    requires Consistent(s) && p in s.occupied
    ensures RightAbsorbed(s, p).Some? <==> s.occupied[p].back in s.byFront
    ensures RightAbsorbed(s, p).Some? ==>
      RightAbsorbed(s, p).value == s.byFront[s.occupied[p].back]
  {
    OccupiedFacts(s, p);
    var b := s.occupied[p].back;
    if b in s.byFront {
      var right := AddressIndex.Next(s.byFront, p);
      assert right.Some?;
      var r := right.value;
      FreeFacts(s, r.front);
      assert AllBlocks(s)[p].back <= r.front;
    }
  }

  /** Freeing an occupied block that touches no free block. */
  lemma MergeNone(f: map<nat, Block>, o: map<nat, Block>, p: nat, start: nat, end: nat)
    requires Tiles(f + o, start, end) && f.Keys !! o.Keys && p in o && o[p].front == p
    ensures var m := Range(p, o[p].back);
      Tiles(f[p := m] + (o - {p}), start, end) && f[p := m].Keys !! (o - {p}).Keys
  {
    assert f[p := Range(p, o[p].back)] + (o - {p}) == f + o;
  }

  lemma LeftMaps(f: map<nat, Block>, o: map<nat, Block>, p: nat, l: nat, m: Block)
    requires f.Keys !! o.Keys && p in o && l in f
    ensures (f - {l})[l := m] + (o - {p}) == ((f + o) - {p})[l := m]
    ensures (f - {l})[l := m].Keys !! (o - {p}).Keys
  {
  }

  lemma RightMaps(f: map<nat, Block>, o: map<nat, Block>, p: nat, r: nat, m: Block)
    requires f.Keys !! o.Keys && p in o && r in f
    ensures (f - {r})[p := m] + (o - {p}) == ((f + o) - {r})[p := m]
    ensures (f - {r})[p := m].Keys !! (o - {p}).Keys
  {
  }

  lemma BothMaps(f: map<nat, Block>, o: map<nat, Block>, p: nat, l: nat, r: nat, m: Block)
    requires f.Keys !! o.Keys && p in o && l in f && r in f && l != r
    ensures (f - {l, r})[l := m] + (o - {p}) == ((f + o) - {p, r})[l := m]
    ensures (f - {l, r})[l := m].Keys !! (o - {p}).Keys
  {
  }

  /** Freeing an occupied block and joining it to the free block l before it. */
  lemma MergeLeft(f: map<nat, Block>, o: map<nat, Block>, p: nat, l: Block, start: nat, end: nat)
    requires Tiles(f + o, start, end) && f.Keys !! o.Keys && p in o && o[p].front == p
    requires l.front in f && f[l.front] == l && l.back == p && l.front < p
    ensures var m := Range(l.front, o[p].back);
      Tiles((f - {l.front})[l.front := m] + (o - {p}), start, end)
      && (f - {l.front})[l.front := m].Keys !! (o - {p}).Keys
  {
    var a := f + o;
    assert a[l.front] == l && a[p] == o[p];
    Tiling.Join(a, start, end, l.front, p);
    LeftMaps(f, o, p, l.front, Range(l.front, o[p].back));
  }

  /** Freeing an occupied block and joining the free block r after it. */
  lemma MergeRight(f: map<nat, Block>, o: map<nat, Block>, p: nat, r: Block, start: nat, end: nat)
    requires Tiles(f + o, start, end) && f.Keys !! o.Keys && p in o && o[p].front == p
    requires p < o[p].back && r.front in f && f[r.front] == r && r.front == o[p].back
    ensures var m := Range(p, r.back);
      Tiles((f - {r.front})[p := m] + (o - {p}), start, end)
      && (f - {r.front})[p := m].Keys !! (o - {p}).Keys
  {
    var a := f + o;
    assert a[r.front] == r && a[p] == o[p];
    Tiling.Join(a, start, end, p, r.front);
    RightMaps(f, o, p, r.front, Range(p, r.back));
  }

  /** Freeing an occupied block between two free neighbours. */
  lemma MergeBoth(f: map<nat, Block>, o: map<nat, Block>, p: nat, l: Block, r: Block,
                  start: nat, end: nat)
    requires Tiles(f + o, start, end) && f.Keys !! o.Keys && p in o && o[p].front == p
    requires l.front in f && f[l.front] == l && l.back == p && l.front < p
    requires p < o[p].back && r.front in f && f[r.front] == r && r.front == o[p].back
    ensures var m := Range(l.front, r.back);
      Tiles((f - {l.front, r.front})[l.front := m] + (o - {p}), start, end)
      && (f - {l.front, r.front})[l.front := m].Keys !! (o - {p}).Keys
  {
    var a := f + o;
    assert a[l.front] == l && a[p] == o[p] && a[r.front] == r;
    Tiling.JoinThree(a, start, end, l.front, p, r.front);
    BothMaps(f, o, p, l.front, r.front, Range(l.front, r.back));
  }

  /** Replacing the freed block and its absorbed neighbours by the merged
      block keeps free and occupied blocks tiling the pool. */
  lemma MergeTiles(f: map<nat, Block>, o: map<nat, Block>, p: nat,
                   l: Option<Block>, r: Option<Block>, m: Block, start: nat, end: nat)
    requires Tiles(f + o, start, end) && f.Keys !! o.Keys && p in o && o[p].front == p
    requires p < o[p].back
    requires l.Some? ==>
      l.value.front in f && f[l.value.front] == l.value && l.value.back == p && l.value.front < p
    requires r.Some? ==>
      r.value.front in f && f[r.value.front] == r.value && r.value.front == o[p].back
    requires m == Range(if l.Some? then l.value.front else p,
                        if r.Some? then r.value.back else o[p].back)
    ensures Tiles((f - Gone(l, r))[m.front := m] + (o - {p}), start, end)
    ensures (f - Gone(l, r))[m.front := m].Keys !! (o - {p}).Keys
  {
    if l.Some? && r.Some? {
      assert Gone(l, r) == {l.value.front, r.value.front};
      MergeBoth(f, o, p, l.value, r.value, start, end);
    } else if l.Some? {
      assert Gone(l, r) == {l.value.front};
      MergeLeft(f, o, p, l.value, start, end);
    } else if r.Some? {
      assert Gone(l, r) == {r.value.front};
      MergeRight(f, o, p, r.value, start, end);
    } else {
      assert f - Gone(l, r) == f;
      MergeNone(f, o, p, start, end);
    }
  }

  lemma SameBlocksRemove(free: multiset<Block>, f: map<nat, Block>, c: Block)
    requires SameBlocks(free, f) && c.front in f && f[c.front] == c
    ensures SameBlocks(free - multiset{c}, f - {c.front})
  {
    forall b: Block ensures (free - multiset{c})[b] ==
      if b.front in f - {c.front} && (f - {c.front})[b.front] == b then 1 else 0
    {
      assert free[b] == if b.front in f && f[b.front] == b then 1 else 0;
    }
  }

  lemma SameBlocksAdd(free: multiset<Block>, f: map<nat, Block>, c: Block)
    requires SameBlocks(free, f) && c.front !in f
    ensures SameBlocks(free + multiset{c}, f[c.front := c])
  {
    forall b: Block ensures (free + multiset{c})[b] ==
      if b.front in f[c.front := c] && f[c.front := c][b.front] == b then 1 else 0
    {
      assert free[b] == if b.front in f && f[b.front] == b then 1 else 0;
    }
  }

  /** Removing the absorbed neighbours and adding the merged block keeps the
      two free indices in agreement. */
  lemma MergeAgrees(free: multiset<Block>, f: map<nat, Block>,
                    l: Option<Block>, r: Option<Block>, m: Block)
    requires SameBlocks(free, f)
    requires l.Some? ==> l.value.front in f && f[l.value.front] == l.value
    requires r.Some? ==> r.value.front in f && f[r.value.front] == r.value
    requires l.Some? && r.Some? ==> l.value.front != r.value.front
    requires m.front !in f - Gone(l, r)
    ensures SameBlocks(free - GoneBlocks(l, r) + multiset{m}, (f - Gone(l, r))[m.front := m])
  {
    var free1 := if l.Some? then free - multiset{l.value} else free;
    var f1 := if l.Some? then f - {l.value.front} else f;
    if l.Some? {
      SameBlocksRemove(free, f, l.value);
    }
    var free2 := if r.Some? then free1 - multiset{r.value} else free1;
    var f2 := if r.Some? then f1 - {r.value.front} else f1;
    if r.Some? {
      SameBlocksRemove(free1, f1, r.value);
    }
    assert f2 == f - Gone(l, r);
    assert free2 == free - GoneBlocks(l, r);
    SameBlocksAdd(free2, f2, m);
  }

  /** Replacing an occupied block p and its absorbed free neighbours l and r
      by the free merged block m keeps a consistent state consistent. */
  lemma MergeKeepsConsistent(s: Pool, t: Pool, p: nat, l: Option<Block>, r: Option<Block>, m: Block)
    requires Consistent(s) && WellFormed(t) && t.start == s.start && t.end == s.end
    requires p in s.occupied && s.occupied[p].front == p && p < s.occupied[p].back
    requires p !in s.byFront
    requires l.Some? ==> && l.value.front in s.byFront && s.byFront[l.value.front] == l.value
                         && l.value.back == p && l.value.front < p
    requires r.Some? ==>
      r.value.front in s.byFront && s.byFront[r.value.front] == r.value
      && r.value.front == s.occupied[p].back
    requires m == Range(if l.Some? then l.value.front else p,
                        if r.Some? then r.value.back else s.occupied[p].back)
    requires t.occupied == s.occupied - {p}
    requires t.byFront == (s.byFront - Gone(l, r))[m.front := m]
    requires multiset(t.bySize) == multiset(s.bySize) - GoneBlocks(l, r) + multiset{m}
    ensures Consistent(t)
  {
    assert Tiles(AllBlocks(s), s.start, s.end);
    MergeTiles(s.byFront, s.occupied, p, l, r, m, s.start, s.end);
    assert Tiles(AllBlocks(t), t.start, t.end);
    MergeAgrees(multiset(s.bySize), s.byFront, l, r, m);
    OccupiedShrinks(s.occupied, t.occupied, p);
  }

  /** Releasing an occupied block keeps every other occupied block
      non-empty. */
  lemma OccupiedShrinks(o: map<nat, Block>, o': map<nat, Block>, p: nat)
    requires forall k {:trigger o[k]} :: k in o ==> k < o[k].back
    requires o' == o - {p}
    ensures forall k {:trigger o'[k]} :: k in o' ==> k < o'[k].back
  {
    forall k | k in o' ensures k < o'[k].back {
      assert o'[k] == o[k];
    }
  }

  /** The by-front index after absorption is the old one without the
      absorbed neighbours. */
  lemma FrontsAfterAbsorb(s: Pool, p: nat)
    requires p in s.occupied
    ensures FrontAfterAbsorb(s, p) == s.byFront - Gone(LeftAbsorbed(s, p), RightAbsorbed(s, p))
  {
  }

  /** Removing two distinct entries by identity, one after the other. */
  lemma EraseTwo(bySize: seq<Block>, a: Block, b: Block)
    requires a in bySize && b in bySize && a != b
    ensures multiset(SizeIndex.EraseBlock(SizeIndex.EraseBlock(bySize, a), b))
      == multiset(bySize) - multiset{a} - multiset{b}
  {
    var first: seq<Block> := SizeIndex.EraseBlock(bySize, a);
    assert multiset(bySize)[b] > 0;
    assert multiset(first)[b] > 0;
  }

  lemma EraseBoth(bySize: seq<Block>, l: Option<Block>, r: Option<Block>)
    requires l.Some? ==> l.value in bySize
    requires r.Some? ==> r.value in bySize
    requires l.Some? && r.Some? ==> l.value != r.value
    ensures var first := if l.Some? then SizeIndex.EraseBlock(bySize, l.value) else bySize;
      multiset(if r.Some? then SizeIndex.EraseBlock(first, r.value) else first)
      == multiset(bySize) - GoneBlocks(l, r)
  {
    if l.Some? && r.Some? {
      EraseTwo(bySize, l.value, r.value);
      assert multiset(bySize) - multiset{l.value} - multiset{r.value}
        == multiset(bySize) - GoneBlocks(l, r);
    }
  }

  /** The corrected size index after absorption is the old one without the
      absorbed neighbours. */
  lemma ExactSizes(s: Pool, p: nat)
    requires Consistent(s) && p in s.occupied
    ensures multiset(SizeAfterAbsorbExact(s, p))
      == multiset(s.bySize) - GoneBlocks(LeftAbsorbed(s, p), RightAbsorbed(s, p))
  {
    var l: Option<Block> := LeftAbsorbed(s, p);
    var r: Option<Block> := RightAbsorbed(s, p);
    LeftNeighbour(s, p);
    RightNeighbour(s, p);
    OccupiedFacts(s, p);
    if l.Some? {
      FreeBlockIsSized(s, l.value.front);
    }
    if r.Some? {
      FreeBlockIsSized(s, r.value.front);
    }
    EraseBoth(s.bySize, l, r);
  }

  /** What a deallocation in a consistent state looks like: the neighbours,
      the merged block and the occupied index. */
  lemma ReleaseFacts(s: Pool, p: nat)
    requires Consistent(s) && p in s.occupied
    ensures s.occupied[p].front == p && p < s.occupied[p].back && p !in s.byFront
    ensures var l := LeftAbsorbed(s, p);
      l.Some? ==> && l.value.front in s.byFront && s.byFront[l.value.front] == l.value
                  && l.value.back == p && l.value.front < p
    ensures var r := RightAbsorbed(s, p);
      r.Some? ==> && r.value.front in s.byFront && s.byFront[r.value.front] == r.value
                  && r.value.front == s.occupied[p].back
    ensures Merged(s, p) == Range(
      if LeftAbsorbed(s, p).Some? then LeftAbsorbed(s, p).value.front else p,
      if RightAbsorbed(s, p).Some? then RightAbsorbed(s, p).value.back else s.occupied[p].back)
    ensures Merged(s, p).front !in FrontAfterAbsorb(s, p)
  {
    OccupiedFacts(s, p);
    LeftNeighbour(s, p);
    RightNeighbour(s, p);
    FrontsAfterAbsorb(s, p);
  }

  /** The corrected deallocation keeps a consistent state consistent,
      whatever it is asked to free. */
  lemma DeallocateExactPreserves(s: Pool, p: nat)
    ensures Consistent(s) ==> Consistent(DeallocateExact(s, p))
  {
    if p in s.occupied && Consistent(s) {
      ReleasePreserves(s, p);
    }
  }

  /** The corrected release of an occupied block keeps a consistent state
      consistent. */
  lemma ReleasePreserves(s: Pool, p: nat)
    requires Consistent(s) && p in s.occupied
    ensures Consistent(DeallocateExact(s, p))
  {
    var l := LeftAbsorbed(s, p);
    var r := RightAbsorbed(s, p);
    ReleaseFacts(s, p);
    FrontsAfterAbsorb(s, p);
    ExactSizes(s, p);
    DeallocateExactWellFormed(s, p);
    MergeKeepsConsistent(s, DeallocateExact(s, p), p, l, r, Merged(s, p));
  }

  /** Lines 205 and 211 erase `lower_bound(neighbour)`: the first size entry
      at least as long as the neighbour. This is the neighbour itself exactly
      when the neighbour is that entry. */
  ghost predicate ErasesNeighbours(s: Pool, p: nat)
    requires p in s.occupied
  {
    && (LeftAbsorbed(s, p).Some? ==>
          var l := LeftAbsorbed(s, p).value;
          var i := SizeIndex.LowerBound(s.bySize, Bytes(l));
          i < |s.bySize| && s.bySize[i] == l)
    && (RightAbsorbed(s, p).Some? ==>
          var r := RightAbsorbed(s, p).value;
          var after: seq<Block> := SizeAfterLeft(s, p);
          var i := SizeIndex.LowerBound(after, Bytes(r));
          i < |after| && after[i] == r)
  }

  /** Under that condition `do_deallocate` as written is the corrected
      deallocation. */
  lemma AgreesWhenExact(s: Pool, p: nat)
    requires p in s.occupied && ErasesNeighbours(s, p)
    ensures Deallocate(s, p) == DeallocateExact(s, p)
  {
    var l: Option<Block> := LeftAbsorbed(s, p);
    var r: Option<Block> := RightAbsorbed(s, p);
    if l.Some? {
      SizeIndex.FirstOfItsLength(s.bySize, l.value);
    }
    if r.Some? {
      SizeIndex.FirstOfItsLength(SizeAfterLeft(s, p), r.value);
    }
    assert SizeAfterAbsorb(s, p) == SizeAfterAbsorbExact(s, p);
  }

  /** `do_deallocate` as written keeps a consistent state consistent
      whenever each absorbed neighbour is the entry its `lower_bound` finds. */
  lemma DeallocatePreserves(s: Pool, p: nat)
    requires Consistent(s)
    requires p in s.occupied ==> ErasesNeighbours(s, p)
    ensures Consistent(Deallocate(s, p))
  {
    if p in s.occupied {
      AgreesWhenExact(s, p);
    }
    DeallocateExactPreserves(s, p);
  }

  /** Free blocks of pairwise different lengths satisfy that condition. */
  lemma ExactWhenUnique(s: Pool, p: nat)
    requires Consistent(s) && p in s.occupied
    requires forall b1, b2 :: b1 in s.bySize && b2 in s.bySize && Bytes(b1) == Bytes(b2) ==> b1 == b2
    ensures ErasesNeighbours(s, p)
  {
    var l: Option<Block> := LeftAbsorbed(s, p);
    var r: Option<Block> := RightAbsorbed(s, p);
    LeftNeighbour(s, p);
    RightNeighbour(s, p);
    OccupiedFacts(s, p);
    if l.Some? {
      FreeBlockIsSized(s, l.value.front);
      SizeIndex.OnlyOfItsLength(s.bySize, l.value);
      SizeIndex.FirstOfItsLength(s.bySize, l.value);
      SizeIndex.EraseBlockKeepsSorted(s.bySize, l.value);
    }
    if r.Some? {
      var after: seq<Block> := SizeAfterLeft(s, p);
      FreeBlockIsSized(s, r.value.front);
      EraseBoth(s.bySize, l, None);
      assert multiset(after)[r.value] > 0;
      forall b | b in after ensures b in s.bySize {
        assert multiset(after)[b] > 0;
      }
      SizeIndex.OnlyOfItsLength(after, r.value);
    }
  }

  /** `do_deallocate(p)` as written, in a consistent state: it absorbs the
      free block ending at p if there is one and the free block starting
      where the freed block ends if there is one. The by-front index loses
      exactly those and gains the merged block. No other free block changes. */
  lemma DeallocateCoalesces(s: Pool, p: nat)
    requires Consistent(s) && p in s.occupied
    ensures var l := LeftAbsorbed(s, p); var r := RightAbsorbed(s, p);
      && (l.Some? <==> exists k :: k in s.byFront && s.byFront[k].back == p)
      && (l.Some? ==> s.byFront[l.value.front] == l.value && l.value.back == p)
      && (r.Some? <==> s.occupied[p].back in s.byFront)
      && (r.Some? ==> r.value == s.byFront[s.occupied[p].back])
    ensures var l := LeftAbsorbed(s, p); var r := RightAbsorbed(s, p); var m := Merged(s, p);
      && m == Range(if l.Some? then l.value.front else p,
                    if r.Some? then r.value.back else s.occupied[p].back)
      && Deallocate(s, p).byFront == (s.byFront - Gone(l, r))[m.front := m]
      && Deallocate(s, p).occupied == s.occupied - {p}
  {
    LeftNeighbour(s, p);
    RightNeighbour(s, p);
    ReleaseFacts(s, p);
    FrontsAfterAbsorb(s, p);
  }

  /** What `do_allocate(n)` does to a fresh resource: it hands out the
      pool's start, and what is left of the pool is one free block. */
  lemma AllocateFresh(start: nat, end: nat, n: nat)
    requires Init(start, end).Ok? && 0 < n <= end - start
    ensures Allocate(Init(start, end).value, n).address == Some(start)
    ensures var t := Allocate(Init(start, end).value, n).pool;
      && t.start == start && t.end == end
      && t.occupied == map[t.start := Range(t.start, t.start + n)]
      && (n < t.end - t.start ==>
            t.byFront == map[t.start + n := Range(t.start + n, t.end)] && t.bySize == [Range(t.start + n, t.end)])
      && (n == t.end - t.start ==> t.byFront == map[] && t.bySize == [])
  {
    var s := Init(start, end).value;
    assert SizeIndex.LowerBound(s.bySize, n) == 0;
    AllocateTakes(s, n, 0);
  }

  /** Freeing the only occupied block, at the start of the pool, when the
      rest of the pool is one free block or nothing, leaves the whole pool
      as one free block. */
  lemma ReleaseAlone(t: Pool, n: nat)
    requires 0 < n && t.start + n <= t.end
    requires t.occupied == map[t.start := Range(t.start, t.start + n)]
    requires n < t.end - t.start ==>
      t.byFront == map[t.start + n := Range(t.start + n, t.end)] && t.bySize == [Range(t.start + n, t.end)]
    requires n == t.end - t.start ==> t.byFront == map[] && t.bySize == []
    ensures var u := Deallocate(t, t.start); var whole: Block := Range(t.start, t.end);
      && u.bySize == [whole] && u.byFront == map[t.start := whole] && u.occupied == map[]
  {
    var p := t.start;
    var whole: Block := Range(t.start, t.end);
    assert forall k :: k in t.byFront ==> k > p;
    assert LeftAbsorbed(t, p) == None;
    if n < t.end - t.start {
      var rest: Block := Range(p + n, t.end);
      assert p + n in t.byFront && t.byFront[p + n] == rest;
      assert AddressIndex.KeyedByFront(t.byFront);
      assert AddressIndex.Next(t.byFront, p) == Some(rest);
      assert RightAbsorbed(t, p) == Some(rest);
      assert SizeIndex.LowerBound(t.bySize, Bytes(rest)) == 0;
      assert SizeAfterAbsorb(t, p) == [];
      assert FrontAfterAbsorb(t, p).Keys == {};
    } else {
      assert RightAbsorbed(t, p) == None;
    }
    assert SizeAfterAbsorb(t, p) == [];
    assert FrontAfterAbsorb(t, p) == map[];
    assert Merged(t, p) == whole;
    ReleaseFields(t, p, []);
    assert SizeIndex.Insert([], whole) == [whole];
    assert AddressIndex.Erase(t.occupied, p) == map[];
  }

  /** On a fresh resource, allocating n bytes and freeing them again restores
      the state the constructor built. */
  lemma RoundTrip(start: nat, end: nat, n: nat)
    requires Init(start, end).Ok? && 0 < n <= end - start
    ensures var s := Init(start, end).value; var a := Allocate(s, n);
      a.address == Some(start) && Deallocate(a.pool, start) == s
  {
    var s := Init(start, end).value;
    var t := Allocate(s, n).pool;
    AllocateFresh(start, end, n);
    ReleaseAlone(t, n);
    var u := Deallocate(t, start);
    assert u.bySize == s.bySize && u.byFront == s.byFront && u.occupied == s.occupied;
  }
}
