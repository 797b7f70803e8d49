/** The consistency the allocator is designed to keep: the two free indices
    hold the same blocks, and the free and occupied blocks together tile the
    pool. */
module Invariant {
  import opened Wrappers
  import opened Blocks
  import SizeIndex
  import AddressIndex
  import opened Tiling
  import opened Allocator

  /** Free and occupied blocks, by front. */
  function AllBlocks(s: Pool): map<nat, Block>
  {
    s.byFront + s.occupied
  }

  /** The by-size index holds every block of the by-front index exactly once,
      and nothing else. */
  ghost predicate SameBlocks(free: multiset<Block>, byFront: map<nat, Block>)
  {
    forall b: Block {:trigger free[b]} ::
      free[b] == if b.front in byFront && byFront[b.front] == b then 1 else 0
  }

  ghost predicate Consistent(s: Pool)
  {
    && 0 < s.start <= s.end
    && WellFormed(s)
    && s.byFront.Keys !! s.occupied.Keys
    && (forall k {:trigger s.occupied[k]} :: k in s.occupied ==> k < s.occupied[k].back)
    && SameBlocks(multiset(s.bySize), s.byFront)
    && Tiles(AllBlocks(s), s.start, s.end)
  }

  /** A freshly constructed resource is consistent. */
  lemma InitConsistent(start: nat, end: nat)
    requires Init(start, end).Ok?
    ensures Consistent(Init(start, end).value)
  {
    var s := Init(start, end).value;
    assert AllBlocks(s) == map[start := Range(start, end)];
    assert multiset(s.bySize) == multiset{Range(start, end)};
  }

  /** In a consistent state every address of the pool lies in exactly one
      block, and that block is either free or occupied, never both. */
  lemma Partition(s: Pool, a: nat)
    requires Consistent(s) && s.start <= a < s.end
    ensures exists k :: k in AllBlocks(s) && k <= a < AllBlocks(s)[k].back
    ensures forall k1, k2 ::
      (k1 in AllBlocks(s) && k2 in AllBlocks(s)
       && k1 <= a < AllBlocks(s)[k1].back && k2 <= a < AllBlocks(s)[k2].back) ==> k1 == k2
    ensures forall k :: k in AllBlocks(s) ==> (k in s.byFront <==> k !in s.occupied)
  {
    Tiling.Partition(AllBlocks(s), s.start, s.end, a);
  }

  /** A block of the by-size index of a consistent state is the free block
      at its front. */
  lemma SizeEntryIsFree(s: Pool, b: Block)
    requires Consistent(s) && b in s.bySize
    ensures b.front in s.byFront && s.byFront[b.front] == b && b.front !in s.occupied
  {
    assert multiset(s.bySize)[b] > 0;
  }

  /** On success the chosen block, the first by-size entry of length at
      least n, is the free block at the returned address. */
  lemma AllocateChoosesFree(s: Pool, n: nat)
    requires Consistent(s) && Allocate(s, n).address.Some?
    ensures var c: Block := s.bySize[SizeIndex.LowerBound(s.bySize, n)];
      && Allocate(s, n).address == Some(c.front)
      && c.front in s.byFront && s.byFront[c.front] == c && c.front !in s.occupied
      && 0 < n <= Bytes(c)
  {
    SizeEntryIsFree(s, s.bySize[SizeIndex.LowerBound(s.bySize, n)]);
  }

  /** What a successful `do_allocate` does to the indices: the chosen entry
      c = `lower_bound(n)` leaves both free indices, the occupied index gains
      [c.front, c.front + n), and the remainder [c.front + n, c.back), if any,
      joins both free indices. */
  lemma AllocateUnfolds(s: Pool, n: nat, i: nat)
    requires Allocate(s, n).address.Some? && i == SizeIndex.LowerBound(s.bySize, n)
    ensures i < |s.bySize|
    ensures var c: Block := s.bySize[i];
      var r := Allocate(s, n).pool;
      && 0 < n <= Bytes(c)
      && r.occupied == AddressIndex.Insert(s.occupied, Range(c.front, c.front + n))
      && (Bytes(c) > n ==> var rest: Block := Range(c.front + n, c.back);
           && r.byFront == AddressIndex.Insert(AddressIndex.Erase(s.byFront, c.front), rest)
           && multiset(r.bySize) == multiset(s.bySize) - multiset{c} + multiset{rest})
      && (Bytes(c) == n ==>
           && r.byFront == AddressIndex.Erase(s.byFront, c.front)
           && multiset(r.bySize) == multiset(s.bySize) - multiset{c})
  {
    var c: Block := s.bySize[i];
    assert 0 < n;
    AllocateTakes(s, n, i);
    assert Offset(c.front, n) == c.front + n;
    if Bytes(c) > n {
      SizeAfterSplit(s.bySize, i, Range(c.front + n, c.back));
    }
  }

  lemma InsertAbsent(m: map<nat, Block>, b: Block)
    requires b.front !in m
    ensures AddressIndex.Insert(m, b) == m[b.front := b]
  {
  }

  /** The occupied index after the split gains [c.front, c.front + n). */
  lemma OccupiedAfterTake(o: map<nat, Block>, o': map<nat, Block>, t: Block)
    requires t.front !in o && o' == AddressIndex.Insert(o, t)
    ensures o' == o[t.front := t]
  {
    InsertAbsent(o, t);
  }

  /** The by-front index after the split: c replaced by the remainder. */
  lemma FrontAfterSplit(f: map<nat, Block>, f': map<nat, Block>, a: nat, rest: Block)
    requires rest.front != a && rest.front !in f
    requires f' == AddressIndex.Insert(AddressIndex.Erase(f, a), rest)
    ensures f' == (f - {a})[rest.front := rest]
  {
    InsertAbsent(AddressIndex.Erase(f, a), rest);
  }

  /** The size index after the split: c replaced by the remainder. */
  lemma SizeAfterSplit(s: seq<Block>, i: nat, b: Block)
    requires i < |s|
    ensures multiset(SizeIndex.Insert(SizeIndex.EraseAt(s, i), b)) == multiset(s) - multiset{s[i]} + multiset{b}
  {
  }

  /** No block of a tiling starts inside the free block c, so neither index
      holds the front of the remainder. */
  lemma RemainderIsFree(f: map<nat, Block>, o: map<nat, Block>, c: Block, n: nat)
    requires Ordered(f + o) && c.front in f && f[c.front] == c && c.front !in o && 0 < n < Bytes(c)
    ensures c.front + n !in f && c.front + n !in o
  {
    assert (f + o)[c.front] == c;
    Tiling.InsideIsFree(f + o, c.front, c.front + n);
  }

  /** What a consistent state says about the entry a split takes from. */
  lemma SplitSource(s: Pool, i: nat, n: nat)
    requires Consistent(s) && i < |s.bySize| && 0 < n < Bytes(s.bySize[i])
    ensures var c := s.bySize[i];
      && c.front in s.byFront && s.byFront[c.front] == c && c.front !in s.occupied
      && c.front + n !in s.byFront && c.front + n !in s.occupied
  {
    var c := s.bySize[i];
    SizeEntryIsFree(s, c);
    RemainderIsFree(s.byFront, s.occupied, c, n);
  }

  /** Removing the free block c and adding `rest` (absent before) keeps
      the two free indices in agreement. */
  lemma SameBlocksSwap(bySize: multiset<Block>, byFront: map<nat, Block>, c: Block,
                       bySize': multiset<Block>, byFront': map<nat, Block>, rest: Option<Block>)
    requires SameBlocks(bySize, byFront) && c.front in byFront && byFront[c.front] == c
    requires rest.Some? ==> rest.value.front !in byFront - {c.front}
    requires rest.None? ==>
      byFront' == byFront - {c.front} && bySize' == bySize - multiset{c}
    requires rest.Some? ==>
      byFront' == (byFront - {c.front})[rest.value.front := rest.value]
      && bySize' == bySize - multiset{c} + multiset{rest.value}
    ensures SameBlocks(bySize', byFront')
  {
    forall b: Block ensures bySize'[b] ==
      if b.front in byFront' && byFront'[b.front] == b then 1 else 0
    {
      assert bySize[b] ==
        if b.front in byFront && byFront[b.front] == b then 1 else 0;
    }
  }

  lemma SplitMaps(f: map<nat, Block>, o: map<nat, Block>, a: nat, t: Block, rest: Block)
    requires a in f && a !in o && rest.front !in f && rest.front !in o && a != rest.front
    ensures (f - {a})[rest.front := rest] + o[a := t] == (f + o)[a := t][rest.front := rest]
  {
  }

  lemma TakeMaps(f: map<nat, Block>, o: map<nat, Block>, c: Block)
    requires c.front in f && f[c.front] == c && c.front !in o
    ensures (f - {c.front}) + o[c.front := c] == f + o
  {
  }

  /** Splitting the free block c into an occupied [c.front, c.front + n) and a
      free remainder keeps free and occupied blocks tiling the pool. */
  lemma SplitTiles(f: map<nat, Block>, o: map<nat, Block>, f': map<nat, Block>, o': map<nat, Block>,
                   c: Block, n: nat, start: nat, end: nat)
    requires Tiles(f + o, start, end) && f.Keys !! o.Keys
    requires c.front in f && f[c.front] == c && 0 < n < Bytes(c)
    requires o' == o[c.front := Range(c.front, c.front + n)]
    requires f' == (f - {c.front})[c.front + n := Range(c.front + n, c.back)]
    ensures Tiles(f' + o', start, end) && f'.Keys !! o'.Keys
  {
    var a := c.front;
    assert (f + o)[a] == c;
    Tiling.Split(f + o, start, end, a, n);
    SplitMaps(f, o, a, Range(a, a + n), Range(a + n, c.back));
  }

  /** Occupying the whole free block c keeps the tiling. */
  lemma WholeTiles(f: map<nat, Block>, o: map<nat, Block>, f': map<nat, Block>, o': map<nat, Block>,
                   c: Block, start: nat, end: nat)
    requires Tiles(f + o, start, end) && f.Keys !! o.Keys
    requires c.front in f && f[c.front] == c
    requires o' == o[c.front := c] && f' == f - {c.front}
    ensures Tiles(f' + o', start, end) && f'.Keys !! o'.Keys
  {
    TakeMaps(f, o, c);
  }

  /** Occupying one more non-empty block keeps every occupied block
      non-empty. */
  lemma OccupiedNonEmpty(o: map<nat, Block>, o': map<nat, Block>, t: Block)
    requires forall k {:trigger o[k]} :: k in o ==> k < o[k].back
    requires t.front < t.back && o' == o[t.front := t]
    ensures forall k {:trigger o'[k]} :: k in o' ==> k < o'[k].back
  {
    forall k | k in o' ensures k < o'[k].back {
      if k != t.front {
        assert o'[k] == o[k];
      }
    }
  }

  /** Replacing the free block c by an occupied [c.front, c.front + n) and a
      free remainder keeps a consistent state consistent. */
  lemma SplitKeepsConsistent(s: Pool, r: Pool, c: Block, n: nat)
    requires Consistent(s) && WellFormed(r) && r.start == s.start && r.end == s.end
    requires c.front in s.byFront && s.byFront[c.front] == c && c.front !in s.occupied
    requires 0 < n < Bytes(c)
    requires var rest: Block := Range(c.front + n, c.back);
      && r.occupied == s.occupied[c.front := Range(c.front, c.front + n)]
      && r.byFront == (s.byFront - {c.front})[rest.front := rest]
      && multiset(r.bySize) == multiset(s.bySize) - multiset{c} + multiset{rest}
    ensures Consistent(r)
  {
    var rest: Block := Range(c.front + n, c.back);
    assert Ordered(AllBlocks(s));
    RemainderIsFree(s.byFront, s.occupied, c, n);
    SplitTiles(s.byFront, s.occupied, r.byFront, r.occupied, c, n, s.start, s.end);
    assert Tiles(AllBlocks(r), r.start, r.end);
    SameBlocksSwap(multiset(s.bySize), s.byFront, c, multiset(r.bySize), r.byFront, Some(rest));
    OccupiedNonEmpty(s.occupied, r.occupied, Range(c.front, c.front + n));
  }

  /** Replacing the free block c by the same occupied block keeps a
      consistent state consistent. */
  lemma WholeKeepsConsistent(s: Pool, r: Pool, c: Block)
    requires Consistent(s) && WellFormed(r) && r.start == s.start && r.end == s.end
    requires c.front in s.byFront && s.byFront[c.front] == c && c.front !in s.occupied
    requires 0 < Bytes(c)
    requires r.occupied == s.occupied[c.front := c]
    requires r.byFront == s.byFront - {c.front}
    requires multiset(r.bySize) == multiset(s.bySize) - multiset{c}
    ensures Consistent(r)
  {
    WholeTiles(s.byFront, s.occupied, r.byFront, r.occupied, c, s.start, s.end);
    assert Tiles(AllBlocks(r), r.start, r.end);
    SameBlocksSwap(multiset(s.bySize), s.byFront, c, multiset(r.bySize), r.byFront, None);
    OccupiedNonEmpty(s.occupied, r.occupied, c);
  }

  /** The index equations of a split, in plain map and multiset terms. */
  lemma SplitEquations(s: Pool, r: Pool, i: nat, n: nat)
    requires i < |s.bySize| && 0 < n < Bytes(s.bySize[i])
    requires var c := s.bySize[i]; c.front !in s.occupied && c.front + n !in s.byFront
    requires var c := s.bySize[i]; var rest: Block := Range(c.front + n, c.back);
      && r.occupied == AddressIndex.Insert(s.occupied, Range(c.front, c.front + n))
      && r.byFront == AddressIndex.Insert(AddressIndex.Erase(s.byFront, c.front), rest)
    ensures var c: Block := s.bySize[i]; var rest: Block := Range(c.front + n, c.back);
      && r.occupied == s.occupied[c.front := Range(c.front, c.front + n)]
      && r.byFront == (s.byFront - {c.front})[rest.front := rest]
  {
    var c := s.bySize[i];
    var rest: Block := Range(c.front + n, c.back);
    OccupiedAfterTake(s.occupied, r.occupied, Range(c.front, c.front + n));
    FrontAfterSplit(s.byFront, r.byFront, c.front, rest);
  }

  /** Taking the first n bytes of the free entry `i` of the size index keeps
      a consistent state consistent. */
  lemma SplitConsistent(s: Pool, r: Pool, i: nat, n: nat)
    requires Consistent(s) && WellFormed(r) && r.start == s.start && r.end == s.end
    requires i < |s.bySize| && 0 < n < Bytes(s.bySize[i])
    requires var c: Block := s.bySize[i]; var rest: Block := Range(c.front + n, c.back);
      && r.occupied == AddressIndex.Insert(s.occupied, Range(c.front, c.front + n))
      && r.byFront == AddressIndex.Insert(AddressIndex.Erase(s.byFront, c.front), rest)
      && multiset(r.bySize) == multiset(s.bySize) - multiset{c} + multiset{rest}
    ensures Consistent(r)
  {
    SplitSource(s, i, n);
    SplitEquations(s, r, i, n);
    SplitKeepsConsistent(s, r, s.bySize[i], n);
  }

  /** Taking the whole free entry `i` of the size index keeps a consistent
      state consistent. */
  lemma WholeConsistent(s: Pool, r: Pool, i: nat)
    requires Consistent(s) && WellFormed(r) && r.start == s.start && r.end == s.end
    requires i < |s.bySize| && 0 < Bytes(s.bySize[i])
    requires var c: Block := s.bySize[i];
      && r.occupied == AddressIndex.Insert(s.occupied, c)
      && r.byFront == AddressIndex.Erase(s.byFront, c.front)
      && multiset(r.bySize) == multiset(s.bySize) - multiset{c}
    ensures Consistent(r)
  {
    var c := s.bySize[i];
    SizeEntryIsFree(s, c);
    OccupiedAfterTake(s.occupied, r.occupied, c);
    WholeKeepsConsistent(s, r, c);
  }

  /** `do_allocate` keeps a consistent state consistent, whatever it is asked. */
  lemma AllocatePreserves(s: Pool, n: nat)
    ensures Consistent(s) ==> Consistent(Allocate(s, n).pool)
  {
    if Allocate(s, n).address.Some? {
      if Consistent(s) {
        TakePreserves(s, n);
      }
    } else {
      assert Allocate(s, n).pool == s;
    }
  }

  /** A successful `do_allocate` keeps a consistent state consistent. */
  lemma TakePreserves(s: Pool, n: nat)
    requires Consistent(s) && Allocate(s, n).address.Some?
    ensures Consistent(Allocate(s, n).pool)
  {
    var i := SizeIndex.LowerBound(s.bySize, n);
    if Bytes(s.bySize[i]) > n {
      SplitPreserves(s, n, i);
    } else {
      WholePreserves(s, n, i);
    }
  }

  lemma SplitPreserves(s: Pool, n: nat, i: nat)
    requires Consistent(s) && Allocate(s, n).address.Some? && i == SizeIndex.LowerBound(s.bySize, n)
    requires i < |s.bySize| && Bytes(s.bySize[i]) > n
    ensures Consistent(Allocate(s, n).pool)
  {
    AllocateWellFormed(s, n);
    AllocateUnfolds(s, n, i);
    SplitConsistent(s, Allocate(s, n).pool, i, n);
  }

  lemma WholePreserves(s: Pool, n: nat, i: nat)
    requires Consistent(s) && Allocate(s, n).address.Some? && i == SizeIndex.LowerBound(s.bySize, n)
    requires i < |s.bySize| && Bytes(s.bySize[i]) <= n
    ensures Consistent(Allocate(s, n).pool)
  {
    var c: Block := s.bySize[i];
    AllocateWellFormed(s, n);
    AllocateUnfolds(s, n, i);
    assert Range(c.front, c.front + n) == c;
    WholeConsistent(s, Allocate(s, n).pool, i);
  }

  /** Every free block of a consistent state appears in the size index. */
  lemma FreeBlockIsSized(s: Pool, k: nat)
    requires Consistent(s) && k in s.byFront
    ensures s.byFront[k] in s.bySize
  {
    var b := s.byFront[k];
    assert multiset(s.bySize)[b] == 1;
  }

  /** Best fit over the free memory itself: `do_allocate(n)` fails exactly
      when no free block holds n bytes, and otherwise returns the front of a
      free block that is a shortest one among those holding n bytes. */
  lemma AllocateIsBestFit(s: Pool, n: nat)
    requires Consistent(s) && 0 < n
    ensures Allocate(s, n).address.None? <==>
      forall k :: k in s.byFront ==> Bytes(s.byFront[k]) < n
    ensures Allocate(s, n).address.Some? ==> var a := Allocate(s, n).address.value;
      && a in s.byFront && n <= Bytes(s.byFront[a])
      && forall k :: k in s.byFront && n <= Bytes(s.byFront[k]) ==>
           Bytes(s.byFront[a]) <= Bytes(s.byFront[k])
  {
    forall k | k in s.byFront { FreeBlockIsSized(s, k); }
    if Allocate(s, n).address.Some? {
      AllocateChoosesFree(s, n);
      SizeIndex.LowerBoundIsBestFit(s.bySize, n);
    } else {
      forall k | k in s.byFront ensures Bytes(s.byFront[k]) < n {
        FreeBlockIsSized(s, k);
      }
    }
  }

  /** The indices after a successful `do_allocate(n)`, with the chosen
      entry `i` = `lower_bound(n)` known to be free. */
  lemma SplitsAt(s: Pool, n: nat, i: nat)
    requires Allocate(s, n).address.Some? && i == SizeIndex.LowerBound(s.bySize, n)
    requires i < |s.bySize| && s.bySize[i].front !in s.occupied
    requires n < Bytes(s.bySize[i]) ==> s.bySize[i].front + n !in s.byFront
    ensures var c: Block := s.bySize[i]; var t := Allocate(s, n).pool;
      var a := Allocate(s, n).address.value;
      && a == c.front
      && t.occupied == s.occupied[a := Range(a, a + n)]
      && (n < Bytes(c) ==> var rest: Block := Range(a + n, c.back);
            t.byFront == (s.byFront - {a})[rest.front := rest])
      && (n == Bytes(c) ==> t.byFront == s.byFront - {a})
  {
    var c: Block := s.bySize[i];
    var t := Allocate(s, n).pool;
    AllocateUnfolds(s, n, i);
    if Bytes(c) > n {
      SplitEquations(s, t, i, n);
    } else {
      OccupiedAfterTake(s.occupied, t.occupied, Range(c.front, c.front + n));
    }
  }

  /** A successful `do_allocate(n)` in a consistent state occupies exactly
      [a, a + n) at the returned address a, and the free block it came from
      is replaced by its remainder [a + n, back), or by nothing when it held
      exactly n bytes. */
  lemma AllocateSplits(s: Pool, n: nat)
    requires Consistent(s) && Allocate(s, n).address.Some?
    ensures var a := Allocate(s, n).address.value; var t := Allocate(s, n).pool;
      && a in s.byFront && a !in s.occupied
      && t.occupied == s.occupied[a := Range(a, a + n)]
      && (n < Bytes(s.byFront[a]) ==> var rest: Block := Range(a + n, s.byFront[a].back);
            t.byFront == (s.byFront - {a})[rest.front := rest])
      && (n == Bytes(s.byFront[a]) ==> t.byFront == s.byFront - {a})
  {
    var i := SizeIndex.LowerBound(s.bySize, n);
    var c: Block := s.bySize[i];
    AllocateChoosesFree(s, n);
    if Bytes(c) > n {
      SplitSource(s, i, n);
    }
    SplitsAt(s, n, i);
  }
}
