/** Concrete runs of the model on the pool [100, 200).

    The as-written deallocation removes "the first size entry at least as
    long as the neighbour" (lines 205 and 211). After the run below, that
    entry is a different free block of the same length. The absorbed
    neighbour stays in the size index, and two later allocations of 10 bytes
    both return address 120. */
module Scenarios {
  import opened Wrappers
  import opened Blocks
  import SizeIndex
  import AddressIndex
  import opened Allocator
  import opened Invariant
  import opened Freeing

  const S0 := Pool(100, 200, [Range(100, 200)], map[100 := Range(100, 200)], map[])
  const S1 := Pool(100, 200, [Range(110, 200)], map[110 := Range(110, 200)],
                   map[100 := Range(100, 110)])
  const S2 := Pool(100, 200, [Range(120, 200)], map[120 := Range(120, 200)],
                   map[100 := Range(100, 110), 110 := Range(110, 120)])
  const S3 := Pool(100, 200, [Range(130, 200)], map[130 := Range(130, 200)],
                   map[100 := Range(100, 110), 110 := Range(110, 120), 120 := Range(120, 130)])
  /** The whole pool handed out in four blocks of 10, 10, 10 and 70 bytes. */
  const S4 := Pool(100, 200, [], map[],
                   map[100 := Range(100, 110), 110 := Range(110, 120), 120 := Range(120, 130),
                       130 := Range(130, 200)])
  /** After freeing 100: one free block of 10 bytes. */
  const S5 := Pool(100, 200, [Range(100, 110)], map[100 := Range(100, 110)],
                   map[110 := Range(110, 120), 120 := Range(120, 130), 130 := Range(130, 200)])
  /** After freeing 120: two free blocks of 10 bytes, [100, 110) first. */
  const S6 := Pool(100, 200, [Range(100, 110), Range(120, 130)],
                   map[100 := Range(100, 110), 120 := Range(120, 130)],
                   map[110 := Range(110, 120), 130 := Range(130, 200)])
  /** After freeing 130 as written: [120, 130) is absorbed into [120, 200),
      but the size index lost [100, 110) instead and still lists [120, 130). */
  const S7 := Pool(100, 200, [Range(120, 130), Range(120, 200)],
                   map[100 := Range(100, 110), 120 := Range(120, 200)],
                   map[110 := Range(110, 120)])
  /** After handing out [120, 130) again. */
  const S8 := Pool(100, 200, [Range(120, 200)], map[100 := Range(100, 110)],
                   map[110 := Range(110, 120), 120 := Range(120, 130)])
  /** After freeing 130 with the corrected deallocation. */
  const E7 := Pool(100, 200, [Range(100, 110), Range(120, 200)],
                   map[100 := Range(100, 110), 120 := Range(120, 200)],
                   map[110 := Range(110, 120)])

  lemma Construct()
    ensures Init(100, 200) == Ok(S0)
  {
  }

  /** `do_allocate(n)` on a pool whose only free block c holds more than n
      bytes. */
  lemma AllocateFromOnly(s: Pool, c: Block, n: nat)
    requires s.bySize == [c] && s.byFront == map[c.front := c] && c.front !in s.occupied
    requires 0 < n < Bytes(c)
    ensures var rest: Block := Range(c.front + n, c.back);
      Allocate(s, n) == Allocation(Pool(s.start, s.end, [rest], map[rest.front := rest],
                                        s.occupied[c.front := Range(c.front, c.front + n)]), Some(c.front))
  {
    assert SizeIndex.LowerBound(s.bySize, n) == 0;
    AllocateTakes(s, n, 0);
    var rest: Block := Range(c.front + n, c.back);
    var t := Allocate(s, n).pool;
    assert SizeIndex.EraseAt(s.bySize, 0) == [];
    assert t.bySize == [rest];
    assert AddressIndex.Erase(s.byFront, c.front) == map[];
    assert t.byFront == map[rest.front := rest];
    assert t.occupied == s.occupied[c.front := Range(c.front, c.front + n)];
  }

  /** The greatest front below p, when it is k. */
  lemma PrecedingIs(m: map<nat, Block>, p: nat, k: nat)
    requires AddressIndex.KeyedByFront(m) && k in m && k < p
    requires forall j :: j in m && j < p ==> j <= k
    ensures AddressIndex.Preceding(m, p) == Some(m[k])
  {
  }

  lemma Take10From0()
    ensures Allocate(S0, 10) == Allocation(S1, Some(100))
  {
    AllocateFromOnly(S0, Range(100, 200), 10);
  }

  lemma Take10From1()
    ensures Allocate(S1, 10) == Allocation(S2, Some(110))
  {
    AllocateFromOnly(S1, Range(110, 200), 10);
  }

  lemma Take10From2()
    ensures Allocate(S2, 10) == Allocation(S3, Some(120))
  {
    AllocateFromOnly(S2, Range(120, 200), 10);
  }

  lemma Take70From3()
    ensures Allocate(S3, 70) == Allocation(S4, Some(130))
  {
    assert SizeIndex.LowerBound(S3.bySize, 70) == 0;
  }

  /** `do_allocate(n)` taking the whole first entry c of the size index. */
  lemma AllocateWholeHead(s: Pool, c: Block, n: nat)
    requires |s.bySize| > 0 && s.bySize[0] == c && c.front !in s.occupied && Bytes(c) == n > 0
    ensures Allocate(s, n) ==
      Allocation(Pool(s.start, s.end, s.bySize[1..], s.byFront - {c.front}, s.occupied[c.front := c]),
                 Some(c.front))
  {
    assert SizeIndex.LowerBound(s.bySize, n) == 0;
    AllocateTakes(s, n, 0);
    assert Range(c.front, Offset(c.front, n)) == c;
    var t := Allocate(s, n).pool;
    assert t.bySize == s.bySize[1..];
    assert t.byFront == s.byFront - {c.front};
    assert t.occupied == s.occupied[c.front := c];
  }

  lemma Free100From4()
    ensures Deallocate(S4, 100) == S5
  {
    assert LeftAbsorbed(S4, 100) == None && RightAbsorbed(S4, 100) == None;
    assert S4.occupied - {100} == S5.occupied;
  }

  lemma Neighbours5()
    ensures LeftAbsorbed(S5, 120) == None && RightAbsorbed(S5, 120) == None
  {
    PrecedingIs(S5.byFront, 120, 100);
    assert AddressIndex.Next(S5.byFront, 120) == None;
  }

  lemma Free120Fronts()
    ensures Deallocate(S5, 120).byFront == S6.byFront
  {
    Neighbours5();
    assert Merged(S5, 120) == Range(120, 130);
  }

  lemma Free120Sizes()
    ensures Deallocate(S5, 120).bySize == S6.bySize
  {
    Neighbours5();
    assert Merged(S5, 120) == Range(120, 130);
    assert SizeAfterAbsorb(S5, 120) == S5.bySize;
    ReleaseFields(S5, 120, S5.bySize);
    Free120Inserts();
  }

  lemma Free120Inserts()
    ensures SizeIndex.Insert(S5.bySize, Range(120, 130)) == S6.bySize
  {
  }

  lemma Free120Occupied()
    ensures Deallocate(S5, 120).occupied == S6.occupied
  {
    assert S5.occupied - {120} == S6.occupied;
  }

  lemma Free120From5()
    ensures Deallocate(S5, 120) == S6
  {
    Free120Fronts();
    Free120Sizes();
    Free120Occupied();
  }

  lemma Neighbours6()
    ensures LeftAbsorbed(S6, 130) == Some(Range(120, 130)) && RightAbsorbed(S6, 130) == None
  {
    PrecedingIs(S6.byFront, 130, 120);
    assert AddressIndex.Next(S6.byFront, 130) == None;
  }

  lemma Free130Fronts()
    ensures Deallocate(S6, 130).byFront == S7.byFront
  {
    Neighbours6();
    assert Merged(S6, 130) == Range(120, 200);
    assert FrontAfterAbsorb(S6, 130) == map[100 := Range(100, 110)];
  }

  /** Line 205 erases `lower_bound([120, 130))`, which is [100, 110). */
  lemma Free130Erases()
    ensures SizeAfterAbsorb(S6, 130) == [Range(120, 130)]
  {
    Neighbours6();
    assert SizeIndex.LowerBound(S6.bySize, 10) == 0;
    assert SizeIndex.EraseAt(S6.bySize, 0) == [Range(120, 130)];
  }

  lemma Free130Inserts()
    ensures SizeIndex.Insert([Range(120, 130)], Range(120, 200)) == S7.bySize
  {
  }

  lemma Free130Sizes()
    ensures Deallocate(S6, 130).bySize == S7.bySize
  {
    Free130Erases();
    Merged6();
    ReleaseFields(S6, 130, [Range(120, 130)]);
    Free130Inserts();
  }

  lemma Free130Occupied()
    ensures Deallocate(S6, 130).occupied == S7.occupied
  {
    assert S6.occupied - {130} == S7.occupied;
  }

  lemma Free130From6()
    ensures Deallocate(S6, 130) == S7
  {
    Free130Fronts();
    Free130Sizes();
    Free130Occupied();
  }

  lemma Take10From7()
    ensures Allocate(S7, 10) == Allocation(S8, Some(120))
  {
    AllocateWholeHead(S7, Range(120, 130), 10);
    Retake7Indices();
  }

  lemma Retake7Indices()
    ensures S7.bySize[1..] == S8.bySize && S7.byFront - {120} == S8.byFront
    ensures S7.occupied[120 := Range(120, 130)] == S8.occupied
  {
  }

  lemma Take10From8()
    ensures Allocate(S8, 10).address == Some(120)
  {
    assert SizeIndex.LowerBound(S8.bySize, 10) == 0;
  }

  /** The run: construct on [100, 200); allocate 10, 10, 10 and 70 bytes;
      free 100, 120 and 130; allocate 10 bytes twice. Both of the last two
      allocations return 120, and the second one returns it while [120, 130)
      is still occupied. */
  lemma DoubleHandOut()
    ensures Init(100, 200) == Ok(S0)
    ensures Allocate(S0, 10).pool == S1 && Allocate(S1, 10).pool == S2
    ensures Allocate(S2, 10).pool == S3 && Allocate(S3, 70).pool == S4
    ensures Deallocate(Deallocate(Deallocate(S4, 100), 120), 130) == S7
    ensures Allocate(S7, 10) == Allocation(S8, Some(120))
    ensures 120 in S8.occupied && Allocate(S8, 10).address == Some(120)
  {
    Construct();
    Take10From0();
    Take10From1();
    Take10From2();
    Take70From3();
    Free100From4();
    Free120From5();
    Free130From6();
    Take10From7();
    Take10From8();
  }

  lemma Consistent0()
    ensures Consistent(S0)
  {
    Construct();
    InitConsistent(100, 200);
  }

  lemma Consistent1()
    ensures Consistent(S1)
  {
    Consistent0();
    Take10From0();
    AllocatePreserves(S0, 10);
  }

  lemma Consistent2()
    ensures Consistent(S2)
  {
    Consistent1();
    Take10From1();
    AllocatePreserves(S1, 10);
  }

  lemma Consistent3()
    ensures Consistent(S3)
  {
    Consistent2();
    Take10From2();
    AllocatePreserves(S2, 10);
  }

  lemma Consistent4()
    ensures Consistent(S4)
  {
    Consistent3();
    Take70From3();
    AllocatePreserves(S3, 70);
  }

  lemma Consistent5()
    ensures Consistent(S5)
  {
    Consistent4();
    Free100From4();
    DeallocatePreserves(S4, 100);
  }

  lemma Consistent6()
    ensures Consistent(S6)
  {
    Consistent5();
    Free120From5();
    Neighbours5();
    DeallocatePreserves(S5, 120);
  }

  /** Every state of the run up to the third free is consistent; the third
      free as written leaves a state that is not: the size index lists
      [120, 130), which is no longer a free block. */
  lemma AsWrittenBreaksConsistency()
    ensures Consistent(S6)
    ensures !Consistent(S7)
  {
    Consistent6();
    assert multiset(S7.bySize)[Range(120, 130)] == 1;
    assert !SameBlocks(multiset(S7.bySize), S7.byFront);
  }

  lemma CorrectedFronts()
    ensures DeallocateExact(S6, 130).byFront == E7.byFront
  {
    Neighbours6();
    assert Merged(S6, 130) == Range(120, 200);
    assert FrontAfterAbsorb(S6, 130) == map[100 := Range(100, 110)];
  }

  /** The corrected deallocation removes [120, 130) itself. */
  lemma CorrectedErase()
    ensures SizeAfterAbsorbExact(S6, 130) == [Range(100, 110)]
  {
    Neighbours6();
    assert SizeIndex.IndexOf(S6.bySize, Range(120, 130)) == 1;
    assert SizeIndex.EraseAt(S6.bySize, 1) == [Range(100, 110)];
  }

  lemma Merged6()
    ensures Merged(S6, 130) == Range(120, 200)
  {
    Neighbours6();
  }

  lemma CorrectedInsert()
    ensures SizeIndex.Insert([Range(100, 110)], Range(120, 200)) == E7.bySize
  {
  }

  lemma CorrectedSizes()
    ensures DeallocateExact(S6, 130).bySize == E7.bySize
  {
    CorrectedErase();
    Merged6();
    CorrectedInsert();
  }

  lemma CorrectedOccupied()
    ensures DeallocateExact(S6, 130).occupied == E7.occupied
  {
    assert S6.occupied - {130} == E7.occupied;
  }

  lemma CorrectedFree130()
    ensures DeallocateExact(S6, 130) == E7
  {
    CorrectedFronts();
    CorrectedSizes();
    CorrectedOccupied();
  }

  lemma CorrectedTakes()
    ensures Allocate(E7, 10).address == Some(100)
    ensures Allocate(Allocate(E7, 10).pool, 10).address == Some(120)
  {
    AllocateWholeHead(E7, Range(100, 110), 10);
    var e8 := Allocate(E7, 10).pool;
    assert e8.bySize == [Range(120, 200)];
    assert SizeIndex.LowerBound(e8.bySize, 10) == 0;
  }

  /** With the corrected deallocation of 130 the run stays consistent, and
      the next two allocations of 10 bytes return 100 and then 120. */
  lemma CorrectedRun()
    ensures DeallocateExact(S6, 130) == E7 && Consistent(E7)
    ensures Allocate(E7, 10).address == Some(100)
    ensures Allocate(Allocate(E7, 10).pool, 10).address == Some(120)
  {
    CorrectedFree130();
    Consistent6();
    DeallocateExactPreserves(S6, 130);
    CorrectedTakes();
  }
}
