/** Maps from front addresses to blocks that tile a pool [start, end): the
    blocks lie inside the pool, do not overlap, leave no gap, and are
    non-empty unless the pool itself is empty. */
module Tiling {
  import opened Blocks
  import AddressIndex

  ghost predicate Within(m: map<nat, Block>, start: nat, end: nat)
  {
    forall k {:trigger m[k]} :: k in m ==> m[k].front == k && start <= k && m[k].back <= end
  }

  /** In address order, each block ends at or before the next one starts. */
  ghost predicate Ordered(m: map<nat, Block>)
  {
    forall k1, k2 {:trigger m[k1], m[k2]} :: k1 in m && k2 in m && k1 < k2 ==> m[k1].back <= k2
  }

  /** The first block starts the pool and each block is followed by another
      one or ends the pool. */
  ghost predicate Gapless(m: map<nat, Block>, start: nat, end: nat)
  {
    (start < end ==> start in m)
    && forall k {:trigger m[k]} :: k in m ==> m[k].back == end || m[k].back in m
  }

  ghost predicate NonEmpty(m: map<nat, Block>, start: nat, end: nat)
  {
    forall k {:trigger m[k]} :: k in m ==> k < m[k].back || start == end
  }

  ghost predicate Tiles(m: map<nat, Block>, start: nat, end: nat)
  {
    Within(m, start, end) && Ordered(m) && Gapless(m, start, end) && NonEmpty(m, start, end)
  }

  /** Every address of the pool lies in exactly one block of a tiling. */
  lemma Partition(m: map<nat, Block>, start: nat, end: nat, a: nat)
    requires Tiles(m, start, end) && start <= a < end
    ensures exists k :: k in m && k <= a < m[k].back
    ensures forall k1, k2 :: k1 in m && k2 in m && k1 <= a < m[k1].back && k2 <= a < m[k2].back ==> k1 == k2
  {
    var below := set k | k in m && k <= a;
    assert start in below;
    assert forall k :: k in m && k <= a ==> k in below;
    var top := AddressIndex.Max(below);
    assert a < m[top].back;
  }

  /** Splitting a block into [front, front + n) and the rest keeps a tiling. */
  lemma Split(m: map<nat, Block>, start: nat, end: nat, a: nat, n: nat)
    requires Tiles(m, start, end) && a in m && 0 < n < Bytes(m[a])
    ensures a + n !in m
    ensures var r := m[a := Range(a, a + n)][a + n := Range(a + n, m[a].back)];
      Within(r, start, end) && Ordered(r) && Gapless(r, start, end) && NonEmpty(r, start, end)
  {
    InsideIsFree(m, a, a + n);
    SplitOrdered(m, a, n);
    SplitGapless(m, start, end, a, n);
    SplitWithin(m, start, end, a, n);
  }

  /** No block starts strictly inside another one. */
  lemma InsideIsFree(m: map<nat, Block>, a: nat, x: nat)
    requires Ordered(m) && a in m && a < x < m[a].back
    ensures x !in m
  {
  }

  lemma SplitWithin(m: map<nat, Block>, start: nat, end: nat, a: nat, n: nat)
    requires Within(m, start, end) && NonEmpty(m, start, end) && a in m && 0 < n < Bytes(m[a])
    ensures var r := m[a := Range(a, a + n)][a + n := Range(a + n, m[a].back)];
      Within(r, start, end) && NonEmpty(r, start, end)
  {
  }

  lemma SplitOrdered(m: map<nat, Block>, a: nat, n: nat)
    requires Ordered(m) && a in m && a + n !in m && m[a].front == a && 0 < n < Bytes(m[a])
    ensures Ordered(m[a := Range(a, a + n)][a + n := Range(a + n, m[a].back)])
  {
    var r := m[a := Range(a, a + n)][a + n := Range(a + n, m[a].back)];
    forall k1, k2 | k1 in r && k2 in r && k1 < k2 ensures r[k1].back <= k2 {
      if k1 == a + n {
        assert m[a].back <= k2;
      } else if k1 == a {
        if k2 != a + n { assert m[a].back <= k2; }
      } else {
        assert r[k1] == m[k1];
        if k2 == a + n { assert m[k1].back <= a; }
      }
    }
  }

  lemma SplitGapless(m: map<nat, Block>, start: nat, end: nat, a: nat, n: nat)
    requires Gapless(m, start, end) && a in m && a + n !in m && m[a].front == a && 0 < n < Bytes(m[a])
    ensures Gapless(m[a := Range(a, a + n)][a + n := Range(a + n, m[a].back)], start, end)
  {
    var r := m[a := Range(a, a + n)][a + n := Range(a + n, m[a].back)];
    forall k | k in r ensures r[k].back == end || r[k].back in r {
      if k != a && k != a + n {
        assert r[k] == m[k];
      }
    }
  }

  /** Joining two neighbouring blocks into one keeps a tiling. */
  lemma Join(m: map<nat, Block>, start: nat, end: nat, k1: nat, k2: nat)
    requires Tiles(m, start, end) && k1 in m && k2 in m && k1 < k2 && m[k1].back == k2
    ensures Tiles((m - {k2})[k1 := Range(k1, m[k2].back)], start, end)
  {
    var r := (m - {k2})[k1 := Range(k1, m[k2].back)];
    JoinOrdered(m, k1, k2);
    JoinGapless(m, start, end, k1, k2);
    assert Within(r, start, end);
    assert NonEmpty(r, start, end);
  }

  /** Joining three neighbouring blocks into one keeps a tiling. */
  lemma JoinThree(m: map<nat, Block>, start: nat, end: nat, k1: nat, k2: nat, k3: nat)
    requires Tiles(m, start, end) && k1 in m && k2 in m && k3 in m && k1 < k2 < k3
    requires m[k1].back == k2 && m[k2].back == k3
    ensures Tiles((m - {k2, k3})[k1 := Range(k1, m[k3].back)], start, end)
  {
    var m1 := (m - {k2})[k1 := Range(k1, m[k2].back)];
    Join(m, start, end, k1, k2);
    assert k3 in m1 && m1[k3] == m[k3] && m1[k1].back == k3;
    Join(m1, start, end, k1, k3);
    assert (m1 - {k3})[k1 := Range(k1, m1[k3].back)] == (m - {k2, k3})[k1 := Range(k1, m[k3].back)];
  }

  lemma JoinOrdered(m: map<nat, Block>, k1: nat, k2: nat)
    requires Ordered(m) && k1 in m && k2 in m && k1 < k2 && m[k1].back == k2
    requires k2 <= m[k2].back
    ensures Ordered((m - {k2})[k1 := Range(k1, m[k2].back)])
  {
    var r := (m - {k2})[k1 := Range(k1, m[k2].back)];
    forall j1, j2 | j1 in r && j2 in r && j1 < j2 ensures r[j1].back <= j2 {
      if j1 == k1 {
        assert j2 in m && k2 < j2;
        assert m[k2].back <= j2;
      } else {
        assert r[j1] == m[j1];
      }
    }
  }

  lemma JoinGapless(m: map<nat, Block>, start: nat, end: nat, k1: nat, k2: nat)
    requires Gapless(m, start, end) && Ordered(m) && NonEmpty(m, start, end) && Within(m, start, end)
    requires k1 in m && k2 in m && k1 < k2 && m[k1].back == k2
    ensures Gapless((m - {k2})[k1 := Range(k1, m[k2].back)], start, end)
  {
    var r := (m - {k2})[k1 := Range(k1, m[k2].back)];
    forall j | j in r ensures r[j].back == end || r[j].back in r {
      if j != k1 {
        assert r[j] == m[j];
        assert m[j].back != k2;
      } else {
        assert m[k2].back != k2;
      }
    }
    if start < end {
      assert start != k2;
    }
  }
}
