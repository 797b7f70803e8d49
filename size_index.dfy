/** The free index by size, a `std::multiset<entity>` ordered by byte count,
    as a sequence sorted by `Bytes`. Entries of equal length keep their
    insertion order: `insert` places a new entry after all entries of the
    same length, as `std::multiset::insert` does. */
module SizeIndex {
  import opened Blocks

  /** The container's own ordering invariant (`entity_ordering_by_bytes_`). */
  ghost predicate Sorted(s: seq<Block>)
  {
    forall i, j :: 0 <= i < j < |s| ==> Bytes(s[i]) <= Bytes(s[j])
  }

  /** `lower_bound`: the first entry whose length is at least `n`, or `|s|`
      (the end iterator) when there is none. */
  function LowerBound(s: seq<Block>, n: nat): (i: nat)
    ensures i <= |s|
    ensures forall j :: 0 <= j < i ==> Bytes(s[j]) < n
    ensures i < |s| ==> Bytes(s[i]) >= n
    decreases |s|
  {
    if s == [] || Bytes(s[0]) >= n then 0 else 1 + LowerBound(s[1..], n)
  }

  /** `upper_bound`: the first entry whose length exceeds `n`, or `|s|`. */
  function UpperBound(s: seq<Block>, n: nat): (i: nat)
    ensures i <= |s|
    ensures forall j :: 0 <= j < i ==> Bytes(s[j]) <= n
    ensures i < |s| ==> Bytes(s[i]) > n
    decreases |s|
  {
    if s == [] || Bytes(s[0]) > n then 0 else 1 + UpperBound(s[1..], n)
  }

  /** The position of the first entry equal to `b`, or `|s|`. */
  function IndexOf(s: seq<Block>, b: Block): (i: nat)
    ensures i <= |s|
    ensures forall j :: 0 <= j < i ==> s[j] != b
    ensures i < |s| ==> s[i] == b
    decreases |s|
  {
    if s == [] || s[0] == b then 0 else 1 + IndexOf(s[1..], b)
  }

  /** `erase(iterator)`: removes exactly the entry at position `i`. */
  function EraseAt(s: seq<Block>, i: nat): (r: seq<Block>)
    requires i < |s|
    ensures |r| == |s| - 1
    ensures forall j :: 0 <= j < i ==> r[j] == s[j]
    ensures forall j :: i <= j < |r| ==> r[j] == s[j + 1]
    ensures multiset(r) == multiset(s) - multiset{s[i]}
    decreases i
  {
    if i == 0 then
      assert s == [s[0]] + s[1..];
      s[1..]
    else
      var t: seq<Block> := s[1..];
      var tail: seq<Block> := EraseAt(t, i - 1);
      assert s == [s[0]] + t;
      assert t[i - 1] == s[i];
      PrependRemoved(s[0], multiset(t), s[i]);
      ConsIndex(s[0], tail, t, i - 1);
      [s[0]] + tail
  }

  /** Prepending one entry to both a sequence and its erasure shifts the
      erased position by one. */
  lemma ConsIndex(a: Block, tail: seq<Block>, t: seq<Block>, k: nat)
    requires |tail| + 1 == |t| && k < |t|
    requires forall j :: 0 <= j < k ==> tail[j] == t[j]
    requires forall j :: k <= j < |tail| ==> tail[j] == t[j + 1]
    ensures forall j :: 0 <= j < k + 1 ==> ([a] + tail)[j] == ([a] + t)[j]
    ensures forall j :: k + 1 <= j < |tail| + 1 ==> ([a] + tail)[j] == ([a] + t)[j + 1]
  {
  }

  /** Adding an entry commutes with removing another that is present. */
  lemma PrependRemoved(a: Block, m: multiset<Block>, x: Block)
    requires x in m
    ensures multiset{a} + (m - multiset{x}) == (multiset{a} + m) - multiset{x}
  {
  }

  /** `insert`: the new entry goes after every entry of length <= its own. */
  function Insert(s: seq<Block>, b: Block): (r: seq<Block>)
    ensures |r| == |s| + 1
    ensures multiset(r) == multiset(s) + multiset{b}
    ensures var k := UpperBound(s, Bytes(b));
      && r[k] == b
      && (forall j :: 0 <= j < k ==> r[j] == s[j])
      && (forall j :: k < j < |r| ==> r[j] == s[j - 1])
    decreases |s|
  {
    if s == [] || Bytes(s[0]) > Bytes(b) then
      assert UpperBound(s, Bytes(b)) == 0;
      [b] + s
    else
      var t: seq<Block> := s[1..];
      var tail: seq<Block> := Insert(t, b);
      assert s == [s[0]] + t;
      assert UpperBound(s, Bytes(b)) == UpperBound(t, Bytes(b)) + 1;
      ConsInserted(s[0], tail, t, b, UpperBound(t, Bytes(b)));
      [s[0]] + tail
  }

  /** Prepending one entry to both a sequence and its insertion shifts the
      inserted position by one. */
  lemma ConsInserted(a: Block, tail: seq<Block>, t: seq<Block>, b: Block, k: nat)
    requires |tail| == |t| + 1 && k <= |t| && tail[k] == b
    requires forall j :: 0 <= j < k ==> tail[j] == t[j]
    requires forall j :: k < j < |tail| ==> tail[j] == t[j - 1]
    requires multiset(tail) == multiset(t) + multiset{b}
    ensures multiset([a] + tail) == multiset([a] + t) + multiset{b}
    ensures ([a] + tail)[k + 1] == b
    ensures forall j :: 0 <= j < k + 1 ==> ([a] + tail)[j] == ([a] + t)[j]
    ensures forall j :: k + 1 < j < |tail| + 1 ==> ([a] + tail)[j] == ([a] + t)[j - 1]
  {
  }

  /** Erasing an entry keeps the index sorted. */
  lemma EraseAtKeepsSorted(s: seq<Block>, i: nat)
    requires Sorted(s) && i < |s|
    ensures Sorted(EraseAt(s, i))
  {
  }

  /** Inserting after every entry of length <= its own keeps the index sorted. */
  lemma InsertKeepsSorted(s: seq<Block>, b: Block)
    requires Sorted(s)
    ensures Sorted(Insert(s, b))
  {
    var k := UpperBound(s, Bytes(b));
    var r := Insert(s, b);
    forall i, j | 0 <= i < j < |r| ensures Bytes(r[i]) <= Bytes(r[j]) {
      if j < k {
        assert r[i] == s[i] && r[j] == s[j];
      } else if j == k {
        assert r[i] == s[i];
      } else if i == k {
        assert r[j] == s[j - 1];
        assert Bytes(s[k]) > Bytes(b);
      } else if i < k {
        assert r[i] == s[i] && r[j] == s[j - 1];
      } else {
        assert r[i] == s[i - 1] && r[j] == s[j - 1];
      }
    }
  }

  /** `erase(lower_bound(e))` as written at the two merge sites: removes the
      first entry at least as long as `e`, which need not be `e` itself.
      When there is no such entry the C++ call erases `end()`, which is
      undefined; the model leaves the index unchanged then. */
  function EraseLowerBound(s: seq<Block>, e: Block): (r: seq<Block>)
    ensures var i := LowerBound(s, Bytes(e));
      i < |s| ==>
        && |r| == |s| - 1
        && Bytes(s[i]) >= Bytes(e)
        && (forall j :: 0 <= j < i ==> Bytes(s[j]) < Bytes(e) && r[j] == s[j])
        && (forall j :: i <= j < |r| ==> r[j] == s[j + 1])
        && multiset(r) == multiset(s) - multiset{s[i]}
    ensures (forall b :: b in s ==> Bytes(b) < Bytes(e)) ==> r == s
  {
    var i := LowerBound(s, Bytes(e));
    if i < |s| then EraseAt(s, i) else s
  }

  /** Removal of the exact entry `e` (its first occurrence). */
  function EraseBlock(s: seq<Block>, e: Block): (r: seq<Block>)
    ensures multiset(r) == multiset(s) - multiset{e}
    ensures e in s ==> |r| == |s| - 1
    ensures e !in s ==> r == s
  {
    var i := IndexOf(s, e);
    if i < |s| then EraseAt(s, i) else s
  }

  lemma EraseLowerBoundKeepsSorted(s: seq<Block>, e: Block)
    requires Sorted(s)
    ensures Sorted(EraseLowerBound(s, e))
  {
    if LowerBound(s, Bytes(e)) < |s| {
      EraseAtKeepsSorted(s, LowerBound(s, Bytes(e)));
    }
  }

  lemma EraseBlockKeepsSorted(s: seq<Block>, e: Block)
    requires Sorted(s)
    ensures Sorted(EraseBlock(s, e))
  {
    if IndexOf(s, e) < |s| {
      EraseAtKeepsSorted(s, IndexOf(s, e));
    }
  }

  /** In a sorted index, the entry `lower_bound(n)` finds is a shortest entry
      among those of length at least `n`: this is best fit. */
  lemma LowerBoundIsBestFit(s: seq<Block>, n: nat)
    requires Sorted(s)
    requires LowerBound(s, n) < |s|
    ensures forall b :: b in s && Bytes(b) >= n ==> Bytes(s[LowerBound(s, n)]) <= Bytes(b)
  {
    var i := LowerBound(s, n);
    forall b | b in s && Bytes(b) >= n
      ensures Bytes(s[i]) <= Bytes(b)
    {
      var j :| 0 <= j < |s| && s[j] == b;
    }
  }

  /** In a sorted index that holds `e`, `lower_bound(e)` finds an entry of
      exactly `e`'s length (the first one). */
  lemma LowerBoundOfMember(s: seq<Block>, e: Block)
    requires Sorted(s) && e in s
    ensures LowerBound(s, Bytes(e)) < |s|
    ensures Bytes(s[LowerBound(s, Bytes(e))]) == Bytes(e)
  {
    var j :| 0 <= j < |s| && s[j] == e;
    assert LowerBound(s, Bytes(e)) <= j;
  }

  /** In a sorted index that holds `e`, `erase(lower_bound(e))` removes one
      entry of `e`'s length: the first one, which need not be `e`. */
  lemma EraseLowerBoundOfMember(s: seq<Block>, e: Block)
    requires Sorted(s) && e in s
    ensures var i := LowerBound(s, Bytes(e));
      && i < |s| && Bytes(s[i]) == Bytes(e)
      && |EraseLowerBound(s, e)| == |s| - 1
      && multiset(EraseLowerBound(s, e)) == multiset(s) - multiset{s[i]}
  {
    LowerBoundOfMember(s, e);
  }

  /** `erase(lower_bound(e))` removes `e` itself when `e` is the entry that
      `lower_bound` finds. */
  lemma FirstOfItsLength(s: seq<Block>, e: Block)
    requires LowerBound(s, Bytes(e)) < |s| && s[LowerBound(s, Bytes(e))] == e
    ensures EraseLowerBound(s, e) == EraseBlock(s, e)
  {
    assert IndexOf(s, e) == LowerBound(s, Bytes(e)) by {
      var k := IndexOf(s, e);
      assert k <= LowerBound(s, Bytes(e));
      assert k < |s| && s[k] == e;
    }
  }

  /** Conversely, for an `e` in the index, `erase(lower_bound(e))` removes
      `e` itself only when `e` is the entry that `lower_bound` finds. */
  lemma RemovesOnlyIfFirst(s: seq<Block>, e: Block)
    requires e in s
    requires EraseLowerBound(s, e) == EraseBlock(s, e)
    ensures LowerBound(s, Bytes(e)) < |s| && s[LowerBound(s, Bytes(e))] == e
  {
    var i := LowerBound(s, Bytes(e));
    var m := multiset(s);
    assert |EraseBlock(s, e)| == |s| - 1;
    assert i < |s|;
    assert m - multiset{s[i]} == m - multiset{e};
    assert (m - multiset{s[i]})[e] == m[e] - 1;
  }

  /** When `e` is the only entry of its length, it is the first one. */
  lemma OnlyOfItsLength(s: seq<Block>, e: Block)
    requires Sorted(s) && e in s
    requires forall b :: b in s && Bytes(b) == Bytes(e) ==> b == e
    ensures LowerBound(s, Bytes(e)) < |s| && s[LowerBound(s, Bytes(e))] == e
  {
    LowerBoundOfMember(s, e);
  }
}
