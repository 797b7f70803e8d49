/** The ordered indices keyed by `front` (`std::set<entity>` ordered by
    `entity_ordering_by_front_address__`), as maps from a block's front to the
    block. Two entities are equivalent under that ordering exactly when their
    fronts are equal, so a map keyed by front holds what the set can hold. */
module AddressIndex {
  import opened Wrappers
  import opened Blocks

  /** The container's own invariant: every entry sits at its front. */
  ghost predicate KeyedByFront(m: map<nat, Block>)
  {
    forall k {:trigger m[k]} :: k in m ==> m[k].front == k
  }

  /** `std::set::insert`: adds `b` unless an entry with the same front is
      already present, in which case the set is left as it is. */
  function Insert(m: map<nat, Block>, b: Block): (r: map<nat, Block>)
    ensures r.Keys == m.Keys + {b.front}
    ensures forall k :: k in m ==> r[k] == m[k]
    ensures b.front !in m ==> r[b.front] == b
    ensures KeyedByFront(m) ==> KeyedByFront(r)
  {
    if b.front in m then m else m[b.front := b]
  }

  /** `std::set::erase(key)`: removes the entry with that front, if any. */
  function Erase(m: map<nat, Block>, front: nat): (r: map<nat, Block>)
    ensures r.Keys == m.Keys - {front}
    ensures forall k :: k in r ==> r[k] == m[k]
    ensures KeyedByFront(m) ==> KeyedByFront(r)
  {
    m - {front}
  }

  lemma MaxExists(s: set<nat>)
    requires s != {}
    ensures exists m :: m in s && forall j :: j in s ==> j <= m
  {
    var x :| x in s;
    var rest := s - {x};
    if rest == {} {
      forall j | j in s ensures j <= x {
        assert j !in rest;
      }
      assert x in s && forall j :: j in s ==> j <= x;
    } else {
      MaxExists(rest);
      var m :| m in rest && forall j :: j in rest ==> j <= m;
      var greatest := if x > m then x else m;
      forall j | j in s ensures j <= greatest {
        if j != x {
          assert j in rest;
        }
      }
      assert greatest in s && forall j :: j in s ==> j <= greatest;
    }
  }

  lemma MinExists(s: set<nat>)
    requires s != {}
    ensures exists m :: m in s && forall j :: j in s ==> m <= j
  {
    var x :| x in s;
    var rest := s - {x};
    if rest == {} {
      forall j | j in s ensures x <= j {
        assert j !in rest;
      }
      assert x in s && forall j :: j in s ==> x <= j;
    } else {
      MinExists(rest);
      var m :| m in rest && forall j :: j in rest ==> m <= j;
      var least := if x < m then x else m;
      forall j | j in s ensures least <= j {
        if j != x {
          assert j in rest;
        }
      }
      assert least in s && forall j :: j in s ==> least <= j;
    }
  }

  /** The greatest element of a finite, non-empty set of addresses. */
  function Max(s: set<nat>): (m: nat)
    requires s != {}
    ensures m in s && forall j :: j in s ==> j <= m
  {
    MaxExists(s);
    var m :| m in s && forall j :: j in s ==> j <= m;
    m
  }

  /** The least element of a finite, non-empty set of addresses. */
  function Min(s: set<nat>): (m: nat)
    requires s != {}
    ensures m in s && forall j :: j in s ==> m <= j
  {
    MinExists(s);
    var m :| m in s && forall j :: j in s ==> m <= j;
    m
  }

  /** `get_preview_free`: `lower_bound(p)`, stepped back one entry unless it is
      the first, and refused if its front lies beyond `p`. The result is the
      entry with the greatest front below `p`; when no front lies below `p`,
      it is the entry at `p` itself if there is one. */
  function Preceding(m: map<nat, Block>, p: nat): (r: Option<Block>)
    ensures r.None? <==> forall k :: k in m ==> k > p
    ensures KeyedByFront(m) && r.Some? ==>
      r.value.front in m && m[r.value.front] == r.value && r.value.front <= p
    ensures KeyedByFront(m) && r.Some? ==>
      forall k :: k in m && k < p ==> k <= r.value.front
    ensures KeyedByFront(m) && r.Some? && r.value.front == p ==>
      forall k :: k in m ==> k >= p
  {
    var below := set k | k in m && k < p;
    assert forall k :: k in m && k < p ==> k in below;
    if below != {} then Some(m[Max(below)])
    else if p in m then Some(m[p])
    else None
  }

  /** `get_next_free`: `upper_bound(p)`, the entry with the least front
      above `p`. */
  function Next(m: map<nat, Block>, p: nat): (r: Option<Block>)
    ensures r.None? <==> forall k :: k in m ==> k <= p
    ensures KeyedByFront(m) && r.Some? ==>
      r.value.front in m && m[r.value.front] == r.value && r.value.front > p
    ensures KeyedByFront(m) && r.Some? ==>
      forall k :: k in m && k > p ==> r.value.front <= k
  {
    var above := set k | k in m && k > p;
    assert forall k :: k in m && k > p ==> k in above;
    if above != {} then Some(m[Min(above)]) else None
  }
}
