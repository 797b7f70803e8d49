/** The `entity` of the allocator: a half-open address range [front, back). */
module Blocks {
  import opened Wrappers

  datatype Range = Range(front: nat, back: nat)

  /** Every entity that can exist satisfies front <= back: the checking
      constructor refuses the others, and the search keys are [p, p). */
  type Block = r: Range | r.front <= r.back witness Range(0, 0)

  /** The checking constructor `entity(f, b)`. */
  function MakeBlock(front: nat, back: nat): (r: Result<Block>)
    ensures r.InvalidArgument? <==> front > back
    ensures r.Ok? ==> r.value.front == front && r.value.back == back
    ensures r.Ok? ==> Bytes(r.value) + front == back
  {
    if front > back then InvalidArgument else Ok(Range(front, back))
  }

  /** `get_bytes_count`: the number of bytes the block spans. */
  function Bytes(b: Block): (r: nat)
    ensures b.front + r == b.back
  {
    b.back - b.front
  }

  /** `b.close_left(e)`: `e` ends exactly where `b` starts. */
  predicate CloseLeft(b: Block, e: Block): (r: bool)
    ensures r <==> CloseRight(e, b)
    ensures r ==> Bytes(Range(e.front, b.back)) == Bytes(e) + Bytes(b)
  {
    b.front == e.back
  }

  /** `b.close_right(e)`: `e` starts exactly where `b` ends. */
  predicate CloseRight(b: Block, e: Block): (r: bool)
    ensures r ==> b.front <= e.back && Bytes(Range(b.front, e.back)) == Bytes(b) + Bytes(e)
  {
    b.back == e.front
  }

  /** `offset_void_ptr`: the address `bytes` bytes past `ptr`. */
  function Offset(ptr: nat, bytes: nat): (r: nat)
    ensures ptr <= r && r - ptr == bytes
  {
    ptr + bytes
  }

  /** The two adjacency predicates are mirror images, and two adjacent blocks
      join into one block whose length is the sum of theirs. */
  lemma AdjacencyJoins(b: Block, e: Block)
    ensures CloseLeft(b, e) <==> CloseRight(e, b)
    ensures CloseLeft(b, e) ==>
      MakeBlock(e.front, b.back).Ok? && Bytes(MakeBlock(e.front, b.back).value) == Bytes(e) + Bytes(b)
  {
  }
}
