/** `OffsetPtr`: pointers stored relative to their own address, so that every process may map the
    segment somewhere else. */
module Offsets {
  import opened Segments
  import opened Chains
  import opened Sanity
  import opened Heaps

  const MAX_OFFSET: int := 0x7fff_ffff_ffff_ffff
  /** The offset that stands for the null pointer. */
  const NULL_OFFSET: int := 1

  datatype Offset = Offset(value: int) | Unrepresentable

  /** `try_make_offset`. */
  function TryMakeOffset(self: Word, ptr: Word): Offset {
    if ptr >= self then
      var diff := ptr - self;
      if diff > MAX_OFFSET || diff == NULL_OFFSET then Unrepresentable else Offset(diff)
    else
      var diff := self - ptr;
      if diff > MAX_OFFSET then Unrepresentable else Offset(-diff)
  }

  /** `set_pointer`; null is always representable. */
  function SetPointer(self: Word, ptr: Word): Offset {
    if ptr == 0 then Offset(NULL_OFFSET) else TryMakeOffset(self, ptr)
  }

  /** `get`, at the address where the pointer is mapped. */
  function Get(self: Word, offset: int): int {
    if offset == NULL_OFFSET then 0 else self + offset
  }

  /** What was stored is read back, in every mapping of the segment: a pointer and its target that
      both moved by `d` still belong together. Only the byte right behind the pointer and targets
      out of range cannot be stored. */
  lemma OffsetRoundTrip(self: Word, ptr: Word, d: int)
    requires 0 <= self + d < WORD
    ensures SetPointer(self, ptr) == Unrepresentable <==>
              ptr != 0 && (ptr == self + 1 || ptr - self > MAX_OFFSET || self - ptr > MAX_OFFSET)
    ensures SetPointer(self, ptr).Offset? ==>
              Get(self + d, SetPointer(self, ptr).value) == (if ptr == 0 then 0 else ptr + d)
    ensures SetPointer(self, ptr).Offset? && ptr != 0 ==> SetPointer(self, ptr).value != NULL_OFFSET
  {
  }

  // ---------------------------------------------------------------- another mapping

  /** Where a pointer points to after the segment moved by `d`; null stays null. */
  function Moved(p: int, d: int): int { if p == 0 then 0 else p + d }

  function MovedHeader(h: Header, d: int): Header { h.(next := Moved(h.next, d)) }

  /** `m'` is the segment `m` as a process sees it that has mapped it `d` bytes further up. */
  ghost predicate Remapped(m: Segment, m': Segment, d: int) {
    && m'.base == m.base + d && m'.first == m.first + d && m'.size == m.size && m'.head == Moved(m.head, d)
    && (forall a :: m'.Hdr(a + d) == MovedHeader(m.Hdr(a), d))
  }

  ghost function MovedBlocks(bs: seq<Block>, d: int): seq<Block> {
    seq(|bs|, i requires 0 <= i < |bs| => Block(bs[i].addr + d, bs[i].size, bs[i].free))
  }

  lemma MovedSplit(bs: seq<Block>, d: int)
    requires bs != []
    ensures MovedBlocks(bs, d)[0] == Block(bs[0].addr + d, bs[0].size, bs[0].free)
    ensures MovedBlocks(bs, d)[1..] == MovedBlocks(bs[1..], d)
  {
  }

  /** The chain walk commutes with the move. */
  lemma {:induction false} ChainRebased(m: Segment, m': Segment, a: int, end: int, bs: seq<Block>, d: int)
    requires Chain(m, a, end, bs) && Remapped(m, m', d)
    ensures Chain(m', a + d, end + d, MovedBlocks(bs, d))
    decreases |bs|
  {
    if bs != [] {
      assert m'.Hdr(a + d) == MovedHeader(m.Hdr(a), d);
      MovedSplit(bs, d);
      ChainRebased(m, m', a + bs[0].size, end, bs[1..], d);
    }
  }

  /** The walk along the free list commutes with the move. */
  lemma {:induction false} ListRebased(m: Segment, m': Segment, p: int, fs: seq<Block>, d: int)
    requires List(m, p, 0, fs) && Remapped(m, m', d) && forall b :: b in fs ==> b.addr + d != 0
    ensures List(m', Moved(p, d), 0, MovedBlocks(fs, d))
    decreases |fs|
  {
    if fs != [] {
      assert m'.Hdr(p + d) == MovedHeader(m.Hdr(p), d);
      MovedSplit(fs, d);
      assert fs[0] in fs && forall b :: b in fs[1..] ==> b in fs;
      ListRebased(m, m', m.Next(p), fs[1..], d);
    }
  }

  lemma MovedMember(bs: seq<Block>, d: int, b: Block)
    ensures b in MovedBlocks(bs, d) <==> b.(addr := b.addr - d) in bs
  {
    var r := MovedBlocks(bs, d);
    if i :| 0 <= i < |r| && r[i] == b {
      assert bs[i] == b.(addr := b.addr - d);
    }
    if i :| 0 <= i < |bs| && bs[i] == b.(addr := b.addr - d) {
      assert r[i] == b;
    }
  }

  /** A heap is a heap in every mapping: the same blocks, the same free list, moved. */
  lemma HeapRebased(m: Segment, m': Segment, bs: seq<Block>, fs: seq<Block>, d: int)
    requires Heap(m, bs, fs) && Remapped(m, m', d) && d % ALIGNMENT == 0 && 0 < m.base + d && m.End() + d < WORD
    ensures Heap(m', MovedBlocks(bs, d), MovedBlocks(fs, d))
  {
    hide Chain, List, WellFormed, MovedBlocks;
    ChainBounds(m, m.first, m.End(), bs);
    assert forall b :: b in fs ==> b.addr + d != 0 by { ListedInChain(bs, fs); }
    ChainRebased(m, m', m.first, m.End(), bs, d);
    ListRebased(m, m', m.head, fs, d);
    WellFormedMoved(bs, fs, d);
  }

  lemma ListedInChain(bs: seq<Block>, fs: seq<Block>)
    requires WellFormed(bs, fs)
    ensures forall b :: b in fs ==> b in bs
  {
  }

  lemma WellFormedMoved(bs: seq<Block>, fs: seq<Block>, d: int)
    requires WellFormed(bs, fs)
    ensures WellFormed(MovedBlocks(bs, d), MovedBlocks(fs, d))
  {
    forall b ensures b in MovedBlocks(fs, d) <==> b in MovedBlocks(bs, d) && b.free {
      MovedMember(fs, d, b);
      MovedMember(bs, d, b);
    }
    forall b | b in MovedBlocks(bs, d) ensures b.(addr := b.addr - d) in bs {
      MovedMember(bs, d, b);
    }
  }
}
