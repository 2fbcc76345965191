/** The shared segment as the block allocator sees it: typed headers addressed
    by location, and the single stores that change them. */
module Segments {
  const WORD: int := 0x1_0000_0000_0000_0000
  const ALIGNMENT: int := 16
  const HEADER_SIZE: int := 32
  const ALLOCATION_HEADER_SIZE: int := 16
  /** The smallest block the allocator splits off, `sizeof(BlockHeader) + alignment`. */
  const MIN_BLOCK: int := 48

  /** A `std::size_t` or `uintptr_t`. */
  type Word = x: int | 0 <= x < WORD

  /** `BlockHeader`; the address 0 is the null pointer. */
  datatype Header = Header(size: Word, free: bool, next: int)

  /** `AllocationHeader`, the 16 bytes in front of a payload. */
  datatype AllocationHeader = AllocationHeader(block: int, requested: Word)

  /** Arbitrary bytes. Where no header is recorded, the size reads as zero, the flag as in use and the link as null. */
  datatype Segment = Segment(
    base: int,
    first: int,
    size: int,
    head: int,
    headers: map<int, Header>,
    allocations: map<int, AllocationHeader>)
  {
    function End(): int { base + size }

    function Hdr(a: int): Header {
      if a in headers then headers[a] else Header(0, false, 0)
    }

    function Size(a: int): Word { Hdr(a).size }

    function Free(a: int): bool { Hdr(a).free }

    function Next(a: int): int { Hdr(a).next }

    function Allocation(p: int): AllocationHeader {
      if p in allocations then allocations[p] else AllocationHeader(0, 0)
    }

    /** The walks give up after visiting this many blocks. */
    function MaxBlocks(): int { size / ALIGNMENT + 1 }

    /** The region is mapped: its addresses are real 64-bit addresses. */
    predicate Mapped() {
      && 0 < base <= first
      && first % ALIGNMENT == 0
      && first <= End() < WORD
    }
  }

  /** Reduction modulo 2^64, as unsigned arithmetic performs it. */
  function Wrap(x: int): (w: Word)
    ensures 0 <= x < WORD ==> w == x
    decreases if x < 0 then WORD - x else x
  {
    if x < 0 then Wrap(x + WORD) else if x < WORD then x else Wrap(x - WORD)
  }

  /** One machine store into the segment. */
  datatype Store =
    | SetSize(a: int, size: Word)
    | SetFree(a: int, free: bool)
    | SetNext(a: int, next: int)
    | SetHead(head: int)
    | SetSegmentSize(newSize: int)
    | SetBlock(p: int, block: int)
    | SetRequested(p: int, requested: Word)

  function Apply(m: Segment, s: Store): Segment {
    match s
    case SetSize(a, v) => m.(headers := m.headers[a := m.Hdr(a).(size := v)])
    case SetFree(a, v) => m.(headers := m.headers[a := m.Hdr(a).(free := v)])
    case SetNext(a, v) => m.(headers := m.headers[a := m.Hdr(a).(next := v)])
    case SetHead(v) => m.(head := v)
    case SetSegmentSize(v) => m.(size := v)
    case SetBlock(p, v) => m.(allocations := m.allocations[p := m.Allocation(p).(block := v)])
    case SetRequested(p, v) => m.(allocations := m.allocations[p := m.Allocation(p).(requested := v)])
  }

  /** The segment after a list of stores, performed in program order. */
  function ApplyAll(m: Segment, ss: seq<Store>): Segment
    decreases |ss|
  {
    if ss == [] then m else ApplyAll(Apply(m, ss[0]), ss[1..])
  }

  lemma {:induction false} ApplyConcat(m: Segment, ss: seq<Store>, tt: seq<Store>)
    ensures ApplyAll(m, ss + tt) == ApplyAll(ApplyAll(m, ss), tt)
    decreases |ss|
  {
    if ss == [] {
      assert ss + tt == tt;
    } else {
      assert (ss + tt)[0] == ss[0] && (ss + tt)[1..] == ss[1..] + tt;
      ApplyConcat(Apply(m, ss[0]), ss[1..], tt);
    }
  }

  lemma ApplyOne(m: Segment, s: Store)
    ensures ApplyAll(m, [s]) == Apply(m, s)
  {
    assert [s][1..] == [];
  }
}
