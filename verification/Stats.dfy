/** `get_stats`: one walk over the chain and one over the free list, on arbitrary header memory. */
module AllocatorStats {
  import opened Segments
  import opened Chains
  import opened Sanity

  datatype Stats = Stats(
    managedBytes: int, blockCount: nat, freeBlockCount: nat, allocatedBlockCount: nat,
    freeBlockBytes: int, allocatedBlockBytes: int, freePayloadBytes: int, largestFreeBlock: int,
    largestFreePayload: int,
    freeListCount: nat, sane: bool)

  // ---------------------------------------------------------------- what the numbers mean

  function Count(bs: seq<Block>, free: bool): nat {
    if bs == [] then 0 else (if bs[0].free == free then 1 else 0) + Count(bs[1..], free)
  }

  function Bytes(bs: seq<Block>, free: bool): int {
    if bs == [] then 0 else (if bs[0].free == free then bs[0].size else 0) + Bytes(bs[1..], free)
  }

  function Largest(bs: seq<Block>): int {
    if bs == [] then 0
    else
      var rest := Largest(bs[1..]);
      if bs[0].free && bs[0].size > rest then bs[0].size else rest
  }

  lemma {:induction false} SumsSnoc(bs: seq<Block>, b: Block, free: bool)
    ensures Count(bs + [b], free) == Count(bs, free) + if b.free == free then 1 else 0
    ensures Bytes(bs + [b], free) == Bytes(bs, free) + if b.free == free then b.size else 0
    ensures Largest(bs + [b]) == if b.free && b.size > Largest(bs) then b.size else Largest(bs)
    decreases |bs|
  {
    if bs == [] {
      assert [b][1..] == [] && [] + [b] == [b];
    } else {
      assert (bs + [b])[0] == bs[0] && (bs + [b])[1..] == bs[1..] + [b];
      SumsSnoc(bs[1..], b, free);
    }
  }

  /** The numbers of two parts add up, and a block counts for its own kind only. */
  lemma {:induction false} SumsAdd(xs: seq<Block>, ys: seq<Block>, free: bool)
    ensures Count(xs + ys, free) == Count(xs, free) + Count(ys, free)
    ensures Bytes(xs + ys, free) == Bytes(xs, free) + Bytes(ys, free)
    ensures forall b :: Bytes([b], free) == (if b.free == free then b.size else 0)
    decreases |xs|
  {
    forall b ensures Bytes([b], free) == (if b.free == free then b.size else 0) {
      assert [b][1..] == [];
    }
    if xs == [] {
      assert xs + ys == ys;
    } else {
      assert (xs + ys)[0] == xs[0] && (xs + ys)[1..] == xs[1..] + ys;
      SumsAdd(xs[1..], ys, free);
    }
  }

  /** Every byte behind the manager's header is either free or allocated. */
  lemma {:induction false} BytesConserved(m: Segment, a: int, end: int, bs: seq<Block>)
    requires Chain(m, a, end, bs)
    ensures Bytes(bs, true) + Bytes(bs, false) == end - a && Count(bs, true) + Count(bs, false) == |bs|
    decreases |bs|
  {
    if bs != [] {
      BytesConserved(m, a + bs[0].size, end, bs[1..]);
    }
  }

  lemma {:induction false} LargestIsLargest(bs: seq<Block>)
    ensures forall b :: b in bs && b.free ==> b.size <= Largest(bs)
    ensures Largest(bs) != 0 ==> exists b :: b in bs && b.free && b.size == Largest(bs)
    decreases |bs|
  {
    if bs != [] {
      LargestIsLargest(bs[1..]);
      assert bs == [bs[0]] + bs[1..];
      if Largest(bs) != 0 && Largest(bs) == Largest(bs[1..]) {
        var b :| b in bs[1..] && b.free && b.size == Largest(bs[1..]);
        assert b in bs;
      } else if Largest(bs) != 0 {
        assert bs[0] in bs && bs[0].free && bs[0].size == Largest(bs);
      }
    }
  }

  lemma {:induction false} FreeCount(bs: seq<Block>)
    requires DistinctAddrs(bs)
    ensures |set b | b in bs && b.free| == Count(bs, true)
    decreases |bs|
  {
    var s := set b | b in bs && b.free;
    if bs != [] {
      var rest := bs[1..];
      assert bs == [bs[0]] + rest && forall i :: 0 <= i < |rest| ==> rest[i] == bs[i + 1];
      FreeCount(rest);
      var t := set b | b in rest && b.free;
      assert bs[0] !in rest;
      assert s == if bs[0].free then t + {bs[0]} else t;
    }
  }

  lemma {:induction false} AllCount(fs: seq<Block>)
    requires DistinctAddrs(fs)
    ensures |set b | b in fs| == |fs|
    decreases |fs|
  {
    if fs != [] {
      var rest := fs[1..];
      assert fs == [fs[0]] + rest;
      assert DistinctAddrs(rest) by { assert forall i :: 0 <= i < |rest| ==> rest[i] == fs[i + 1]; }
      AllCount(rest);
      assert fs[0] !in rest by {
        forall i | 0 <= i < |rest| ensures rest[i] != fs[0] { assert fs[0].addr != fs[i + 1].addr; }
      }
      var s, t := (set b | b in fs), (set b | b in rest);
      assert s == t + {fs[0]};
    }
  }

  /** The free list has as many elements as the chain has free blocks. */
  lemma ListMatchesChain(m: Segment, bs: seq<Block>, fs: seq<Block>)
    requires SaneWith(m, bs, fs)
    ensures |fs| == Count(bs, true)
  {
    ChainAddrs(m, m.first, m.End(), bs);
    ChainBounds(m, m.first, m.End(), bs);
    assert DistinctAddrs(bs) by {
      forall i, j | 0 <= i < j < |bs| ensures bs[i].addr != bs[j].addr {
        assert bs[i].End() <= bs[j].addr && bs[i] in bs;
      }
    }
    ListAcyclic(m, m.head, fs);
    FreeCount(bs);
    AllCount(fs);
    assert (set b | b in fs) == (set b | b in bs && b.free);
  }

  // ---------------------------------------------------------------- the walks

  /** The numbers are those of the blocks `bs`. */
  ghost predicate Describes(st: Stats, bs: seq<Block>) {
    && st.blockCount == |bs| && st.freeBlockCount == Count(bs, true) && st.allocatedBlockCount == Count(bs, false)
    && st.freeBlockBytes == Bytes(bs, true) && st.allocatedBlockBytes == Bytes(bs, false)
    && st.freePayloadBytes == Bytes(bs, true) - HEADER_SIZE * Count(bs, true)
    && st.largestFreeBlock == Largest(bs) && st.largestFreePayload == PayloadOf(Largest(bs))
  }

  /** The bytes of a block behind its header. */
  function PayloadOf(size: int): int { if size > HEADER_SIZE then size - HEADER_SIZE else 0 }

  /** Both maxima are those of the free blocks, and zero if there are none. */
  ghost predicate Maxima(st: Stats, bs: seq<Block>) {
    && (forall b :: b in bs && b.free ==> b.size <= st.largestFreeBlock && b.size - 32 <= st.largestFreePayload)
    && ((exists b :: b in bs && b.free) ==>
          exists b :: b in bs && b.free && b.size == st.largestFreeBlock && b.size - 32 == st.largestFreePayload)
    && ((forall b :: b in bs ==> !b.free) ==> st.largestFreeBlock == 0 && st.largestFreePayload == 0)
  }

  lemma LargestAreMaxima(m: Segment, a: int, end: int, bs: seq<Block>, st: Stats)
    requires Chain(m, a, end, bs) && Describes(st, bs)
    ensures Maxima(st, bs)
  {
    LargestIsLargest(bs);
    ChainBounds(m, a, end, bs);
  }

  function Tally(st: Stats, b: Block): Stats {
    if b.free then
      st.(blockCount := st.blockCount + 1, freeBlockCount := st.freeBlockCount + 1,
          freeBlockBytes := st.freeBlockBytes + b.size, freePayloadBytes := st.freePayloadBytes + b.size - HEADER_SIZE,
          largestFreeBlock := if b.size > st.largestFreeBlock then b.size else st.largestFreeBlock,
          largestFreePayload :=
            if b.size - HEADER_SIZE > st.largestFreePayload then b.size - HEADER_SIZE else st.largestFreePayload)
    else
      st.(blockCount := st.blockCount + 1, allocatedBlockCount := st.allocatedBlockCount + 1,
          allocatedBlockBytes := st.allocatedBlockBytes + b.size)
  }

  lemma TallyDescribes(st: Stats, bs: seq<Block>, b: Block)
    requires Describes(st, bs)
    ensures Describes(Tally(st, b), bs + [b])
  {
    SumsSnoc(bs, b, true);
    SumsSnoc(bs, b, false);
  }

  /** `get_stats`: it terminates on any memory and says `sane` exactly if the self-check does; then the
      numbers are those of the chain, they add up, and both counts of free blocks agree. */
  method GetStats(m: Segment) returns (st: Stats)
    requires m.Mapped()
    ensures st.sane <==> Sane(m)
    ensures forall bs, fs :: m.size != 0 && SaneWith(m, bs, fs) ==>
              Describes(st, bs) && Maxima(st, bs) && st.freeListCount == |fs| == st.freeBlockCount
    ensures st.sane ==> st.freeBlockBytes + st.allocatedBlockBytes == st.managedBytes == m.End() - m.first
  {
    st := Stats(0, 0, 0, 0, 0, 0, 0, 0, 0, 0, false);
    if m.base == 0 || m.size == 0 || m.first == 0 {
      return;
    }
    var sane;
    ghost var seen;
    st, sane, seen := TallyBlocks(m);
    var count, short := CountList(m);
    st := st.(freeListCount := count);
    var checked := CheckSanity(m);
    st := st.(sane := sane && short && checked);
    forall bs, fs | SaneWith(m, bs, fs)
      ensures Describes(st, bs) && Maxima(st, bs) && count == |fs| && |fs| == st.freeBlockCount && short
    {
      hide Describes, Maxima, Chain, List, Exact, Reach;
      assert Sane(m) by { SaneBecause(m, bs, fs); }
      SaneShort(m, bs, fs);
      WalkedAll(m, seen, bs, fs, st);
    }
    if st.sane {
      ghost var bs, fs :| SaneWith(m, bs, fs);
      BytesConserved(m, m.first, m.End(), bs);
    }
  }

  /** The first loop of `get_stats`, and its verdict. */
  method TallyBlocks(m: Segment) returns (st: Stats, sane: bool, ghost seen: seq<Block>)
    requires m.Mapped() && m.size != 0
    ensures Describes(st, seen) && st.managedBytes == m.End() - m.first && st.freeListCount == 0
    ensures Sane(m) ==> sane && Chain(m, m.first, m.End(), seen)
  {
    st := Stats(0, 0, 0, 0, 0, 0, 0, 0, 0, 0, false);
    var current, visited := m.first, 0;
    sane, seen := true, [];
    st := st.(managedBytes := if m.End() > current then m.End() - current else 0);
    if Sane(m) { SaneReaches(m); }
    while current < m.End() && visited < m.MaxBlocks()
      invariant 0 <= visited <= m.MaxBlocks() && st.managedBytes == m.End() - m.first && st.freeListCount == 0
      invariant Sane(m) ==> Chain(m, m.first, current, seen) && Reach(m, current, m.End()) && |seen| == visited
      invariant Describes(st, seen) && 0 <= current
      decreases m.MaxBlocks() - visited
    {
      if Sane(m) {
        ChainAligned(m, m.first, current, seen);
        ReachStep(m, current, m.End());
        ReachStep(m, current + m.Size(current), m.End());
        ReachSnoc(m, m.first, current, seen);
      }
      var size := m.Size(current);
      if current % ALIGNMENT != 0 || size < HEADER_SIZE || size % ALIGNMENT != 0 || Wrap(current + size) > m.End() {
        sane := false;
        break;
      }
      TallyDescribes(st, seen, BlockAt(m, current));
      st := Tally(st, BlockAt(m, current));
      seen := seen + [BlockAt(m, current)];
      current := Wrap(current + size);
      visited := visited + 1;
    }
    if Sane(m) {
      ChainBounds(m, m.first, current, seen);
      ReachStep(m, current, m.End());
    }
    if visited >= m.MaxBlocks() || current != m.End() {
      sane := false;
    }
  }

  lemma SaneBecause(m: Segment, bs: seq<Block>, fs: seq<Block>)
    requires m.size != 0 && SaneWith(m, bs, fs)
    ensures Sane(m)
  {
  }

  /** What the walk has seen is the chain. */
  lemma WalkedAll(m: Segment, seen: seq<Block>, bs: seq<Block>, fs: seq<Block>, st: Stats)
    requires SaneWith(m, bs, fs) && Chain(m, m.first, m.End(), seen) && Describes(st, seen)
    ensures Describes(st, bs) && Maxima(st, bs) && |fs| == st.freeBlockCount
  {
    ChainUnique(m, m.first, m.End(), seen, bs);
    ListMatchesChain(m, bs, fs);
    LargestAreMaxima(m, m.first, m.End(), bs, st);
  }

  /** The second loop of `get_stats`: the length of the free list, or the limit. */
  method CountList(m: Segment) returns (count: nat, short: bool)
    requires m.Mapped()
    ensures forall fs: seq<Block> :: List(m, m.head, 0, fs) && |fs| < m.MaxBlocks() ==> count == |fs| && short
  {
    count := 0;
    var current := m.head;
    ghost var seen: seq<Block> := [];
    while current != 0 && count < m.MaxBlocks()
      invariant 0 <= count == |seen| <= m.MaxBlocks() && List(m, m.head, current, seen)
      decreases m.MaxBlocks() - count
    {
      ListSnoc(m, m.head, current, seen);
      seen := seen + [BlockAt(m, current)];
      current := m.Next(current);
      count := count + 1;
    }
    short := count < m.MaxBlocks();
    forall fs: seq<Block> | List(m, m.head, 0, fs) && |fs| < m.MaxBlocks() ensures count == |fs| && short {
      ListPrefix(m, m.head, current, seen, fs);
      if current == 0 { ListUnique(m, m.head, seen, fs); }
    }
  }

  /** In a sane heap neither walk comes near its limit. */
  lemma SaneShort(m: Segment, bs: seq<Block>, fs: seq<Block>)
    requires m.Mapped() && m.size != 0 && SaneWith(m, bs, fs)
    ensures |bs| < m.MaxBlocks() && |fs| < m.MaxBlocks()
  {
    ChainBounds(m, m.first, m.End(), bs);
    ListMatchesChain(m, bs, fs);
    BytesConserved(m, m.first, m.End(), bs);
  }
}
