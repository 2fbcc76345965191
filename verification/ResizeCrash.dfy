/** What a process leaves behind when it dies between two stores of `grow` or `shrink_to_fit`. Unlike
    the other operations these two move the end of the segment, so bytes that were no header before
    may come to be read as headers. */
module ResizeCrash {
  import opened Segments
  import opened Chains
  import opened Sanity
  import opened Heaps
  import opened HeapSteps
  import opened Operations
  import opened Release
  import opened Resize
  import opened Crash

  // ---------------------------------------------------------------- bytes that look like blocks

  /** The bytes from `from` to `end` read as the blocks `gs`, all in use. */
  ghost predicate Tiles(m: Segment, from: int, end: int, gs: seq<Block>) {
    Chain(m, from, end, gs) && forall b :: b in gs ==> !b.free
  }

  /** The bytes from `from` to `end` happen to look like blocks in use. */
  ghost predicate LooksTiled(m: Segment, from: int, end: int) {
    exists gs: seq<Block> :: Tiles(m, from, end, gs)
  }

  lemma {:induction false} TilesFrame(m: Segment, d: Segment, from: int, end: int, gs: seq<Block>)
    requires forall a :: from <= a ==> d.Size(a) == m.Size(a) && d.Free(a) == m.Free(a)
    requires Tiles(m, from, end, gs)
    ensures Tiles(d, from, end, gs)
  {
    ChainBounds(m, from, end, gs);
    ChainFrame(m, d, from, end, gs);
  }

  lemma TiledFrame(m: Segment, d: Segment, from: int, end: int)
    requires forall a :: from <= a ==> d.Size(a) == m.Size(a) && d.Free(a) == m.Free(a)
    ensures LooksTiled(m, from, end) <==> LooksTiled(d, from, end)
  {
    forall gs ensures Tiles(m, from, end, gs) <==> Tiles(d, from, end, gs) {
      if Tiles(m, from, end, gs) { TilesFrame(m, d, from, end, gs); }
      if Tiles(d, from, end, gs) { TilesFrame(d, m, from, end, gs); }
    }
  }

  /** A chain up to an earlier end is a prefix of every chain up to a later one. */
  lemma {:induction false} ChainPrefix(m: Segment, a: int, mid: int, end: int, xs: seq<Block>, ys: seq<Block>)
    requires Chain(m, a, mid, xs) && Chain(m, a, end, ys) && mid <= end
    ensures |xs| <= |ys| && ys[..|xs|] == xs && Chain(m, mid, end, ys[|xs|..])
    decreases |xs|
  {
    if xs == [] {
      assert ys[0..] == ys;
    } else {
      ChainBounds(m, a, mid, xs);
      assert ys != [] && ys[0] == xs[0];
      ChainPrefix(m, a + xs[0].size, mid, end, xs[1..], ys[1..]);
      assert xs == [xs[0]] + xs[1..] && ys == [ys[0]] + ys[1..];
      assert ys[..|xs|] == [ys[0]] + ys[1..][..|xs| - 1];
      assert ys[1..][|xs[1..]|..] == ys[|xs|..];
    }
  }

  /** The headers show the chain `bs` up to `mid`, perhaps short of the end, and the free list `fs`. */
  ghost predicate Front(d: Segment, mid: int, bs: seq<Block>, fs: seq<Block>) {
    && d.Mapped() && d.size != 0 && mid <= d.End()
    && Chain(d, d.first, mid, bs) && List(d, d.head, 0, fs)
  }

  /** A free block that is not on the list makes the self-check fail, whatever lies behind. */
  lemma TornRejected(d: Segment, mid: int, bs: seq<Block>, fs: seq<Block>, b: Block)
    requires Front(d, mid, bs, fs) && b in bs && b.free && !OnList(fs, b.addr)
    ensures !Sane(d)
  {
    if Sane(d) {
      var bs', fs' :| SaneWith(d, bs', fs');
      ChainPrefix(d, d.first, mid, d.End(), bs, bs');
      assert b in bs';
      ListUnique(d, d.head, fs', fs);
    }
  }

  /** The free list ends before `mid`, so nothing behind it may be free. */
  lemma NoneListedBehind(d: Segment, mid: int, bs: seq<Block>, fs: seq<Block>, bs': seq<Block>, fs': seq<Block>)
    requires Front(d, mid, bs, fs) && Exact(bs, fs) && SaneWith(d, bs', fs') && |bs| <= |bs'|
    requires Chain(d, mid, d.End(), bs'[|bs|..])
    ensures Tiles(d, mid, d.End(), bs'[|bs|..])
  {
    var gs := bs'[|bs|..];
    ChainBounds(d, d.first, mid, bs);
    ChainBounds(d, mid, d.End(), gs);
    ListUnique(d, d.head, fs', fs);
    forall i | 0 <= i < |fs'| ensures fs'[i].addr < mid {
      assert fs[i] in fs;
    }
    assert forall b :: b in fs' ==> b.addr < mid;
    assert forall b :: b in gs ==> b in bs' && mid <= b.addr;
  }

  lemma TilesAppend(d: Segment, mid: int, bs: seq<Block>, fs: seq<Block>, gs: seq<Block>)
    requires Front(d, mid, bs, fs) && Tiles(d, mid, d.End(), gs)
    ensures Chain(d, d.first, d.End(), bs + gs)
    ensures Exact(bs, fs) ==> Exact(bs + gs, fs)
  {
    ChainBounds(d, d.first, mid, bs);
    ChainSplit(d, d.first, d.End(), bs, gs);
  }

  /** With a proper front the self-check accepts exactly what looks tiled behind it. */
  lemma FrontAccepted(d: Segment, mid: int, bs: seq<Block>, fs: seq<Block>)
    requires Front(d, mid, bs, fs) && Exact(bs, fs)
    ensures Sane(d) <==> LooksTiled(d, mid, d.End())
  {
    if Sane(d) {
      var bs', fs' :| SaneWith(d, bs', fs');
      ChainPrefix(d, d.first, mid, d.End(), bs, bs');
      NoneListedBehind(d, mid, bs, fs, bs', fs');
    }
    if gs: seq<Block> :| Tiles(d, mid, d.End(), gs) {
      TilesAppend(d, mid, bs, fs, gs);
      assert SaneWith(d, bs + gs, fs);
    }
  }

  /** A heap whose blocks from `mid` on are all in use. */
  ghost predicate TiledHeap(d: Segment, mid: int, bs: seq<Block>, fs: seq<Block>) {
    exists gs: seq<Block> :: Tiles(d, mid, d.End(), gs) && Heap(d, bs + gs, fs)
  }

  /** And what it accepts is a heap: that of the front, with the tiles as further blocks in use. */
  lemma FrontIsHeap(d: Segment, mid: int, bs: seq<Block>, fs: seq<Block>)
    requires Front(d, mid, bs, fs) && WellFormed(bs, fs) && LooksTiled(d, mid, d.End())
    ensures TiledHeap(d, mid, bs, fs) && IsHeap(d)
  {
    var gs: seq<Block> :| Tiles(d, mid, d.End(), gs);
    TilesAppend(d, mid, bs, fs, gs);
    CoalescedJoin(bs, gs);
    var v := View(bs + gs, fs);
    assert Heap(d, v.blocks, v.frees);
  }

  /** Whatever looks tiled behind the front is part of every heap shown. */
  lemma FrontOf(d: Segment, mid: int, bs: seq<Block>, fs: seq<Block>, v: View)
    requires Front(d, mid, bs, fs) && mid < d.End() && LooksTiled(d, mid, d.End()) && Heap(d, v.blocks, v.frees)
    ensures |bs| < |v.blocks| && v.blocks[..|bs|] == bs && !v.blocks[|v.blocks| - 1].free
  {
    var gs: seq<Block> :| Tiles(d, mid, d.End(), gs);
    TilesAppend(d, mid, bs, fs, gs);
    ChainUnique(d, d.first, d.End(), v.blocks, bs + gs);
    assert gs != [] && gs[|gs| - 1] in gs;
  }

  lemma DiedNext(m: Segment, ss: seq<Store>, k: nat)
    requires k < |ss|
    ensures Died(m, ss, k + 1) == Apply(Died(m, ss, k), ss[k])
  {
    assert ss[..k + 1] == ss[..k] + [ss[k]];
    ApplyConcat(m, ss[..k], [ss[k]]);
    ApplyOne(Died(m, ss, k), ss[k]);
  }

  lemma DiedEnds(m: Segment, ss: seq<Store>)
    ensures Died(m, ss, 0) == m && Died(m, ss, |ss|) == ApplyAll(m, ss)
    ensures ss != [] ==> Died(m, ss, 1) == Apply(m, ss[0])
  {
    assert ss[..|ss|] == ss;
    if ss != [] { DiedNext(m, ss, 0); }
  }

  // ---------------------------------------------------------------- grow

  ghost predicate CanGrow(m: Segment, v: View, size: int) {
    && Heap(m, v.blocks, v.frees) && m.base % ALIGNMENT == 0
    && m.size < size && size % ALIGNMENT == 0 && m.base + size < WORD
    && (GrowsTail(v) ==> v.blocks[|v.blocks| - 1] in v.frees)
  }

  /** `grow` writes a header behind the old end, where the byte of the flag happens to say "in use". */
  ghost predicate StaleFlag(m: Segment, v: View, size: int) {
    !GrowsTail(v) && size - m.size >= MIN_BLOCK && !m.Free(m.End())
  }

  /** Behind the store of the segment size the old heap is a front of the segment. */
  lemma GrowFront(m: Segment, v: View, size: int)
    requires CanGrow(m, v, size)
    ensures Front(Apply(m, SetSegmentSize(size)), m.End(), v.blocks, v.frees)
  {
    var d := Apply(m, SetSegmentSize(size));
    ChainFrame(m, d, m.first, m.End(), v.blocks);
    ListFrame(m, d, m.head, 0, v.frees);
  }

  /** A shape of the old segment is a front of the longer one. */
  lemma ShapeFront(m: Segment, d: Segment, bs: seq<Block>, fs: seq<Block>, size: int)
    requires Shape(m, bs, fs) && m.size < size && m.base + size < WORD && d == Apply(m, SetSegmentSize(size))
    ensures Front(d, m.End(), bs, fs)
  {
    ChainFrame(m, d, m.first, m.End(), bs);
    ListFrame(m, d, m.head, 0, fs);
  }

  /** While the last block is off the list, every prefix of `grow` is rejected. */
  lemma GrowTailDeaths(m: Segment, v: View, size: int, k: nat)
    requires CanGrow(m, v, size) && GrowsTail(v)
    ensures |GrowStores(v, m.size, m.End(), size)| == 6
    ensures 2 <= k < 6 ==> !Sane(Died(m, GrowStores(v, m.size, m.End(), size), k))
  {
    hide Chain, List, Sane, Heap, IndexOf, InsertPos, ApplyAll, Without;
    var pre, t := v.blocks[..|v.blocks| - 1], v.blocks[|v.blocks| - 1];
    var t' := Block(t.addr, t.size + size - m.size, true);
    assert v.blocks == pre + [t];
    var r, i := RemoveStores(v.frees, t), InsertStores(Without(v.frees, t), t');
    assert GrowStores(v, m.size, m.End(), size) == [SetSegmentSize(size), r[0], r[1],
                                                    SetSize(t.addr, Wrap(t'.size)), i[0], i[1]];
    var m2 := Apply(Apply(m, r[0]), r[1]);
    GrowTailEarlier(m, v, t, size);
    GrowTailLater(m, m2, v, pre, t, size);
    TailDeaths(m, size, r[0], r[1], SetSize(t.addr, Wrap(t'.size)), i[0], i[1]);
  }

  /** The stores of the segment size and of two links commute. */
  lemma TailDeaths(m: Segment, size: int, r0: Store, r1: Store, s: Store, i0: Store, i1: Store)
    requires LinkStore(r0) && LinkStore(r1)
    ensures var ss := [SetSegmentSize(size), r0, r1, s, i0, i1];
            && Died(m, ss, 2) == Apply(Apply(m, r0), SetSegmentSize(size))
            && Died(m, ss, 3) == Apply(Apply(Apply(m, r0), r1), SetSegmentSize(size))
            && Died(m, ss, 4) == Apply(Died(m, ss, 3), s)
            && Died(m, ss, 5) == Apply(Died(m, ss, 4), i0)
  {
    hide ApplyAll;
    var ss := [SetSegmentSize(size), r0, r1, s, i0, i1];
    DiedEnds(m, ss);
    DiedNext(m, ss, 1);
    DiedNext(m, ss, 2);
    DiedNext(m, ss, 3);
    DiedNext(m, ss, 4);
  }

  /** The last block, still of its old size, is off the list. */
  lemma GrowTailEarlier(m: Segment, v: View, t: Block, size: int)
    requires CanGrow(m, v, size) && t in v.blocks && t in v.frees && t.free
    ensures var r := RemoveStores(v.frees, t);
            && !Sane(Apply(Apply(m, r[0]), SetSegmentSize(size)))
            && !Sane(Apply(Apply(Apply(m, r[0]), r[1]), SetSegmentSize(size)))
  {
    hide Chain, List, Sane, WellFormed, IndexOf, InsertPos, ApplyAll;
    var r, fs := RemoveStores(v.frees, t), Without(v.frees, t);
    var m1 := Apply(m, r[0]);
    var m2 := Apply(m1, r[1]);
    UnlinkShape(m, v.blocks, v.frees, t);
    NextKeepsShape(m1, v.blocks, fs, t.addr, 0);
    var d2, d3 := Apply(m1, SetSegmentSize(size)), Apply(m2, SetSegmentSize(size));
    ShapeFront(m1, d2, v.blocks, fs, size);
    ShapeFront(m2, d3, v.blocks, fs, size);
    TornRejected(d2, m.End(), v.blocks, fs, t);
    TornRejected(d3, m.End(), v.blocks, fs, t);
  }

  /** The longer block is still off the list. */
  lemma GrowTailLater(m: Segment, m2: Segment, v: View, pre: seq<Block>, t: Block, size: int)
    requires CanGrow(m, v, size) && GrowsTail(v) && v.blocks == pre + [t] && t in v.frees
    requires m2 == Apply(Apply(m, RemoveStores(v.frees, t)[0]), RemoveStores(v.frees, t)[1])
    ensures var fs, t' := Without(v.frees, t), Block(t.addr, t.size + size - m.size, true);
            var d4 := Apply(Apply(m2, SetSegmentSize(size)), SetSize(t.addr, Wrap(t'.size)));
            !Sane(d4) && !Sane(Apply(d4, InsertStores(fs, t')[0]))
  {
    hide Chain, List, Sane, IndexOf, InsertPos, ApplyAll, Sorted, Coalesced, Exact;
    var fs, t' := Without(v.frees, t), Block(t.addr, t.size + size - m.size, true);
    var r := RemoveStores(v.frees, t);
    TwoStores(m, r[0], r[1], {});
    var d4 := Apply(Apply(m2, SetSegmentSize(size)), SetSize(t.addr, Wrap(t'.size)));
    GrowTailShape(m, v, pre, t, size);
    UnlinkShape(m, v.blocks, v.frees, t);
    InsertShape(d4, pre + [t'], fs, t');
    assert (pre + [t'])[|pre|] == t';
    TornRejected(d4, d4.End(), pre + [t'], fs, t');
    TornRejected(Apply(d4, InsertStores(fs, t')[0]), d4.End(), pre + [t'], fs, t');
  }

  /** A header behind the old end, with the segment ending behind its block. */
  lemma AppendedShape(m: Segment, d: Segment, v: View, size: int)
    requires CanGrow(m, v, size) && !GrowsTail(v) && size - m.size >= MIN_BLOCK
    requires d.base == m.base && d.first == m.first && d.size == size && d.head == m.head
    requires d.Size(m.End()) == size - m.size
    requires forall a :: a != m.End() ==> d.Hdr(a) == m.Hdr(a)
    ensures Shape(d, v.blocks + [Block(m.End(), size - m.size, d.Free(m.End()))], v.frees)
    ensures !OnList(v.frees, m.End())
  {
    hide Chain, List, Sorted, Coalesced;
    var e := m.End();
    TailListed(m, v);
    ChainBounds(m, m.first, e, v.blocks);
    NotListed(v.frees, e);
    ChainFrame(m, d, m.first, e, v.blocks);
    ChainAppend(d, m.first, e, d.End(), v.blocks, Block(e, size - m.size, d.Free(e)));
    ListFrame(m, d, m.head, 0, v.frees);
  }

  lemma ExtraFits(m: Segment, v: View, size: int)
    requires CanGrow(m, v, size)
    ensures 0 < size - m.size < WORD
  {
    NotEmpty(m, v);
  }

  /** From the flag on, every prefix of `grow` is rejected; before it, exactly if the old byte says "free". */
  lemma GrowAppendDeaths(m: Segment, v: View, size: int, k: nat)
    requires CanGrow(m, v, size) && !GrowsTail(v) && size - m.size >= MIN_BLOCK
    ensures var ss := GrowStores(v, m.size, m.End(), size); |ss| == 6
    ensures k == 2 ==> (Sane(Died(m, GrowStores(v, m.size, m.End(), size), k)) <==> !m.Free(m.End()))
    ensures 3 <= k < 6 ==> !Sane(Died(m, GrowStores(v, m.size, m.End(), size), k))
  {
    hide Chain, List, Sane, WellFormed, InsertPos, ApplyAll, Heap, SaneWith;
    var e, fs := m.End(), v.frees;
    var b := Block(e, size - m.size, true);
    var ss := GrowStores(v, m.size, e, size);
    assert 0 <= size - m.size < WORD by { ExtraFits(m, v, size); }
    DiedEnds(m, ss);
    DiedNext(m, ss, 1);
    if k == 2 {
      AppendedDeath(m, Died(m, ss, 2), v, size);
    } else if 3 <= k < 6 {
      DiedNext(m, ss, 2);
      DiedNext(m, ss, 3);
      DiedNext(m, ss, 4);
      AppendedDeath(m, Died(m, ss, k), v, size);
    }
  }

  lemma AppendedDeath(m: Segment, d: Segment, v: View, size: int)
    requires CanGrow(m, v, size) && !GrowsTail(v) && size - m.size >= MIN_BLOCK
    requires d.base == m.base && d.first == m.first && d.size == size && d.head == m.head
    requires d.Size(m.End()) == size - m.size
    requires forall a :: a != m.End() ==> d.Hdr(a) == m.Hdr(a)
    ensures Sane(d) <==> !d.Free(m.End())
    ensures !d.Free(m.End()) ==> Heap(d, v.blocks + [Block(m.End(), size - m.size, false)], v.frees)
  {
    var b := Block(m.End(), size - m.size, d.Free(m.End()));
    AppendedShape(m, d, v, size);
    if b.free {
      TornRejected(d, d.End(), v.blocks + [b], v.frees, b);
    } else {
      CoalescedJoin(v.blocks, [b]);
      assert v.blocks[|v.blocks| - 1] in v.blocks;
      assert Heap(d, v.blocks + [b], v.frees);
      HeapIsSane(d, v.blocks + [b], v.frees);
    }
  }

  /** A death anywhere in `grow`: exactly what the self-check accepts. */
  lemma GrowDeath(m: Segment, v: View, size: int, k: nat)
    requires CanGrow(m, v, size) && k <= |GrowStores(v, m.size, m.End(), size)|
    ensures var ss := GrowStores(v, m.size, m.End(), size);
            Sane(Died(m, ss, k)) <==>
              || k == 0 || k == |ss|
              || (k == 1 && LooksTiled(m, m.End(), m.base + size))
              || (k == 2 && StaleFlag(m, v, size))
  {
    hide Chain, List, Sane, Heap, InsertPos, IndexOf, ApplyAll;
    var ss := GrowStores(v, m.size, m.End(), size);
    DiedEnds(m, ss);
    if k == 0 {
      HeapIsSane(m, v.blocks, v.frees);
    } else if k == |ss| {
      GrowRuns(m, v, size);
      var v' := GrowView(v, m.End(), size - m.size);
      HeapIsSane(Died(m, ss, k), v'.blocks, v'.frees);
    } else if k == 1 {
      GrowFirst(m, v, size);
    } else if GrowsTail(v) {
      GrowTailDeaths(m, v, size, k);
    } else {
      GrowAppendDeaths(m, v, size, k);
    }
  }

  lemma GrowFirst(m: Segment, v: View, size: int)
    requires CanGrow(m, v, size)
    ensures var d := Apply(m, SetSegmentSize(size));
            && (Sane(d) <==> LooksTiled(m, m.End(), m.base + size))
            && (Sane(d) ==> TiledHeap(d, m.End(), v.blocks, v.frees) && IsHeap(d))
  {
    var d := Apply(m, SetSegmentSize(size));
    GrowFront(m, v, size);
    FrontAccepted(d, m.End(), v.blocks, v.frees);
    if Sane(d) { FrontIsHeap(d, m.End(), v.blocks, v.frees); }
    TiledFrame(m, d, m.End(), d.End());
  }

  /** The segment is that of the heap before `grow`, or that of the heap after it. */
  ghost predicate GrowOutcome(m: Segment, v: View, size: int, d: Segment)
    requires CanGrow(m, v, size)
  {
    var v' := GrowView(v, m.End(), size - m.size);
    Heap(d, v.blocks, v.frees) || Heap(d, v'.blocks, v'.frees)
  }

  /** A heap shown behind the old end has a last block in use, so it is neither of the two. */
  lemma NoOutcome(m: Segment, v: View, size: int, d: Segment)
    requires CanGrow(m, v, size) && Front(d, m.End(), v.blocks, v.frees) && m.End() < d.End()
    requires LooksTiled(d, m.End(), d.End())
    ensures !GrowOutcome(m, v, size, d)
  {
    hide Heap, Front, LooksTiled, Inserted, Without;
    var v' := GrowView(v, m.End(), size - m.size);
    assert v' == v || v'.blocks[|v'.blocks| - 1].free;
    if Heap(d, v.blocks, v.frees) { FrontOf(d, m.End(), v.blocks, v.frees, v); }
    if Heap(d, v'.blocks, v'.frees) { FrontOf(d, m.End(), v.blocks, v.frees, v'); }
  }

  lemma NoOutcomeFirst(m: Segment, v: View, size: int)
    requires CanGrow(m, v, size) && LooksTiled(m, m.End(), m.base + size)
    ensures !GrowOutcome(m, v, size, Apply(m, SetSegmentSize(size)))
  {
    var d := Apply(m, SetSegmentSize(size));
    GrowFront(m, v, size);
    TiledFrame(m, d, m.End(), d.End());
    NoOutcome(m, v, size, d);
  }

  lemma NoOutcomeSecond(m: Segment, v: View, size: int)
    requires CanGrow(m, v, size) && StaleFlag(m, v, size)
    ensures !GrowOutcome(m, v, size, Apply(Apply(m, SetSegmentSize(size)), SetSize(m.End(), Wrap(size - m.size))))
  {
    var e, d1 := m.End(), Apply(m, SetSegmentSize(size));
    var d := Apply(d1, SetSize(e, Wrap(size - m.size)));
    ExtraFits(m, v, size);
    var g := Block(e, size - m.size, false);
    AppendedShape(m, d, v, size);
    ChainSplit(d, d.first, d.End(), v.blocks, [g]);
    ChainBounds(m, m.first, e, v.blocks);
    assert Tiles(d, e, d.End(), [g]);
    NoOutcome(m, v, size, d);
  }

  /** `grow` is safe against deaths exactly if the bytes behind the old end neither look like blocks in
      use nor, when a header is about to be written there, hold the flag of a block in use. */
  lemma GrowCrash(m: Segment, v: View, size: int)
    requires CanGrow(m, v, size)
    ensures var ss := GrowStores(v, m.size, m.End(), size);
            (forall k :: 0 <= k <= |ss| && Sane(Died(m, ss, k)) ==> GrowOutcome(m, v, size, Died(m, ss, k)))
            <==> !LooksTiled(m, m.End(), m.base + size) && !StaleFlag(m, v, size)
  {
    hide Chain, List, Sane, Heap, InsertPos, IndexOf, ApplyAll, LooksTiled, GrowOutcome, InsertStores, RemoveStores;
    var ss := GrowStores(v, m.size, m.End(), size);
    GrowEnds(m, v, size);
    forall k | 0 <= k <= |ss|
      ensures Sane(Died(m, ss, k)) ==> GrowOutcome(m, v, size, Died(m, ss, k)) || k == 1 || k == 2
    {
      GrowDeath(m, v, size, k);
    }
    if LooksTiled(m, m.End(), m.base + size) {
      GrowDeath(m, v, size, 1);
      NoOutcomeFirst(m, v, size);
    } else {
      GrowDeath(m, v, size, 1);
      GrowDeath(m, v, size, 2);
      if StaleFlag(m, v, size) {
        DiedNext(m, ss, 1);
        NoOutcomeSecond(m, v, size);
      }
    }
  }

  lemma GrowEnds(m: Segment, v: View, size: int)
    requires CanGrow(m, v, size)
    ensures var ss := GrowStores(v, m.size, m.End(), size);
            && (|ss| == 2 || |ss| == 6) && Died(m, ss, 1) == Apply(m, SetSegmentSize(size))
            && (StaleFlag(m, v, size) ==> |ss| == 6 && ss[1] == SetSize(m.End(), Wrap(size - m.size)))
            && GrowOutcome(m, v, size, Died(m, ss, 0)) && GrowOutcome(m, v, size, Died(m, ss, |ss|))
  {
    hide Chain, List, Heap, InsertPos, IndexOf, ApplyAll;
    DiedEnds(m, GrowStores(v, m.size, m.End(), size));
    GrowRuns(m, v, size);
  }

  /** Stores are safe exactly if every death between them is. */
  lemma {:induction false} SafeAtEveryDeath(m: Segment, ss: seq<Store>)
    ensures SafeStores(m, ss) <==>
            && IsHeap(ApplyAll(m, ss))
            && forall k :: 0 <= k <= |ss| && Sane(Died(m, ss, k)) ==> IsHeap(Died(m, ss, k))
    decreases |ss|
  {
    if ss == [] {
      assert forall k :: 0 <= k <= |ss| ==> ss[..k] == [];
    } else {
      var m1, rest := Apply(m, ss[0]), ss[1..];
      SafeAtEveryDeath(m1, rest);
      assert Died(m, ss, 0) == m;
      forall k | 0 <= k <= |rest| ensures Died(m, ss, k + 1) == Died(m1, rest, k) {
        assert ss[..k + 1][0] == ss[0] && ss[..k + 1][1..] == rest[..k];
      }
      assert forall k :: 0 < k <= |ss| ==> Died(m, ss, k) == Died(m1, rest, k - 1);
    }
  }

  /** Wherever a death in `grow` falls, what the self-check accepts is a heap: that from before or from after, or
      the one from before with bytes behind its end as further blocks in use, which are lost and do no damage. */
  lemma GrowSafe(m: Segment, v: View, size: int)
    requires CanGrow(m, v, size)
    ensures SafeStores(m, GrowStores(v, m.size, m.End(), size))
  {
    hide Chain, List, Sane, Heap, InsertPos, IndexOf, ApplyAll, LooksTiled, SafeStores, IsHeap, InsertStores,
         RemoveStores;
    var ss := GrowStores(v, m.size, m.End(), size);
    SafeAtEveryDeath(m, ss);
    GrowEnds(m, v, size);
    GrowFirst(m, v, size);
    DiedEnds(m, ss);
    forall k | 0 <= k <= |ss| && k != 1 ensures Sane(Died(m, ss, k)) ==> IsHeap(Died(m, ss, k)) {
      GrowDeath(m, v, size, k);
      if k == 2 && StaleFlag(m, v, size) {
        DiedNext(m, ss, 1);
        StaleLeak(m, v, size);
      } else if k == 0 || k == |ss| {
        OutcomeIsHeap(m, v, size, Died(m, ss, k));
      }
    }
    OutcomeIsHeap(m, v, size, Died(m, ss, |ss|));
  }

  lemma OutcomeIsHeap(m: Segment, v: View, size: int, d: Segment)
    requires CanGrow(m, v, size) && GrowOutcome(m, v, size, d)
    ensures IsHeap(d)
  {
  }

  /** Behind a stale flag the new block counts as in use. */
  lemma StaleLeak(m: Segment, v: View, size: int)
    requires CanGrow(m, v, size) && StaleFlag(m, v, size)
    ensures var d := Apply(Apply(m, SetSegmentSize(size)), SetSize(m.End(), Wrap(size - m.size)));
            Heap(d, v.blocks + [Block(m.End(), size - m.size, false)], v.frees) && IsHeap(d)
  {
    var d := Apply(Apply(m, SetSegmentSize(size)), SetSize(m.End(), Wrap(size - m.size)));
    ExtraFits(m, v, size);
    AppendedDeath(m, d, v, size);
    var v' := View(v.blocks + [Block(m.End(), size - m.size, false)], v.frees);
    assert Heap(d, v'.blocks, v'.frees);
  }

  // ---------------------------------------------------------------- shrink_to_fit

  ghost predicate CanShrink(m: Segment, v: View) {
    Heap(m, v.blocks, v.frees) && (Shrinks(v) ==> v.blocks[|v.blocks| - 1] in v.frees)
  }

  /** `shrink_to_fit` cuts the last block instead of dropping it. */
  ghost predicate Cuts(v: View) { Shrinks(v) && Keep(v) != 0 }

  /** Where a cut leaves the end. */
  ghost function CutEnd(v: View): int
    requires Cuts(v)
  {
    v.blocks[0].addr + MIN_BLOCK
  }

  /** The block that a cut leaves. */
  ghost function Stub(v: View): Block
    requires Cuts(v)
  {
    Block(v.blocks[0].addr, MIN_BLOCK, true)
  }

  /** A last block that is dropped goes off the list first. */
  lemma ShrinkDropDeaths(m: Segment, v: View, k: nat)
    requires CanShrink(m, v) && Shrinks(v) && Keep(v) == 0
    ensures |ShrinkStores(v, m.base)| == 3
    ensures 0 < k < 3 ==> !Sane(Died(m, ShrinkStores(v, m.base), k))
  {
    hide Chain, List, Sane, IndexOf, InsertPos, ApplyAll, Sorted, Coalesced, Exact;
    var t := v.blocks[|v.blocks| - 1];
    var ss, fs := ShrinkStores(v, m.base), Without(v.frees, t);
    var m1 := Apply(m, ss[0]);
    UnlinkShape(m, v.blocks, v.frees, t);
    NextKeepsShape(m1, v.blocks, fs, t.addr, 0);
    DiedEnds(m, ss);
    DiedNext(m, ss, 1);
    TornRejected(m1, m.End(), v.blocks, fs, t);
    TornRejected(Apply(m1, ss[1]), m.End(), v.blocks, fs, t);
  }

  /** The stores of a cut, one by one. */
  lemma CutStoreList(m: Segment, v: View)
    requires CanShrink(m, v) && Cuts(v)
    ensures v.frees == v.blocks && v.blocks == [v.blocks[0]] && v.blocks[0].addr == m.first
    ensures var a := m.first;
            ShrinkStores(v, m.base) ==
            [SetHead(0), SetNext(a, 0), SetSize(a, MIN_BLOCK), SetFree(a, true), SetNext(a, 0), SetNext(a, 0),
             SetHead(a), SetSegmentSize(a - m.base + MIN_BLOCK)]
  {
    SingleFree(v);
    var t := v.blocks[0];
    assert Without(v.frees, t) == [];
    assert InsertStores([], Block(t.addr, MIN_BLOCK, true)) == [SetNext(t.addr, 0), SetHead(t.addr)];
    assert RemoveStores(v.frees, t) == [SetHead(0), SetNext(t.addr, 0)];
  }

  /** One free block at the front of the segment, on the list or not. */
  lemma StubFront(m: Segment, d: Segment, v: View, b: Block)
    requires Heap(m, v.blocks, v.frees) && d.base == m.base && d.first == m.first && d.size == m.size
    requires b == BlockAt(d, m.first) && HEADER_SIZE <= b.size && b.size % ALIGNMENT == 0 && b.End() <= m.End()
    ensures d.head == 0 ==> Front(d, b.End(), [b], [])
    ensures d.head == m.first && d.Next(m.first) == 0 ==> Front(d, b.End(), [b], [b])
  {
    assert [b][1..] == [];
    assert Chain(d, b.End(), b.End(), []) && List(d, 0, 0, []);
    assert Chain(d, d.first, b.End(), [b]);
  }

  lemma ShrinkCutEarly(m: Segment, v: View, k: nat)
    requires CanShrink(m, v) && Cuts(v) && 0 < k < 7
    ensures |ShrinkStores(v, m.base)| == 8 && !Sane(Died(m, ShrinkStores(v, m.base), k))
  {
    hide Chain, List, Sane, ApplyAll, ShrinkStores;
    var ss := ShrinkStores(v, m.base);
    CutStoreList(m, v);
    CutBlock(m, v);
    DiedEnds(m, ss);
    DiedNext(m, ss, 1);
    DiedNext(m, ss, 2);
    DiedNext(m, ss, 3);
    DiedNext(m, ss, 4);
    DiedNext(m, ss, 5);
    var d := Died(m, ss, k);
    var b := BlockAt(d, m.first);
    StubFront(m, d, v, b);
    TornRejected(d, b.End(), [b], [], b);
  }

  lemma CutBlock(m: Segment, v: View)
    requires CanShrink(m, v) && Cuts(v)
    ensures v.blocks == [BlockAt(m, m.first)] && m.Free(m.first) && m.first + m.Size(m.first) == m.End()
    ensures m.Size(m.first) % ALIGNMENT == 0 && MIN_BLOCK < m.Size(m.first)
  {
    CutStoreList(m, v);
    var t := v.blocks[0];
    assert [] + [t] == [t];
    LastBlock(m, m.first, m.End(), [], t);
    assert [t][1..] == [];
  }

  /** Only the store of the segment size is missing. */
  lemma ShrinkCutLast(m: Segment, v: View)
    requires CanShrink(m, v) && Cuts(v)
    ensures var ss := ShrinkStores(v, m.base);
            && |ss| == 8
            && Front(Died(m, ss, 7), CutEnd(v), [Stub(v)], [Stub(v)]) && Died(m, ss, 7).End() == m.End()
            && CutEnd(v) < m.End()
    ensures var d := Died(m, ShrinkStores(v, m.base), 7);
            forall a :: CutEnd(v) <= a ==> d.Size(a) == m.Size(a) && d.Free(a) == m.Free(a)
  {
    hide Chain, List, Sane, ApplyAll, ShrinkStores;
    var ss := ShrinkStores(v, m.base);
    CutStoreList(m, v);
    CutBlock(m, v);
    DiedEnds(m, ss);
    DiedNext(m, ss, 1);
    DiedNext(m, ss, 2);
    DiedNext(m, ss, 3);
    DiedNext(m, ss, 4);
    DiedNext(m, ss, 5);
    DiedNext(m, ss, 6);
    StubFront(m, Died(m, ss, 7), v, Stub(v));
  }

  /** A death anywhere in `shrink_to_fit`: exactly what the self-check accepts. */
  lemma ShrinkDeath(m: Segment, v: View, k: nat)
    requires CanShrink(m, v) && k <= |ShrinkStores(v, m.base)|
    ensures var ss := ShrinkStores(v, m.base);
            Sane(Died(m, ss, k)) <==>
              || k == 0 || k == |ss|
              || (k == |ss| - 1 && Cuts(v) && LooksTiled(m, CutEnd(v), m.End()))
  {
    hide Chain, List, Sane, Heap, InsertPos, IndexOf, ApplyAll, InsertStores, RemoveStores, LooksTiled;
    var ss := ShrinkStores(v, m.base);
    DiedEnds(m, ss);
    if k == 0 {
      HeapIsSane(m, v.blocks, v.frees);
    } else if k == |ss| {
      ShrinkRuns(m, v);
      HeapIsSane(Died(m, ss, k), ShrinkView(v).blocks, ShrinkView(v).frees);
    } else if Keep(v) == 0 {
      ShrinkDropDeaths(m, v, k);
    } else {
      ShrinkCutLast(m, v);
      if k == 7 {
        StubAccepted(m, v);
      } else {
        ShrinkCutEarly(m, v, k);
      }
    }
  }

  lemma StubAccepted(m: Segment, v: View)
    requires CanShrink(m, v) && Cuts(v)
    ensures |ShrinkStores(v, m.base)| == 8
    ensures var d := Died(m, ShrinkStores(v, m.base), 7);
            && (Sane(d) <==> LooksTiled(m, CutEnd(v), m.End()))
            && (Sane(d) ==> TiledHeap(d, CutEnd(v), [Stub(v)], [Stub(v)]) && IsHeap(d))
            && (Sane(d) ==> !ShrinkOutcome(m, v, d))
  {
    hide Chain, List, ApplyAll, ShrinkStores, InsertPos, IndexOf;
    ShrinkCutLast(m, v);
    var d, b := Died(m, ShrinkStores(v, m.base), 7), Stub(v);
    SingleWellFormed(b);
    FrontAccepted(d, CutEnd(v), [b], [b]);
    if Sane(d) { FrontIsHeap(d, CutEnd(v), [b], [b]); }
    TiledFrame(m, d, CutEnd(v), m.End());
    if Sane(d) {
      if Heap(d, v.blocks, v.frees) { FrontOf(d, CutEnd(v), [b], [b], v); }
      var v' := ShrinkView(v);
      if Heap(d, v'.blocks, v'.frees) { FrontOf(d, CutEnd(v), [b], [b], v'); }
    }
  }

  /** The segment is that of the heap before `shrink_to_fit`, or that of the heap after it. */
  ghost predicate ShrinkOutcome(m: Segment, v: View, d: Segment)
    requires CanShrink(m, v)
  {
    Heap(d, v.blocks, v.frees) || Heap(d, ShrinkView(v).blocks, ShrinkView(v).frees)
  }

  lemma ShrinkEnds(m: Segment, v: View)
    requires CanShrink(m, v)
    ensures var ss := ShrinkStores(v, m.base);
            ShrinkOutcome(m, v, Died(m, ss, 0)) && ShrinkOutcome(m, v, Died(m, ss, |ss|))
    ensures ShrinkOutcome(m, v, ApplyAll(m, ShrinkStores(v, m.base)))
  {
    hide Heap, ApplyAll;
    DiedEnds(m, ShrinkStores(v, m.base));
    ShrinkRuns(m, v);
  }

  /** `shrink_to_fit` is safe against deaths exactly if it drops its last block or the bytes that it
      cuts off do not look like blocks in use. */
  lemma ShrinkCrash(m: Segment, v: View)
    requires CanShrink(m, v)
    ensures var ss := ShrinkStores(v, m.base);
            (forall k :: 0 <= k <= |ss| && Sane(Died(m, ss, k)) ==> ShrinkOutcome(m, v, Died(m, ss, k)))
            <==> !(Cuts(v) && LooksTiled(m, CutEnd(v), m.End()))
  {
    hide Chain, List, Sane, Heap, ApplyAll, ShrinkStores, LooksTiled, ShrinkOutcome;
    var ss := ShrinkStores(v, m.base);
    ShrinkEnds(m, v);
    forall k | 0 <= k <= |ss|
      ensures Sane(Died(m, ss, k)) ==>
              ShrinkOutcome(m, v, Died(m, ss, k)) || (Cuts(v) && LooksTiled(m, CutEnd(v), m.End()))
    {
      ShrinkDeath(m, v, k);
    }
    if Cuts(v) && LooksTiled(m, CutEnd(v), m.End()) {
      StubAccepted(m, v);
    }
  }

  /** Wherever a death in `shrink_to_fit` falls, what the self-check accepts is a heap. */
  lemma ShrinkSafe(m: Segment, v: View)
    requires CanShrink(m, v)
    ensures SafeStores(m, ShrinkStores(v, m.base))
  {
    hide Chain, List, Sane, Heap, ApplyAll, ShrinkStores, LooksTiled, SafeStores;
    var ss := ShrinkStores(v, m.base);
    SafeAtEveryDeath(m, ss);
    ShrinkEnds(m, v);
    forall k | 0 <= k <= |ss| ensures Sane(Died(m, ss, k)) ==> IsHeap(Died(m, ss, k)) {
      ShrinkDeath(m, v, k);
      if Sane(Died(m, ss, k)) && k != 0 && k != |ss| { StubAccepted(m, v); }
    }
  }

  /** A death behind the first store of `grow` is noticed, and one behind the second leaves a heap with a block
      in use that is neither the heap from before nor the one from after. */
  ghost predicate UnnoticedLeak(m: Segment, v: View, size: int)
    requires CanGrow(m, v, size)
  {
    var ss := GrowStores(v, m.size, m.End(), size);
    && |ss| == 6 && !Sane(Died(m, ss, 1)) && Sane(Died(m, ss, 2))
    && Heap(Died(m, ss, 2), v.blocks + [Block(m.End(), size - m.size, false)], v.frees)
    && !GrowOutcome(m, v, size, Died(m, ss, 2))
  }

  lemma StaleFlagDeath(m: Segment, v: View, size: int)
    requires CanGrow(m, v, size) && StaleFlag(m, v, size) && !LooksTiled(m, m.End(), m.base + size)
    ensures UnnoticedLeak(m, v, size)
  {
    hide Chain, List, Sane, Heap, InsertPos, IndexOf, ApplyAll, LooksTiled, GrowOutcome, InsertStores, RemoveStores;
    GrowEnds(m, v, size);
    GrowDeath(m, v, size, 1);
    GrowDeath(m, v, size, 2);
    DiedNext(m, GrowStores(v, m.size, m.End(), size), 1);
    StaleLeak(m, v, size);
    NoOutcomeSecond(m, v, size);
  }

  /** A death behind the first store of `grow` is accepted, and what it leaves is neither of the two heaps. */
  ghost predicate UnnoticedFirst(m: Segment, v: View, size: int)
    requires CanGrow(m, v, size)
  {
    var ss := GrowStores(v, m.size, m.End(), size);
    |ss| > 1 && Sane(Died(m, ss, 1)) && !GrowOutcome(m, v, size, Died(m, ss, 1))
  }

  lemma TiledDeath(m: Segment, v: View, size: int)
    requires CanGrow(m, v, size) && LooksTiled(m, m.End(), m.base + size)
    ensures UnnoticedFirst(m, v, size)
  {
    hide Chain, List, Sane, Heap, InsertPos, IndexOf, ApplyAll, LooksTiled, GrowOutcome, InsertStores, RemoveStores;
    GrowEnds(m, v, size);
    GrowDeath(m, v, size, 1);
    NoOutcomeFirst(m, v, size);
  }

  // ---------------------------------------------------------------- examples

  /** One block in use, and nothing but zeros behind the end, as a longer file has. */
  function ZeroPageExample(): Segment {
    Segment(16, 16, 64, 0, map[16 := Header(64, false, 0)], map[])
  }

  lemma ZeroPageHeap()
    ensures var m, v := ZeroPageExample(), View([Block(16, 64, false)], []);
            CanGrow(m, v, 128) && StaleFlag(m, v, 128) && !LooksTiled(m, m.End(), m.base + 128)
  {
    var m, b := ZeroPageExample(), Block(16, 64, false);
    assert [b][1..] == [] && Chain(m, 80, 80, []) && Chain(m, m.first, m.End(), [b]);
  }

  /** There a death behind the first store is noticed; one behind the second is not, and leaves a block
      in use that nobody allocated. */
  lemma ZeroPageDeath()
    ensures var m, v := ZeroPageExample(), View([Block(16, 64, false)], []);
            && CanGrow(m, v, 128) && UnnoticedLeak(m, v, 128)
  {
    hide CanGrow, StaleFlag, LooksTiled, UnnoticedLeak;
    ZeroPageHeap();
    StaleFlagDeath(ZeroPageExample(), View([Block(16, 64, false)], []), 128);
  }

  /** One free block with the header of a block in use behind the end, left by a shrink. */
  function StaleExample(): Segment {
    Segment(16, 16, 64, 16, map[16 := Header(64, true, 0), 80 := Header(64, false, 0)], map[])
  }

  lemma StaleExampleHeap()
    ensures var m, v := StaleExample(), View([Block(16, 64, true)], [Block(16, 64, true)]);
            CanGrow(m, v, 128) && LooksTiled(m, m.End(), m.base + 128)
  {
    var m, b, g := StaleExample(), Block(16, 64, true), Block(80, 64, false);
    assert [b][1..] == [] && [g][1..] == [];
    assert Chain(m, 80, 80, []) && List(m, 0, 0, []);
    assert Chain(m, m.first, m.End(), [b]) && List(m, m.head, 0, [b]);
    assert Heap(m, [b], [b]);
    assert Chain(m, 144, 144, []) && Tiles(m, 80, 144, [g]);
  }

  /** There a death behind the first store of `grow` is not noticed. */
  lemma StaleHeaderDeath()
    ensures var m, v := StaleExample(), View([Block(16, 64, true)], [Block(16, 64, true)]);
            CanGrow(m, v, 128) && UnnoticedFirst(m, v, 128)
  {
    hide CanGrow, LooksTiled, UnnoticedFirst;
    StaleExampleHeap();
    TiledDeath(StaleExample(), View([Block(16, 64, true)], [Block(16, 64, true)]), 128);
  }

  /** One free block whose payload holds the header of a block in use, left from before it was freed. */
  function CutExample(): Segment {
    Segment(16, 16, 128, 16, map[16 := Header(128, true, 0), 64 := Header(80, false, 0)], map[])
  }

  lemma CutExampleHeap()
    ensures var m, v := CutExample(), View([Block(16, 128, true)], [Block(16, 128, true)]);
            CanShrink(m, v) && Cuts(v) && LooksTiled(m, CutEnd(v), m.End())
  {
    var m, b, g := CutExample(), Block(16, 128, true), Block(64, 80, false);
    assert [b][1..] == [] && [g][1..] == [];
    assert Chain(m, 144, 144, []) && List(m, 0, 0, []);
    assert Chain(m, m.first, m.End(), [b]) && List(m, m.head, 0, [b]);
    assert Heap(m, [b], [b]);
    assert Tiles(m, 64, 144, [g]);
  }

  /** There a death in front of the last store of `shrink_to_fit` is accepted, and what it leaves is neither the
      heap from before nor the one from after: the bytes that were to be cut off count as a block in use. */
  lemma StalePayloadDeath()
    ensures var m, v := CutExample(), View([Block(16, 128, true)], [Block(16, 128, true)]);
            && CanShrink(m, v) && |ShrinkStores(v, m.base)| == 8
            && Sane(Died(m, ShrinkStores(v, m.base), 7)) && !ShrinkOutcome(m, v, Died(m, ShrinkStores(v, m.base), 7))
  {
    hide CanShrink, Cuts, LooksTiled, ShrinkStores, ShrinkOutcome, Sane;
    CutExampleHeap();
    StubAccepted(CutExample(), View([Block(16, 128, true)], [Block(16, 128, true)]));
  }
}
