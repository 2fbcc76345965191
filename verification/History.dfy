/** History independence: chain and free list are a function of the allocated blocks. */
module History {
  import opened Segments
  import opened Chains
  import opened Sanity
  import opened Heaps
  import opened HeapSteps
  import opened Operations
  import opened Release
  import opened Resize
  import opened Rooms

  /** The same blocks are in use. */
  ghost predicate SameInUse(xs: seq<Block>, ys: seq<Block>) {
    forall b: Block :: !b.free ==> (b in xs <==> b in ys)
  }

  /** If the two tilings start with free blocks, these have the same size. */
  lemma SameGap(m: Segment, m': Segment, a: int, end: int, xs: seq<Block>, ys: seq<Block>)
    requires Chain(m, a, end, xs) && Chain(m', a, end, ys) && Coalesced(xs)
    requires SameInUse(xs, ys) && xs != [] && ys != [] && xs[0].free && ys[0].free
    ensures xs[0].size >= ys[0].size
  {
    ChainBounds(m, a, end, xs);
    ChainBounds(m', a, end, ys);
    if xs[0].size < ys[0].size {
      assert ys[0] in ys;
      assert xs[1..] != [];
      var b := xs[1];
      assert !b.free && b in xs && b.addr == a + xs[0].size by {
        assert xs[1..][0] == b;
      }
      ChainAddrs(m', a, end, ys);
    }
  }

  lemma {:induction false} ChainDetermined(m: Segment, m': Segment, a: int, end: int, xs: seq<Block>, ys: seq<Block>)
    requires Chain(m, a, end, xs) && Chain(m', a, end, ys)
    requires Coalesced(xs) && Coalesced(ys) && SameInUse(xs, ys)
    ensures xs == ys
    decreases |xs|
  {
    ChainBounds(m, a, end, xs);
    ChainBounds(m', a, end, ys);
    if xs != [] && ys != [] {
      SameHead(m, m', a, end, xs, ys);
      assert xs == [xs[0]] + xs[1..] && ys == [ys[0]] + ys[1..];
      CoalescedJoin([xs[0]], xs[1..]);
      CoalescedJoin([ys[0]], ys[1..]);
      ChainBounds(m, a + xs[0].size, end, xs[1..]);
      ChainBounds(m', a + ys[0].size, end, ys[1..]);
      ChainDetermined(m, m', a + xs[0].size, end, xs[1..], ys[1..]);
    }
  }

  lemma SameHead(m: Segment, m': Segment, a: int, end: int, xs: seq<Block>, ys: seq<Block>)
    requires Chain(m, a, end, xs) && Chain(m', a, end, ys) && xs != [] && ys != []
    requires Coalesced(xs) && Coalesced(ys) && SameInUse(xs, ys)
    ensures xs[0] == ys[0]
  {
    ChainAddrs(m, a, end, xs);
    ChainAddrs(m', a, end, ys);
    assert xs[0] in xs && ys[0] in ys;
    if xs[0].free && ys[0].free {
      SameGap(m, m', a, end, xs, ys);
      SameGap(m', m, a, end, ys, xs);
    }
  }

  /** Two heaps over the same range with the same blocks in use are the same heap. */
  lemma HeapDetermined(m: Segment, m': Segment, v: View, v': View)
    requires Heap(m, v.blocks, v.frees) && Heap(m', v'.blocks, v'.frees)
    requires m'.first == m.first && m'.End() == m.End()
    requires SameInUse(v.blocks, v'.blocks)
    ensures v == v'
  {
    ChainDetermined(m, m', m.first, m.End(), v.blocks, v'.blocks);
    SortedUnique(v.frees, v'.frees);
  }

  // ---------------------------------------------------------------- who is in use afterwards

  /** The block that an allocation hands out. */
  ghost function Taken(b: Block, used: int): Block { SplitBlocks(b.(free := false), used)[0] }

  lemma AllocateInUse(m: Segment, v: View, b: Block, used: int)
    requires Heap(m, v.blocks, v.frees) && b in v.frees
    ensures b in v.blocks && Taken(b, used) !in v.blocks
    ensures forall x: Block :: !x.free ==>
              (x in AllocateView(v, b, used).blocks <==> x in v.blocks || x == Taken(b, used))
  {
    var pre, post := Around(v.blocks, b);
    ChainAddrs(m, m.first, m.End(), v.blocks);
    var mid := SplitBlocks(b.(free := false), used);
    assert forall x :: x in mid <==> x == mid[0] || (|mid| == 2 && x == mid[1]);
    assert forall x :: x in v.blocks <==> x in pre || x == b || x in post;
  }

  lemma MergedInUse(w: Site)
    requires Mergeable(w)
    requires w.b.free
    ensures forall x: Block :: !x.free ==> (x in Merged(w).Blocks() <==> x in w.pre || x in w.post)
  {
    if StartsFree(w.post) { assert w.post == [w.post[0]] + w.post[1..]; }
    if EndsFree(w.pre) { assert w.pre == w.pre[..|w.pre| - 1] + [w.pre[|w.pre| - 1]]; }
  }

  lemma DeallocateInUse(m: Segment, v: View, b: Block)
    requires Heap(m, v.blocks, v.frees) && b in v.blocks && !b.free
    ensures var w := SiteOf(v, b);
            && Mergeable(w)
            && forall x: Block :: !x.free ==> (x in DeallocateView(w).blocks <==> x in v.blocks && x != b)
  {
    var w := SiteOf(v, b);
    SiteReady(m, v, b);
    MergedInUse(w);
    HeapDisjoint(m, v.blocks);
    DisjointParts(w.pre, [b], w.post);
  }

  lemma ExpandInUse(m: Segment, pre: seq<Block>, b: Block, n: Block, post: seq<Block>, fs: seq<Block>, used: int)
    requires Heap(m, pre + [b, n] + post, fs) && !b.free && n.free && n in fs
    ensures var b' := SplitBlocks(Absorbed(b, n), used)[0];
            && b'.addr == b.addr
            && forall x: Block :: !x.free ==>
                 (x in ExpandView(pre, b, n, post, fs, used).blocks <==>
                  (x in pre + [b, n] + post && x != b) || x == b')
  {
    HeapDisjoint(m, pre + [b, n] + post);
    DisjointParts(pre, [b, n], post);
    var mid := SplitBlocks(Absorbed(b, n), used);
    assert forall x :: x in mid <==> x == mid[0] || (|mid| == 2 && x == mid[1]);
  }

  lemma GrowInUse(v: View, end: int, extra: int)
    requires GrowsTail(v) ==> v.blocks[|v.blocks| - 1] in v.frees
    ensures SameInUse(v.blocks, GrowView(v, end, extra).blocks)
  {
    if GrowsTail(v) {
      assert v.blocks == v.blocks[..|v.blocks| - 1] + [v.blocks[|v.blocks| - 1]];
    }
  }

  lemma ShrinkInUse(v: View)
    requires Shrinks(v) ==> v.blocks[|v.blocks| - 1] in v.frees
    ensures SameInUse(v.blocks, ShrinkView(v).blocks)
  {
    if Shrinks(v) {
      assert v.blocks == v.blocks[..|v.blocks| - 1] + [v.blocks[|v.blocks| - 1]];
    }
  }

  // ---------------------------------------------------------------- what undoes what

  /** Deallocating what was just allocated restores chain and free list exactly. */
  lemma DeallocateUndoesAllocate(m: Segment, v: View, b: Block, used: int, p: int, n: Word)
    requires Heap(m, v.blocks, v.frees) && b in v.frees
    requires MIN_BLOCK <= used <= b.size && used % ALIGNMENT == 0
    ensures b in v.blocks
    ensures var v1 := AllocateView(v, b, used);
            var w := SiteOf(v1, Taken(b, used));
            && Taken(b, used) in v1.blocks && !Taken(b, used).free
            && Mergeable(w)
            && DeallocateView(w) == v
  {
    var v1, c := AllocateView(v, b, used), Taken(b, used);
    AllocateRuns(m, v, b, used, p, n);
    AllocateInUse(m, v, b, used);
    AllocateRange(m, v.frees, b, used, p, n);
    var m1 := ApplyAll(m, AllocateStores(v.frees, b, used, p, n));
    RestoresAll(m, m1, v, v1, c);
  }

  /** Freeing the only block that is in use in addition leads back. */
  lemma RestoresAll(m: Segment, m1: Segment, v: View, v1: View, c: Block)
    requires Heap(m, v.blocks, v.frees) && Heap(m1, v1.blocks, v1.frees)
    requires m1.first == m.first && m1.base == m.base && m1.size == m.size
    requires c in v1.blocks && !c.free && c !in v.blocks
    requires forall x: Block :: !x.free ==> (x in v1.blocks <==> x in v.blocks || x == c)
    ensures var w := SiteOf(v1, c);
            && Mergeable(w)
            && DeallocateView(w) == v
  {
    var w := SiteOf(v1, c);
    hide Chain, List, Exact, Sorted, Coalesced, ApplyAll, DeallocateStores, DeallocateView, MergeNext,
         SiteOf, Always;
    DeallocateRuns(m1, v1, c);
    DeallocateInUse(m1, v1, c);
    DeallocateRange(m1, w);
    HeapDetermined(m, ApplyAll(m1, DeallocateStores(w)), v, DeallocateView(w));
  }

  lemma AllocateRange(m: Segment, fs: seq<Block>, b: Block, used: int, p: int, n: Word)
    requires b in fs
    ensures var m' := ApplyAll(m, AllocateStores(fs, b, used, p, n));
            m'.first == m.first && m'.base == m.base && m'.size == m.size
  {
    KeepsPlace(m, AllocateStores(fs, b, used, p, n));
  }

  /** Stores into block headers and the list head only. */
  ghost predicate HeaderOnly(ss: seq<Store>) {
    forall s :: s in ss ==> s.SetSize? || s.SetFree? || s.SetNext? || s.SetHead?
  }

  lemma AbsorbHeaderOnly(fs: seq<Block>, t: Block, x: Block, y: Block)
    requires t in fs
    ensures HeaderOnly(AbsorbStores(fs, t, x, y))
  {
  }

  lemma SplitHeaderOnly(fs: seq<Block>, a: int, size: int, used: int)
    ensures HeaderOnly(SplitStores(fs, a, size, used))
  {
    if size - used >= MIN_BLOCK {
      var b := Block(a + used, size - used, true);
      hide InsertPos;
      assert HeaderOnly(HeaderStores(a, size, used)) && HeaderOnly(InsertStores(fs, b));
      HeaderOnlyConcat(HeaderStores(a, size, used), InsertStores(fs, b));
    }
  }

  lemma HeaderOnlyConcat(ss: seq<Store>, tt: seq<Store>)
    requires HeaderOnly(ss) && HeaderOnly(tt)
    ensures HeaderOnly(ss + tt)
  {
  }

  lemma MergeNextHeaderOnly(w: Site)
    requires StartsFree(w.post) ==> w.post[0] in w.fs
    ensures HeaderOnly(MergeNextStores(w))
  {
    if StartsFree(w.post) { AbsorbHeaderOnly(w.fs, w.post[0], w.b, w.post[0]); }
  }

  lemma MergePrevHeaderOnly(w: Site)
    requires EndsFree(w.pre) ==> w.pre[|w.pre| - 1] in w.fs
    ensures HeaderOnly(MergePrevStores(w))
  {
    if EndsFree(w.pre) { AbsorbHeaderOnly(w.fs, w.pre[|w.pre| - 1], w.pre[|w.pre| - 1], w.b); }
  }

  lemma MergeKeepsFront(w: Site)
    requires StartsFree(w.post) ==> w.post[0] in w.fs
    ensures MergeNext(w).pre == w.pre
  {
  }

  lemma FreeAndInsertHeaderOnly(a: int, fs: seq<Block>, b: Block)
    ensures HeaderOnly(FreeStores(a)) && HeaderOnly(FreeStores(a) + InsertStores(fs, b))
  {
  }

  lemma DeallocateHeaderOnly(w: Site)
    requires Mergeable(w)
    ensures HeaderOnly(DeallocateStores(w))
  {
    hide MergeNextStores, MergePrevStores, MergePrev, InsertStores, FreeStores, HeaderOnly;
    MergeKeepsFront(w);
    MergeNextHeaderOnly(w);
    MergePrevHeaderOnly(MergeNext(w));
    var x := Merged(w);
    FreeAndInsertHeaderOnly(w.b.addr, x.fs, x.b);
    FreeAndInsertHeaderOnly(x.b.addr, x.fs, x.b);
    HeaderOnlyConcat(MergeNextStores(w), MergePrevStores(MergeNext(w)));
    HeaderOnlyConcat(MergeNextStores(w) + MergePrevStores(MergeNext(w)),
                     FreeStores(x.b.addr) + InsertStores(x.fs, x.b));
    HeaderOnlyConcat(FreeStores(w.b.addr), MergeStores(w));
  }

  lemma DeallocateRange(m: Segment, w: Site)
    requires Mergeable(w)
    ensures var m' := ApplyAll(m, DeallocateStores(w));
            m'.first == m.first && m'.base == m.base && m'.size == m.size
  {
    DeallocateHeaderOnly(w);
    hide DeallocateStores, MergeNext, MergePrev;
    KeepsPlace(m, DeallocateStores(w));
  }

  /** Stores other than that of the segment size keep the segment's range. */
  lemma {:induction false} KeepsPlace(m: Segment, ss: seq<Store>)
    requires forall s :: s in ss ==> !s.SetSegmentSize?
    ensures var m' := ApplyAll(m, ss); m'.first == m.first && m'.base == m.base && m'.size == m.size
    decreases |ss|
  {
    if ss != [] {
      assert ss[0] in ss;
      KeepsPlace(Apply(m, ss[0]), ss[1..]);
    }
  }

  /** Growing back to the old size undoes a shrink, exactly if the last block was large enough to be split off.
      In a roomy heap it always is. */
  lemma GrowUndoesShrink(m: Segment, v: View)
    requires Heap(m, v.blocks, v.frees) && Shrinks(v) && m.base % ALIGNMENT == 0
    ensures v.blocks[|v.blocks| - 1] in v.frees
    ensures var v1 := ShrinkView(v);
            var m1 := ApplyAll(m, ShrinkStores(v, m.base));
            && (GrowsTail(v1) ==> v1.blocks[|v1.blocks| - 1] in v1.frees)
            && (GrowView(v1, m1.End(), m.size - m1.size) == v <==> MIN_BLOCK <= v.blocks[|v.blocks| - 1].size)
            && m1.size < m.size
            && (MIN_BLOCK <= v.blocks[|v.blocks| - 1].size ==>
                  ApplyAll(m1, GrowStores(v1, m1.size, m1.End(), m.size)).size == m.size)
    ensures Roomy(m.first, v.blocks) ==> MIN_BLOCK <= v.blocks[|v.blocks| - 1].size
  {
    hide Heap, ApplyAll, InsertPos, IndexOf, ShrinkStores, GrowStores, ShrinkView, GrowView, SameInUse, Keep;
    TailListed(m, v);
    ShrinkRuns(m, v);
    HeapFits(m, v);
    ShrinkInUse(v);
    var v1, m1 := ShrinkView(v), ApplyAll(m, ShrinkStores(v, m.base));
    ShrinkLeaves(m, v);
    if Roomy(m.first, v.blocks) { RoomyTail(m, v); }
    GrowRuns(m1, v1, m.size);
    if MIN_BLOCK <= v.blocks[|v.blocks| - 1].size {
      GrownBack(m, v);
    } else {
      NotGrownBack(v, m1.End(), m.size - m1.size);
    }
  }

  /** Nothing is there to grow into, and the block that was dropped stays away. */
  lemma NotGrownBack(v: View, end: int, extra: int)
    requires Shrinks(v) && v.blocks[|v.blocks| - 1] in v.frees && extra < MIN_BLOCK && !GrowsTail(ShrinkView(v))
    ensures GrowView(ShrinkView(v), end, extra) != v
  {
  }

  lemma GrownBack(m: Segment, v: View)
    requires Heap(m, v.blocks, v.frees) && Shrinks(v) && m.base % ALIGNMENT == 0
    requires v.blocks[|v.blocks| - 1] in v.frees && MIN_BLOCK <= v.blocks[|v.blocks| - 1].size
    ensures var v1 := ShrinkView(v);
            var m1 := ApplyAll(m, ShrinkStores(v, m.base));
            && (GrowsTail(v1) ==> v1.blocks[|v1.blocks| - 1] in v1.frees)
            && GrowView(v1, m1.End(), m.size - m1.size) == v && m1.size < m.size
            && ApplyAll(m1, GrowStores(v1, m1.size, m1.End(), m.size)).size == m.size
  {
    hide Heap, ApplyAll, InsertPos, IndexOf, ShrinkStores, GrowStores, ShrinkView, GrowView, SameInUse, Keep, EndsFree;
    TailListed(m, v);
    ShrinkRuns(m, v);
    HeapFits(m, v);
    ShrinkInUse(v);
    var v1, m1 := ShrinkView(v), ApplyAll(m, ShrinkStores(v, m.base));
    ShrinkLeaves(m, v);
    GrowRuns(m1, v1, m.size);
    GrowInUse(v1, m1.End(), m.size - m1.size);
    HeapDetermined(m, ApplyAll(m1, GrowStores(v1, m1.size, m1.End(), m.size)), v,
                   GrowView(v1, m1.End(), m.size - m1.size));
  }

  lemma HeapFits(m: Segment, v: View)
    requires Heap(m, v.blocks, v.frees)
    ensures m.base + m.size < WORD
  {
  }

  /** What was cut off is a block of its own or belongs to the remaining free block. */
  lemma ShrinkLeaves(m: Segment, v: View)
    requires Heap(m, v.blocks, v.frees) && Shrinks(v) && v.blocks[|v.blocks| - 1] in v.frees
    ensures var t := v.blocks[|v.blocks| - 1];
            var size := t.addr - m.base + Keep(v);
            && size < m.size
            && (GrowsTail(ShrinkView(v)) || m.size - size >= MIN_BLOCK <==> MIN_BLOCK <= t.size)
  {
    var pre, t := v.blocks[..|v.blocks| - 1], v.blocks[|v.blocks| - 1];
    assert v.blocks == pre + [t];
    CoalescedJoin(pre, [t]);
    LastBlock(m, m.first, m.End(), pre, t);
    assert t in v.blocks;
  }

  // ---------------------------------------------------------------- everything freed

  /** `all_memory_deallocated`. */
  predicate AllMemoryDeallocated(m: Segment) {
    && m.first != 0 && m.Free(m.first) && m.Size(m.first) == m.End() - m.first
    && m.Next(m.first) == 0 && m.head == m.first
  }

  lemma SomeInUse(bs: seq<Block>)
    requires Coalesced(bs) && |bs| >= 2
    ensures exists b :: b in bs && !b.free
  {
    assert bs[0] in bs && bs[1] in bs;
  }

  lemma NothingInUse(m: Segment, v: View)
    requires Heap(m, v.blocks, v.frees) && forall b :: b in v.blocks ==> b.free
    ensures |v.blocks| == 1
  {
    if |v.blocks| >= 2 { SomeInUse(v.blocks); }
  }

  /** All memory counts as deallocated exactly when no block is in use, however it was freed. */
  lemma AllDeallocatedIffNothingInUse(m: Segment, v: View)
    requires Heap(m, v.blocks, v.frees)
    ensures AllMemoryDeallocated(m) <==> forall b :: b in v.blocks ==> b.free
  {
    ChainBounds(m, m.first, m.End(), v.blocks);
    if forall b :: b in v.blocks ==> b.free {
      NothingInUse(m, v);
      assert v.blocks[0] in v.blocks && v.blocks[1..] == [];
      SingleFree(v);
      assert v.frees[1..] == [] && List(m, m.Next(m.head), 0, v.frees[1..]);
      assert Chain(m, m.first + v.blocks[0].size, m.End(), v.blocks[1..]);
      assert AllMemoryDeallocated(m);
    }
    if AllMemoryDeallocated(m) {
      assert v.blocks == [v.blocks[0]] + v.blocks[1..];
      ChainBounds(m, m.End(), m.End(), v.blocks[1..]);
      assert v.blocks[0].free && v.blocks[1..] == [];
      assert v.blocks == [v.blocks[0]];
    }
  }
}
