/** grow and shrink_to_fit of the segment. */
module Resize {
  import opened Segments
  import opened Chains
  import opened Sanity
  import opened Heaps
  import opened HeapSteps
  import opened Operations
  import opened Release

  /** The segment size is stored apart from the headers, so its store commutes with theirs. */
  lemma {:induction false} SizeCommutes(m: Segment, v: int, ss: seq<Store>)
    requires forall s :: s in ss ==> !s.SetSegmentSize?
    ensures ApplyAll(Apply(m, SetSegmentSize(v)), ss) == Apply(ApplyAll(m, ss), SetSegmentSize(v))
    decreases |ss|
  {
    if ss != [] {
      assert ss[0] in ss;
      SizeCommutes(Apply(m, ss[0]), v, ss[1..]);
    }
  }

  /** What a removal from the free list leaves. */
  lemma RemoveEffect(m: Segment, bs: seq<Block>, fs: seq<Block>, t: Block)
    requires Shape(m, bs, fs) && t in fs
    ensures var m' := ApplyAll(m, RemoveStores(fs, t)); Shape(m', bs, Without(fs, t)) && LinksOnly(m, m')
  {
    var ss := RemoveStores(fs, t);
    UnlinkShape(m, bs, fs, t);
    NextKeepsShape(Apply(m, ss[0]), bs, Without(fs, t), t.addr, 0);
    TwoStores(m, ss[0], ss[1], {});
  }

  lemma InsertEffect(m: Segment, bs: seq<Block>, fs: seq<Block>, b: Block)
    requires Shape(m, bs, fs) && !OnList(fs, b.addr) && b.addr != 0
    ensures var m' := ApplyAll(m, InsertStores(fs, b)); Shape(m', bs, Inserted(fs, b)) && LinksOnly(m, m')
  {
    var ss := InsertStores(fs, b);
    InsertShape(m, bs, fs, b);
    TwoStores(m, ss[0], ss[1], {});
  }

  ghost predicate GrowsTail(v: View) { EndsFree(v.blocks) }

  /** The stores of `grow` to the aligned size `size`, from a segment that ends at `end`. */
  ghost function GrowStores(v: View, oldSize: int, end: int, size: int): seq<Store>
    requires GrowsTail(v) ==> v.blocks[|v.blocks| - 1] in v.frees
  {
    var extra := size - oldSize;
    if GrowsTail(v) then
      var t := v.blocks[|v.blocks| - 1];
      [SetSegmentSize(size)] + RemoveStores(v.frees, t) + [SetSize(t.addr, Wrap(t.size + extra))]
      + InsertStores(Without(v.frees, t), Block(t.addr, t.size + extra, true))
    else if extra < MIN_BLOCK then [SetSegmentSize(size), SetSegmentSize(oldSize)]
    else
      [SetSegmentSize(size), SetSize(end, Wrap(extra)), SetFree(end, true), SetNext(end, 0)]
      + InsertStores(v.frees, Block(end, extra, true))
  }

  ghost function GrowView(v: View, end: int, extra: int): View
    requires GrowsTail(v) ==> v.blocks[|v.blocks| - 1] in v.frees
  {
    if GrowsTail(v) then
      var t := v.blocks[|v.blocks| - 1];
      var t' := Block(t.addr, t.size + extra, true);
      View(v.blocks[..|v.blocks| - 1] + [t'], Inserted(Without(v.frees, t), t'))
    else if extra < MIN_BLOCK then v
    else View(v.blocks + [Block(end, extra, true)], Inserted(v.frees, Block(end, extra, true)))
  }

  lemma TailListed(m: Segment, v: View)
    requires Heap(m, v.blocks, v.frees) && m.base % ALIGNMENT == 0
    ensures GrowsTail(v) ==> v.blocks[|v.blocks| - 1] in v.frees
    ensures m.size % ALIGNMENT == 0 && m.End() % ALIGNMENT == 0 && 0 < m.End()
  {
    ChainAligned(m, m.first, m.End(), v.blocks);
    if GrowsTail(v) {
      assert v.blocks[|v.blocks| - 1] in v.blocks;
    }
  }

  lemma LastBlock(m: Segment, a: int, end: int, pre: seq<Block>, t: Block)
    requires Chain(m, a, end, pre + [t])
    ensures Chain(m, a, t.addr, pre) && After(a, pre) == t.addr && t.End() == end
    ensures t == BlockAt(m, t.addr) && HEADER_SIZE <= t.size && t.size % ALIGNMENT == 0
  {
    ChainSplit(m, a, end, pre, [t]);
    assert [t][0] == t && [t][1..] == [];
  }

  /** A chain followed by one more block. */
  lemma ChainAppend(m: Segment, a: int, mid: int, end: int, bs: seq<Block>, b: Block)
    requires Chain(m, a, mid, bs) && b == BlockAt(m, mid) && b.End() == end
    requires HEADER_SIZE <= b.size && b.size % ALIGNMENT == 0
    ensures Chain(m, a, end, bs + [b])
  {
    ReachSnoc(m, a, mid, bs);
  }

  /** The last block is given a new size, and the segment ends behind it. */
  lemma TailShape(m: Segment, m': Segment, pre: seq<Block>, t: Block, fs: seq<Block>, newSize: int)
    requires Shape(m, pre + [t], fs) && m'.Mapped() && m'.size != 0
    requires m'.base == m.base && m'.first == m.first && m'.head == m.head
    requires HEADER_SIZE <= newSize < WORD && newSize % ALIGNMENT == 0 && m'.End() == t.addr + newSize
    requires m'.headers == Apply(m, SetSize(t.addr, Wrap(newSize))).headers
    ensures Shape(m', pre + [Block(t.addr, newSize, t.free)], fs)
  {
    ChainSplit(m, m.first, m.End(), pre, [t]);
    assert [t][0] == t && [t][1..] == [];
    ChainBounds(m, m.first, After(m.first, pre), pre);
    ChainFrame(m, m', m.first, After(m.first, pre), pre);
    ChainAppend(m', m.first, t.addr, m'.End(), pre, Block(t.addr, newSize, t.free));
    ListFrame(m, m', m.head, 0, fs);
  }

  lemma GrowTailWellFormed(m: Segment, v: View, pre: seq<Block>, t: Block, t': Block)
    requires Heap(m, v.blocks, v.frees) && v.blocks == pre + [t] && t in v.frees
    requires t'.addr == t.addr && t'.free && (t.size <= t'.size || (|v.blocks| == 1 && MIN_BLOCK <= t'.size))
    ensures WellFormed(pre + [t'], Inserted(Without(v.frees, t), t'))
    ensures !OnList(Without(v.frees, t), t.addr) && forall x :: x in Without(v.frees, t) ==> x in pre
  {
    HeapDisjoint(m, v.blocks);
    WithoutSorted(v.frees, t);
    assert v.blocks == pre + [t] + [] && pre + [t'] == pre + [t'] + [];
    DisjointParts(pre, [t], []);
    assert forall x :: x in Without(v.frees, t) ==> x in pre;
    NotListed(Without(v.frees, t), t.addr);
    InsertedSorted(Without(v.frees, t), t');
    ExactReplace(pre, [t], [t'], [], v.frees, Inserted(Without(v.frees, t), t'));
    CoalescedParts(pre, [t], []);
    CoalescedParts(pre, [t'], []);
  }

  lemma GrowTail(m: Segment, v: View, size: int)
    requires Heap(m, v.blocks, v.frees) && GrowsTail(v) && v.blocks[|v.blocks| - 1] in v.frees
    requires m.size < size && size % ALIGNMENT == 0 && m.base + size < WORD && m.base % ALIGNMENT == 0
    ensures var m' := ApplyAll(m, GrowStores(v, m.size, m.End(), size));
            var v' := GrowView(v, m.End(), size - m.size);
            Heap(m', v'.blocks, v'.frees) && m'.size == size && SamePlace(m, m')
  {
    hide Heap, ApplyAll, InsertStores, RemoveStores, Inserted, Without, GrowStores;
    var pre, t := v.blocks[..|v.blocks| - 1], v.blocks[|v.blocks| - 1];
    assert v.blocks == pre + [t];
    GrowTailHeap(m, v, pre, t, Block(t.addr, t.size + size - m.size, true), size);
    GrowTailStores(m, v, size);
  }

  lemma GrowTailHeap(m: Segment, v: View, pre: seq<Block>, t: Block, t': Block, size: int)
    requires Heap(m, v.blocks, v.frees) && v.blocks == pre + [t] && t in v.frees
    requires m.size < size && size % ALIGNMENT == 0 && m.base + size < WORD && m.base % ALIGNMENT == 0
    requires t' == Block(t.addr, t.size + size - m.size, true)
    ensures var m1 := ApplyAll(m, RemoveStores(v.frees, t));
            var m2 := Apply(Apply(m1, SetSegmentSize(size)), SetSize(t.addr, Wrap(t'.size)));
            var m' := ApplyAll(m2, InsertStores(Without(v.frees, t), t'));
            && Heap(m', pre + [t'], Inserted(Without(v.frees, t), t'))
            && m'.size == size && SamePlace(m, m')
  {
    hide Chain, List, Exact, Sorted, Coalesced, ApplyAll, InsertPos, IndexOf;
    GrowTailShape(m, v, pre, t, size);
    GrowTailWellFormed(m, v, pre, t, t');
    var m1 := ApplyAll(m, RemoveStores(v.frees, t));
    var m2 := Apply(Apply(m1, SetSegmentSize(size)), SetSize(t.addr, Wrap(t'.size)));
    InsertEffect(m2, pre + [t'], Without(v.frees, t), t');
  }

  lemma GrowTailShape(m: Segment, v: View, pre: seq<Block>, t: Block, size: int)
    requires Heap(m, v.blocks, v.frees) && v.blocks == pre + [t] && t in v.frees
    requires m.size < size && size % ALIGNMENT == 0 && m.base + size < WORD && m.base % ALIGNMENT == 0
    ensures var m1 := ApplyAll(m, RemoveStores(v.frees, t));
            var m2 := Apply(Apply(m1, SetSegmentSize(size)), SetSize(t.addr, Wrap(t.size + size - m.size)));
            && Shape(m2, pre + [Block(t.addr, t.size + size - m.size, true)], Without(v.frees, t))
            && SamePlace(m, m2)
    ensures 0 < t.addr
  {
    hide Chain, List, Sorted, Coalesced, ApplyAll, IndexOf;
    TailListed(m, v);
    RemoveEffect(m, v.blocks, v.frees, t);
    LastBlock(m, m.first, m.End(), pre, t);
    ChainBounds(m, m.first, t.addr, pre);
    GrowSizeAligned(t.size, m.size, size);
    ResizedTail(ApplyAll(m, RemoveStores(v.frees, t)), pre, t, Without(v.frees, t), size, t.size + size - m.size);
  }

  lemma GrowSizeAligned(x: int, y: int, z: int)
    requires x % ALIGNMENT == 0 && y % ALIGNMENT == 0 && z % ALIGNMENT == 0
    ensures (x + z - y) % ALIGNMENT == 0
  {
  }

  lemma ResizedTail(m: Segment, pre: seq<Block>, t: Block, fs: seq<Block>, size: int, newSize: int)
    requires Shape(m, pre + [t], fs) && 0 < size && m.base + size < WORD
    requires HEADER_SIZE <= newSize < WORD && newSize % ALIGNMENT == 0 && m.base + size == t.addr + newSize
    requires m.first <= t.addr
    ensures var m2 := Apply(Apply(m, SetSegmentSize(size)), SetSize(t.addr, Wrap(newSize)));
            Shape(m2, pre + [Block(t.addr, newSize, t.free)], fs) && SamePlace(m, m2)
  {
    var m2 := Apply(Apply(m, SetSegmentSize(size)), SetSize(t.addr, Wrap(newSize)));
    TailShape(m, m2, pre, t, fs, newSize);
  }

  lemma GrowTailStores(m: Segment, v: View, size: int)
    requires GrowsTail(v) && v.blocks[|v.blocks| - 1] in v.frees
    ensures var t := v.blocks[|v.blocks| - 1];
            var m1 := ApplyAll(m, RemoveStores(v.frees, t));
            var m2 := Apply(Apply(m1, SetSegmentSize(size)), SetSize(t.addr, Wrap(t.size + size - m.size)));
            ApplyAll(m, GrowStores(v, m.size, m.End(), size)) ==
            ApplyAll(m2, InsertStores(Without(v.frees, t), Block(t.addr, t.size + size - m.size, true)))
  {
    hide InsertPos, IndexOf, ApplyAll;
    var t := v.blocks[|v.blocks| - 1];
    var r := RemoveStores(v.frees, t);
    var s := [SetSize(t.addr, Wrap(t.size + size - m.size))];
    var i := InsertStores(Without(v.frees, t), Block(t.addr, t.size + size - m.size, true));
    assert GrowStores(v, m.size, m.End(), size) == [SetSegmentSize(size)] + r + s + i;
    ApplyConcat(m, [SetSegmentSize(size)] + r + s, i);
    ApplyConcat(m, [SetSegmentSize(size)] + r, s);
    ApplyConcat(m, [SetSegmentSize(size)], r);
    ApplyOne(m, SetSegmentSize(size));
    SizeCommutes(m, size, r);
    ApplyOne(Apply(ApplyAll(m, r), SetSegmentSize(size)), s[0]);
  }

  lemma GrowAppendWellFormed(m: Segment, v: View, b: Block)
    requires Heap(m, v.blocks, v.frees) && !GrowsTail(v) && b.free && b.addr == m.End() && MIN_BLOCK <= b.size
    ensures WellFormed(v.blocks + [b], Inserted(v.frees, b))
    ensures !OnList(v.frees, b.addr)
  {
    HeapDisjoint(m, v.blocks);
    ChainBounds(m, m.first, m.End(), v.blocks);
    NotListed(v.frees, b.addr);
    InsertedSorted(v.frees, b);
    assert v.blocks == v.blocks + [] + [] && v.blocks + [b] == v.blocks + [b] + [];
    ExactReplace(v.blocks, [], [b], [], v.frees, Inserted(v.frees, b));
    CoalescedParts(v.blocks, [b], []);
    assert |v.blocks| == 1 ==> v.blocks[0] in v.blocks && !v.blocks[0].free;
  }

  /** A free block is written behind the old end, and the segment ends behind it. */
  lemma AppendShape(m: Segment, bs: seq<Block>, fs: seq<Block>, extra: int)
    requires Shape(m, bs, fs) && m.first < m.End() && !OnList(fs, m.End())
    requires MIN_BLOCK <= extra && extra % ALIGNMENT == 0 && m.End() + extra < WORD
    ensures var e := m.End();
            var m' := ApplyAll(m, [SetSegmentSize(m.size + extra), SetSize(e, Wrap(extra)), SetFree(e, true),
                                   SetNext(e, 0)]);
            && Shape(m', bs + [Block(e, extra, true)], fs)
            && m'.size == m.size + extra && SamePlace(m, m')
  {
    var e := m.End();
    var s0, s1, s2, s3 := SetSegmentSize(m.size + extra), SetSize(e, Wrap(extra)), SetFree(e, true), SetNext(e, 0);
    var m' := Apply(Apply(Apply(Apply(m, s0), s1), s2), s3);
    FourStores(m, s0, s1, s2, s3, {});
    ChainBounds(m, m.first, e, bs);
    ChainFrame(m, m', m.first, e, bs);
    ChainAppend(m', m.first, e, m'.End(), bs, Block(e, extra, true));
    forall b | b in fs ensures m'.Next(b.addr) == m.Next(b.addr) {
      var i :| 0 <= i < |fs| && fs[i] == b;
    }
    ListFrame(m, m', m.head, 0, fs);
  }

  lemma GrowAppend(m: Segment, v: View, size: int)
    requires Heap(m, v.blocks, v.frees) && !GrowsTail(v) && size - m.size >= MIN_BLOCK
    requires size % ALIGNMENT == 0 && m.base + size < WORD && m.base % ALIGNMENT == 0
    ensures var m' := ApplyAll(m, GrowStores(v, m.size, m.End(), size));
            var v' := GrowView(v, m.End(), size - m.size);
            Heap(m', v'.blocks, v'.frees) && m'.size == size && SamePlace(m, m')
  {
    var e, extra := m.End(), size - m.size;
    var ss := [SetSegmentSize(size), SetSize(e, Wrap(extra)), SetFree(e, true), SetNext(e, 0)];
    var b := Block(e, extra, true);
    hide Chain, List, Exact, Sorted, Coalesced, ApplyAll, InsertPos;
    TailListed(m, v);
    GrowSizeAligned(0, m.size, size);
    GrowAppendWellFormed(m, v, b);
    NotEmpty(m, v);
    AppendShape(m, v.blocks, v.frees, extra);
    InsertEffect(ApplyAll(m, ss), v.blocks + [b], v.frees, b);
    ApplyConcat(m, ss, InsertStores(v.frees, b));
  }

  lemma NotEmpty(m: Segment, v: View)
    requires Heap(m, v.blocks, v.frees)
    ensures m.first < m.End()
  {
    ChainBounds(m, m.first, m.End(), v.blocks);
    assert v.blocks[0] in v.blocks;
  }

  /** `grow` to an aligned size: the heap invariant holds for the larger segment, or, when the
      extra bytes are too few for a block of their own, nothing has changed. */
  lemma GrowRuns(m: Segment, v: View, size: int)
    requires Heap(m, v.blocks, v.frees) && m.base % ALIGNMENT == 0
    requires m.size < size && size % ALIGNMENT == 0 && m.base + size < WORD
    ensures GrowsTail(v) ==> v.blocks[|v.blocks| - 1] in v.frees
    ensures var m' := ApplyAll(m, GrowStores(v, m.size, m.End(), size));
            var v' := GrowView(v, m.End(), size - m.size);
            && Heap(m', v'.blocks, v'.frees) && SamePlace(m, m')
            && (if GrowsTail(v) || size - m.size >= MIN_BLOCK then m'.size == size else m' == m)
  {
    TailListed(m, v);
    if GrowsTail(v) {
      GrowTail(m, v, size);
    } else if size - m.size >= MIN_BLOCK {
      GrowAppend(m, v, size);
    } else {
      TwoStores(m, SetSegmentSize(size), SetSegmentSize(m.size), {});
    }
  }

  // ---------------------------------------------------------------- shrink_to_fit

  /** `shrink_to_fit` keeps this much of a last block that is also the first. */
  ghost function Keep(v: View): int { if |v.blocks| == 1 then MIN_BLOCK else 0 }

  ghost predicate Shrinks(v: View) {
    EndsFree(v.blocks) && Keep(v) < v.blocks[|v.blocks| - 1].size
  }

  ghost function ShrinkStores(v: View, base: int): seq<Store>
    requires Shrinks(v) ==> v.blocks[|v.blocks| - 1] in v.frees
  {
    if !Shrinks(v) then []
    else
      var t := v.blocks[|v.blocks| - 1];
      RemoveStores(v.frees, t)
      + (if Keep(v) == 0 then []
         else [SetSize(t.addr, Wrap(Keep(v))), SetFree(t.addr, true), SetNext(t.addr, 0)]
              + InsertStores(Without(v.frees, t), Block(t.addr, Keep(v), true)))
      + [SetSegmentSize(t.addr - base + Keep(v))]
  }

  ghost function ShrinkView(v: View): View
    requires Shrinks(v) ==> v.blocks[|v.blocks| - 1] in v.frees
  {
    if !Shrinks(v) then v
    else
      var t := v.blocks[|v.blocks| - 1];
      if Keep(v) == 0 then View(v.blocks[..|v.blocks| - 1], Without(v.frees, t))
      else View([Block(t.addr, Keep(v), true)], [Block(t.addr, Keep(v), true)])
  }

  lemma DropTailWellFormed(m: Segment, v: View, pre: seq<Block>, t: Block)
    requires Heap(m, v.blocks, v.frees) && v.blocks == pre + [t] && t in v.frees && pre != []
    ensures WellFormed(pre, Without(v.frees, t))
  {
    HeapDisjoint(m, v.blocks);
    WithoutSorted(v.frees, t);
    assert v.blocks == pre + [t] + [] && pre == pre + [] + [];
    ExactReplace(pre, [t], [], [], v.frees, Without(v.frees, t));
    CoalescedParts(pre, [t], []);
    assert |v.blocks| != 1;
    assert forall b :: b in pre ==> b in v.blocks;
  }

  lemma DropShape(m: Segment, pre: seq<Block>, t: Block, fs: seq<Block>)
    requires Shape(m, pre + [t], fs) && pre != []
    ensures var m' := Apply(m, SetSegmentSize(t.addr - m.base)); Shape(m', pre, fs) && SamePlace(m, m')
  {
    var m' := Apply(m, SetSegmentSize(t.addr - m.base));
    LastBlock(m, m.first, m.End(), pre, t);
    ChainBounds(m, m.first, t.addr, pre);
    assert pre[0] in pre;
    ChainFrame(m, m', m.first, t.addr, pre);
    ListFrame(m, m', m.head, 0, fs);
  }

  lemma ShrinkDrops(m: Segment, v: View, pre: seq<Block>, t: Block)
    requires Heap(m, v.blocks, v.frees) && v.blocks == pre + [t] && t in v.frees && pre != []
    ensures var m' := Apply(ApplyAll(m, RemoveStores(v.frees, t)), SetSegmentSize(t.addr - m.base));
            Heap(m', pre, Without(v.frees, t)) && SamePlace(m, m')
  {
    hide Chain, List, Exact, Sorted, Coalesced, ApplyAll, RemoveStores, Without;
    DropTailWellFormed(m, v, pre, t);
    RemoveEffect(m, v.blocks, v.frees, t);
    DropShape(ApplyAll(m, RemoveStores(v.frees, t)), pre, t, Without(v.frees, t));
  }

  lemma SingleWellFormed(b: Block)
    requires b.free
    ensures WellFormed([b], [b])
  {
  }

  /** A heap that is one free block has exactly that block on its list. */
  lemma SingleFree(v: View)
    requires WellFormed(v.blocks, v.frees) && |v.blocks| == 1 && v.blocks[0].free
    ensures v.frees == [v.blocks[0]]
  {
    SingleWellFormed(v.blocks[0]);
    assert v.blocks == [v.blocks[0]];
    SortedUnique(v.frees, [v.blocks[0]]);
  }

  /** The segment cut behind a first block of minimal size. */
  lemma CutHeap(m: Segment, m': Segment, t: Block, k: Block)
    requires Shape(m, [t], [t]) && MIN_BLOCK < t.size && k == Block(t.addr, MIN_BLOCK, true)
    requires m'.base == m.base && m'.first == m.first && m'.size == t.addr - m.base + MIN_BLOCK
    requires m'.Hdr(t.addr) == Header(MIN_BLOCK, true, 0) && m'.head == t.addr
    ensures Heap(m', [k], [k])
  {
    assert [] + [t] == [t];
    LastBlock(m, m.first, m.End(), [], t);
    assert m.first == t.addr;
    assert [k][1..] == [];
    assert Chain(m', m'.first, m'.End(), [k]);
    assert List(m', m'.head, 0, [k]);
    SingleWellFormed(k);
  }

  lemma CutStores(m: Segment, v: View, t: Block)
    requires v.blocks == [t] && v.frees == [t] && t.free && MIN_BLOCK < t.size
    ensures var m' := ApplyAll(m, ShrinkStores(v, m.base));
            && SamePlace(m, m') && m'.size == t.addr - m.base + MIN_BLOCK
            && m'.Hdr(t.addr) == Header(MIN_BLOCK, true, 0) && m'.head == t.addr
  {
    assert Without(v.frees, t) == [];
    var i := InsertStores([], Block(t.addr, MIN_BLOCK, true));
    assert i == [SetNext(t.addr, 0), SetHead(t.addr)];
    var hs := [SetSize(t.addr, Wrap(MIN_BLOCK)), SetFree(t.addr, true), SetNext(t.addr, 0)];
    var z := SetSegmentSize(t.addr - m.base + MIN_BLOCK);
    var r := RemoveStores(v.frees, t);
    assert r == [SetHead(0), SetNext(t.addr, 0)];
    assert ShrinkStores(v, m.base) == r + (hs + i) + [z];
    assert r + (hs + i) + [z] == [r[0], r[1], hs[0], hs[1]] + [hs[2], i[0], i[1], z];
    ApplyConcat(m, [r[0], r[1], hs[0], hs[1]], [hs[2], i[0], i[1], z]);
    FourStores(m, r[0], r[1], hs[0], hs[1], {});
    FourStores(ApplyAll(m, [r[0], r[1], hs[0], hs[1]]), hs[2], i[0], i[1], z, {});
  }

  lemma ShrinkCuts(m: Segment, v: View, t: Block)
    requires Heap(m, v.blocks, v.frees) && v.blocks == [t] && t in v.frees && MIN_BLOCK < t.size
    ensures var m' := ApplyAll(m, ShrinkStores(v, m.base));
            Heap(m', ShrinkView(v).blocks, ShrinkView(v).frees) && SamePlace(m, m')
            && m'.size == t.addr - m.base + MIN_BLOCK
  {
    SingleFree(v);
    CutStores(m, v, t);
    CutHeap(m, ApplyAll(m, ShrinkStores(v, m.base)), t, Block(t.addr, MIN_BLOCK, true));
  }

  /** `shrink_to_fit` keeps the heap invariant for the smaller segment. */
  lemma ShrinkRuns(m: Segment, v: View)
    requires Heap(m, v.blocks, v.frees)
    ensures Shrinks(v) ==> v.blocks[|v.blocks| - 1] in v.frees
    ensures var m' := ApplyAll(m, ShrinkStores(v, m.base));
            && Heap(m', ShrinkView(v).blocks, ShrinkView(v).frees) && SamePlace(m, m')
            && m'.size == if Shrinks(v) then v.blocks[|v.blocks| - 1].addr - m.base + Keep(v) else m.size
  {
    if Shrinks(v) {
      var pre, t := v.blocks[..|v.blocks| - 1], v.blocks[|v.blocks| - 1];
      assert t in v.blocks && t in v.frees;
      assert v.blocks == pre + [t];
      if Keep(v) == 0 {
        ShrinkDropRuns(m, v, pre, t);
      } else {
        ShrinkCuts(m, v, t);
      }
    }
  }

  lemma ShrinkDropRuns(m: Segment, v: View, pre: seq<Block>, t: Block)
    requires Heap(m, v.blocks, v.frees) && v.blocks == pre + [t] && t in v.frees && Shrinks(v) && Keep(v) == 0
    ensures var m' := ApplyAll(m, ShrinkStores(v, m.base));
            && Heap(m', ShrinkView(v).blocks, ShrinkView(v).frees) && SamePlace(m, m')
            && m'.size == t.addr - m.base
  {
    hide Chain, List, InsertPos, IndexOf, ApplyAll, RemoveStores;
    ShrinkDrops(m, v, pre, t);
    var r := RemoveStores(v.frees, t);
    assert ShrinkStores(v, m.base) == r + [SetSegmentSize(t.addr - m.base)];
    ApplyConcat(m, r, [SetSegmentSize(t.addr - m.base)]);
    ApplyOne(ApplyAll(m, r), SetSegmentSize(t.addr - m.base));
  }

  /** Where the segment ends once a free last block is dropped, or cut to 48 bytes if it is the only one. */
  function ShrunkSize(base: int, size: int, v: View): int
    requires v.blocks != []
  {
    var t := v.blocks[|v.blocks| - 1];
    if !t.free then size
    else if |v.blocks| > 1 then t.addr - base
    else if t.size > 48 then t.addr - base + 48
    else size
  }

  lemma SomeBlocks(m: Segment, v: View)
    requires Heap(m, v.blocks, v.frees)
    ensures v.blocks != []
  {
  }

  /** The allocator cuts to exactly this size. */
  lemma ShrinksTo(m: Segment, v: View)
    requires Heap(m, v.blocks, v.frees)
    ensures ApplyAll(m, ShrinkStores(v, m.base)).size == ShrunkSize(m.base, m.size, v) <= m.size
    ensures Shrinks(v) <==> ShrunkSize(m.base, m.size, v) < m.size
  {
    hide ApplyAll, ShrinkStores, ShrinkView, Chain, List, WellFormed;
    ShrinkRuns(m, v);
    SomeBlocks(m, v);
    var pre, t := v.blocks[..|v.blocks| - 1], v.blocks[|v.blocks| - 1];
    assert v.blocks == pre + [t];
    LastBlock(m, m.first, m.End(), pre, t);
  }
}
