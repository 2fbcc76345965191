/** Every free block but the first has room for a header and one unit of payload: splitting and growing make
    no smaller ones, and a smaller block in use is never freed, because no payload lies in it. */
module Rooms {
  import opened Segments
  import opened Chains
  import opened Heaps
  import opened HeapSteps
  import opened Operations
  import opened Release
  import opened Resize

  /** Free blocks that do not start at `first` have at least 48 bytes. */
  ghost predicate Roomy(first: int, bs: seq<Block>) {
    forall b :: b in bs && b.free && b.addr != first ==> MIN_BLOCK <= b.size
  }

  lemma RoomyAllocate(first: int, v: View, b: Block, used: int)
    requires Roomy(first, v.blocks) && b in v.blocks && b in v.frees
    ensures Roomy(first, AllocateView(v, b, used).blocks)
  {
    var pre, post := Around(v.blocks, b);
    hide IndexOf;
    assert AllocateView(v, b, used).blocks == pre + SplitBlocks(b.(free := false), used) + post;
    RoomyReplace(first, pre, [b], SplitBlocks(b.(free := false), used), post);
  }

  /** A part may be replaced by roomy blocks. */
  lemma RoomyReplace(first: int, pre: seq<Block>, was: seq<Block>, mid: seq<Block>, post: seq<Block>)
    requires Roomy(first, pre + was + post) && Roomy(first, mid)
    ensures Roomy(first, pre + mid + post)
  {
    forall b | b in pre + mid + post && b.free && b.addr != first ensures MIN_BLOCK <= b.size {
      assert b in pre || b in mid || b in post;
      assert b !in mid ==> b in pre + was + post;
    }
  }

  lemma RoomyMergeNext(first: int, w: Site)
    requires Roomy(first, w.Blocks()) && w.b.free && (StartsFree(w.post) ==> w.post[0] in w.fs)
    requires forall x :: x in w.Blocks() ==> 0 <= x.size
    ensures Roomy(first, MergeNext(w).Blocks()) && MergeNext(w).b.free && MergeNext(w).pre == w.pre
    ensures forall x :: x in MergeNext(w).Blocks() ==> 0 <= x.size
  {
    if StartsFree(w.post) {
      var y, rest := w.post[0], w.post[1..];
      assert w.Blocks() == w.pre + [w.b, y] + rest;
      assert w.b in w.Blocks() && y in w.Blocks();
      RoomyReplace(first, w.pre, [w.b, y], [MergeNext(w).b], rest);
      forall x | x in MergeNext(w).Blocks() ensures 0 <= x.size {
        assert x in w.pre || x == MergeNext(w).b || x in rest;
        assert x != MergeNext(w).b ==> x in w.Blocks();
      }
    }
  }

  lemma RoomyMergePrev(first: int, w: Site)
    requires Roomy(first, w.Blocks()) && w.b.free && (EndsFree(w.pre) ==> w.pre[|w.pre| - 1] in w.fs)
    requires forall x :: x in w.Blocks() ==> 0 <= x.size
    ensures Roomy(first, MergePrev(w).Blocks())
  {
    if EndsFree(w.pre) {
      var front, x := w.pre[..|w.pre| - 1], w.pre[|w.pre| - 1];
      assert w.pre == front + [x];
      assert w.Blocks() == front + [x, w.b] + w.post;
      assert x in w.Blocks() && w.b in w.Blocks();
      RoomyReplace(first, front, [x, w.b], [MergePrev(w).b], w.post);
    }
  }

  /** A block that holds a payload may be freed. */
  lemma RoomyDeallocate(first: int, m: Segment, v: View, b: Block)
    requires Heap(m, v.blocks, v.frees) && Roomy(first, v.blocks) && b in v.blocks && !b.free && MIN_BLOCK <= b.size
    requires Mergeable(SiteOf(v, b))
    ensures Roomy(first, DeallocateView(SiteOf(v, b)).blocks)
  {
    hide Heap, IndexOf, MergeNext, MergePrev, StartsFree, EndsFree, Without, Inserted;
    var w := SiteOf(v, b);
    SiteRoomy(first, m, v, b);
    RoomyMergeNext(first, w);
    RoomyMergePrev(first, MergeNext(w));
  }

  lemma SiteRoomy(first: int, m: Segment, v: View, b: Block)
    requires Heap(m, v.blocks, v.frees) && Roomy(first, v.blocks) && b in v.blocks && MIN_BLOCK <= b.size
    ensures var w := SiteOf(v, b);
            Roomy(first, w.Blocks()) && w.b.free && forall x :: x in w.Blocks() ==> 0 <= x.size
  {
    hide IndexOf, Chain, List, WellFormed;
    var w := SiteOf(v, b);
    var pre, post := Around(v.blocks, b);
    ChainBounds(m, m.first, m.End(), v.blocks);
    RoomyReplace(first, pre, [b], [w.b], post);
    forall x | x in w.Blocks() ensures 0 <= x.size {
      assert x in pre || x == w.b || x in post;
      assert x != w.b ==> x in v.blocks;
    }
  }

  lemma RoomyExpand(first: int, pre: seq<Block>, b: Block, n: Block, post: seq<Block>, fs: seq<Block>, used: int)
    requires Roomy(first, pre + [b, n] + post) && !b.free && n in fs
    ensures Roomy(first, ExpandView(pre, b, n, post, fs, used).blocks)
    ensures Roomy(first, AbsorbedView(pre, b, n, post, fs).blocks)
  {
    RoomyReplace(first, pre, [b, n], SplitBlocks(Absorbed(b, n), used), post);
    RoomyReplace(first, pre, [b, n], [Absorbed(b, n)], post);
  }

  lemma RoomyGrow(first: int, v: View, end: int, extra: int)
    requires Roomy(first, v.blocks) && 0 <= extra && (GrowsTail(v) ==> v.blocks[|v.blocks| - 1] in v.frees)
    ensures Roomy(first, GrowView(v, end, extra).blocks)
  {
    hide Inserted, Without;
    var bs := v.blocks;
    if GrowsTail(v) {
      var front, t := bs[..|bs| - 1], bs[|bs| - 1];
      assert bs == front + [t] + [] && t in bs;
      assert front + [t.(size := t.size + extra)] + [] == GrowView(v, end, extra).blocks;
      RoomyReplace(first, front, [t], [t.(size := t.size + extra)], []);
    } else if extra >= MIN_BLOCK {
      assert bs == bs + [] + [] && bs + [Block(end, extra, true)] == bs + [Block(end, extra, true)] + [];
      RoomyReplace(first, bs, [], [Block(end, extra, true)], []);
    }
  }

  lemma RoomyShrink(first: int, v: View)
    requires Roomy(first, v.blocks) && (Shrinks(v) ==> v.blocks[|v.blocks| - 1] in v.frees)
    ensures Roomy(first, ShrinkView(v).blocks)
  {
  }

  /** So what a shrink takes away is enough for a block of its own. */
  lemma RoomyTail(m: Segment, v: View)
    requires Heap(m, v.blocks, v.frees) && Roomy(m.first, v.blocks) && Shrinks(v)
    ensures MIN_BLOCK <= v.blocks[|v.blocks| - 1].size
  {
    ChainAddrs(m, m.first, m.End(), v.blocks);
    ChainBounds(m, m.first, m.End(), v.blocks);
    var t := v.blocks[|v.blocks| - 1];
    assert t in v.blocks && v.blocks[0] in v.blocks && v.blocks[0].addr == m.first;
    assert |v.blocks| > 1 ==> v.blocks[0].End() <= t.addr;
  }
}
