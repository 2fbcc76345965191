/** deallocate with its two merges, and try_expand, as lists of single stores. */
module Release {
  import opened Segments
  import opened Chains
  import opened Sanity
  import opened Heaps
  import opened HeapSteps
  import opened Operations

  /** A block that is being freed, between its neighbours, and the current free list. */
  datatype Site = Site(pre: seq<Block>, b: Block, post: seq<Block>, fs: seq<Block>)
  {
    ghost function Blocks(): seq<Block> { pre + [b] + post }
  }

  /** Everything but the block itself is in order: it is free and not yet listed. */
  ghost predicate Pending(w: Site) {
    && Disjoint(w.Blocks()) && w.b.free
    && Sorted(w.fs) && Coalesced(w.pre) && Coalesced(w.post)
    && forall x :: x in w.fs <==> (x in w.pre || x in w.post) && x.free
  }

  lemma PendingTorn(w: Site, allowed: set<View>)
    requires Pending(w)
    ensures !OnList(w.fs, w.b.addr) && Tolerated(View(w.Blocks(), w.fs), allowed)
  {
    DisjointParts(w.pre, [w.b], w.post);
    NotListed(w.fs, w.b.addr);
    assert w.b in w.Blocks();
  }

  // ---------------------------------------------------------------- absorbing a neighbour

  /** Unlist `t`, one of two neighbours, and let the first absorb the second. */
  ghost function AbsorbStores(fs: seq<Block>, t: Block, x: Block, y: Block): seq<Store>
    requires t in fs
  {
    RemoveStores(fs, t) + [SetSize(x.addr, Wrap(x.size + y.size))]
  }

  lemma AbsorbShape(m: Segment, pre: seq<Block>, x: Block, y: Block, post: seq<Block>, fs: seq<Block>)
    requires Shape(m, pre + [x, y] + post, fs)
    ensures Shape(Apply(m, SetSize(x.addr, Wrap(x.size + y.size))),
                  pre + [Block(x.addr, x.size + y.size, x.free)] + post, fs)
  {
    var was := [x, y];
    var a := After(m.first, pre);
    var s := SetSize(x.addr, Wrap(x.size + y.size));
    ChainParts(m, m.first, m.End(), pre, was, post);
    assert was[0] == x && was[1] == y && was[1..] == [y] && was[1..][1..] == [];
    assert x in was && y in was;
    assert a == x.addr && y.addr == x.End();
    assert After(a, was) == After(y.addr, [y]) && After(y.addr, [y]) == After(y.End(), []);
    assert (x.size + y.size) % ALIGNMENT == 0;
    var mid := [Block(x.addr, x.size + y.size, x.free)];
    assert mid[1..] == [];
    assert Chain(Apply(m, s), a, After(a, was), mid);
    MiddleShape(m, pre, was, mid, post, fs, s);
  }

  lemma AbsorbPhase(m: Segment, pre: seq<Block>, x: Block, y: Block, post: seq<Block>, fs: seq<Block>,
                    t: Block, allowed: set<View>)
    requires Shape(m, pre + [x, y] + post, fs) && Recoverable(m, allowed)
    requires t in fs && t in [x, y] && t.free
    ensures var ss := AbsorbStores(fs, t, x, y);
            && Always(m, ss, allowed)
            && Shape(ApplyAll(m, ss), pre + [Block(x.addr, x.size + y.size, x.free)] + post, Without(fs, t))
  {
    var bs := pre + [x, y] + post;
    RemovePhase(m, bs, fs, t, allowed);
    var m1 := ApplyAll(m, RemoveStores(fs, t));
    assert Torn(View(bs, Without(fs, t)));
    ToleratedRecovers(m1, View(bs, Without(fs, t)), allowed);
    AlwaysSnoc(m, RemoveStores(fs, t), SetSize(x.addr, Wrap(x.size + y.size)), allowed);
    AbsorbShape(m1, pre, x, y, post, Without(fs, t));
  }

  // ---------------------------------------------------------------- the two merges

  ghost function MergeNext(w: Site): Site
    requires StartsFree(w.post) ==> w.post[0] in w.fs
  {
    if !StartsFree(w.post) then w
    else Site(w.pre, Block(w.b.addr, w.b.size + w.post[0].size, true), w.post[1..], Without(w.fs, w.post[0]))
  }

  ghost function MergeNextStores(w: Site): seq<Store>
    requires StartsFree(w.post) ==> w.post[0] in w.fs
  {
    if !StartsFree(w.post) then [] else AbsorbStores(w.fs, w.post[0], w.b, w.post[0])
  }

  ghost function MergePrev(w: Site): Site
    requires EndsFree(w.pre) ==> w.pre[|w.pre| - 1] in w.fs
  {
    if !EndsFree(w.pre) then w
    else
      var p := w.pre[|w.pre| - 1];
      Site(w.pre[..|w.pre| - 1], Block(p.addr, p.size + w.b.size, true), w.post, Without(w.fs, p))
  }

  ghost function MergePrevStores(w: Site): seq<Store>
    requires EndsFree(w.pre) ==> w.pre[|w.pre| - 1] in w.fs
  {
    if !EndsFree(w.pre) then []
    else AbsorbStores(w.fs, w.pre[|w.pre| - 1], w.pre[|w.pre| - 1], w.b)
  }

  /** A replacement of two neighbours by one that starts where the first did. */
  lemma DisjointMerge(pre: seq<Block>, x: Block, y: Block, post: seq<Block>, z: Block)
    requires Disjoint(pre + [x, y] + post) && z.addr == x.addr
    ensures Disjoint(pre + [z] + post)
  {
    var r, w := pre + [z] + post, pre + [x, y] + post;
    assert forall i :: 0 <= i < |r| ==> r[i].addr == w[if i <= |pre| then i else i + 1].addr;
  }

  lemma MergeNextPending(w: Site)
    requires Pending(w) && StartsFree(w.post) && 0 < w.post[0].size
    ensures w.post[0] in w.fs && Pending(MergeNext(w)) && !StartsFree(w.post[1..])
  {
    hide Disjoint, Sorted, Coalesced, IndexOf;
    var y := w.post[0];
    assert w.post == [y] + w.post[1..];
    assert w.Blocks() == w.pre + [w.b, y] + w.post[1..];
    WithoutSorted(w.fs, y);
    CoalescedJoin([y], w.post[1..]);
    DisjointMerge(w.pre, w.b, y, w.post[1..], MergeNext(w).b);
    DisjointParts(w.pre, [w.b, y], w.post[1..]);
  }

  lemma MergePrevPending(w: Site)
    requires Pending(w) && EndsFree(w.pre) && 0 < w.b.size
    ensures w.pre[|w.pre| - 1] in w.fs && Pending(MergePrev(w)) && !EndsFree(w.pre[..|w.pre| - 1])
  {
    hide Disjoint, Sorted, Coalesced, IndexOf;
    var pre', x := w.pre[..|w.pre| - 1], w.pre[|w.pre| - 1];
    assert w.pre == pre' + [x];
    assert w.Blocks() == pre' + [x, w.b] + w.post;
    WithoutSorted(w.fs, x);
    CoalescedJoin(pre', [x]);
    DisjointMerge(pre', x, w.b, w.post, MergePrev(w).b);
    DisjointParts(pre', [x, w.b], w.post);
  }

  lemma MergeNextShape(m: Segment, w: Site, allowed: set<View>)
    requires Shape(m, w.Blocks(), w.fs) && Recoverable(m, allowed) && w.b.free
    requires StartsFree(w.post) && w.post[0] in w.fs
    ensures Always(m, MergeNextStores(w), allowed)
    ensures Shape(ApplyAll(m, MergeNextStores(w)), MergeNext(w).Blocks(), MergeNext(w).fs)
  {
    assert w.Blocks() == w.pre + [w.b, w.post[0]] + w.post[1..];
    AbsorbPhase(m, w.pre, w.b, w.post[0], w.post[1..], w.fs, w.post[0], allowed);
  }

  lemma MergePrevShape(m: Segment, w: Site, allowed: set<View>)
    requires Shape(m, w.Blocks(), w.fs) && Recoverable(m, allowed) && w.b.free
    requires EndsFree(w.pre) && w.pre[|w.pre| - 1] in w.fs
    ensures Always(m, MergePrevStores(w), allowed)
    ensures Shape(ApplyAll(m, MergePrevStores(w)), MergePrev(w).Blocks(), MergePrev(w).fs)
  {
    var x := w.pre[|w.pre| - 1];
    assert w.Blocks() == w.pre[..|w.pre| - 1] + [x, w.b] + w.post;
    AbsorbPhase(m, w.pre[..|w.pre| - 1], x, w.b, w.post, w.fs, x, allowed);
  }

  lemma SiteRecovers(m: Segment, w: Site, allowed: set<View>)
    requires Shape(m, w.Blocks(), w.fs) && Pending(w)
    ensures Recoverable(m, allowed)
    ensures 0 < w.b.size && forall x :: x in w.post ==> 0 < x.size
  {
    ChainBounds(m, m.first, m.End(), w.Blocks());
    assert w.b in w.Blocks();
    PendingTorn(w, allowed);
    ToleratedRecovers(m, View(w.Blocks(), w.fs), allowed);
  }

  lemma MergeNextPhase(m: Segment, w: Site, allowed: set<View>)
    requires Shape(m, w.Blocks(), w.fs) && Pending(w)
    ensures StartsFree(w.post) ==> w.post[0] in w.fs
    ensures Always(m, MergeNextStores(w), allowed)
    ensures Shape(ApplyAll(m, MergeNextStores(w)), MergeNext(w).Blocks(), MergeNext(w).fs)
    ensures Pending(MergeNext(w)) && !StartsFree(MergeNext(w).post)
  {
    if StartsFree(w.post) {
      SiteRecovers(m, w, allowed);
      MergeNextPending(w);
      MergeNextShape(m, w, allowed);
    }
  }

  lemma MergePrevPhase(m: Segment, w: Site, allowed: set<View>)
    requires Shape(m, w.Blocks(), w.fs) && Pending(w)
    ensures EndsFree(w.pre) ==> w.pre[|w.pre| - 1] in w.fs
    ensures Always(m, MergePrevStores(w), allowed)
    ensures Shape(ApplyAll(m, MergePrevStores(w)), MergePrev(w).Blocks(), MergePrev(w).fs)
    ensures Pending(MergePrev(w)) && !EndsFree(MergePrev(w).pre)
  {
    if EndsFree(w.pre) {
      SiteRecovers(m, w, allowed);
      MergePrevPending(w);
      MergePrevShape(m, w, allowed);
    }
  }

  // ---------------------------------------------------------------- deallocate

  /** Free neighbours are listed, so that both merges can unlist them. */
  ghost predicate Mergeable(w: Site) {
    && (StartsFree(w.post) ==> w.post[0] in w.fs)
    && (EndsFree(w.pre) ==> w.pre[|w.pre| - 1] in MergeNext(w).fs)
  }

  /** Both merges, as `deallocate_block` performs them. */
  ghost function Merged(w: Site): Site
    requires Mergeable(w)
  {
    MergePrev(MergeNext(w))
  }

  /** The two stores that mark a block free and unlinked. */
  ghost function FreeStores(a: int): seq<Store> { [SetFree(a, true), SetNext(a, 0)] }

  /** The stores of `deallocate_block`. */
  ghost function DeallocateStores(w: Site): seq<Store>
    requires Mergeable(w)
  {
    FreeStores(w.b.addr) + MergeStores(w)
  }

  /** Merge with the free neighbours, then mark and list the result. */
  ghost function MergeStores(w: Site): seq<Store>
    requires Mergeable(w)
  {
    MergeNextStores(w) + MergePrevStores(MergeNext(w))
    + (FreeStores(Merged(w).b.addr) + InsertStores(Merged(w).fs, Merged(w).b))
  }

  ghost function DeallocateView(w: Site): View
    requires Mergeable(w)
  {
    View(Merged(w).Blocks(), Inserted(Merged(w).fs, Merged(w).b))
  }

  /** The site of the allocated block `b`, already marked free. */
  ghost function SiteOf(v: View, b: Block): Site
    requires b in v.blocks
  {
    var i := IndexOf(v.blocks, b);
    Site(v.blocks[..i], b.(free := true), v.blocks[i + 1..], v.frees)
  }

  lemma DisjointSame(pre: seq<Block>, b: Block, c: Block, post: seq<Block>)
    requires Disjoint(pre + [b] + post) && c.addr == b.addr
    ensures Disjoint(pre + [c] + post)
  {
    var r, w := pre + [c] + post, pre + [b] + post;
    assert forall i :: 0 <= i < |r| ==> r[i].addr == w[i].addr;
  }

  lemma SitePending(v: View, b: Block)
    requires WellFormed(v.blocks, v.frees) && Disjoint(v.blocks) && b in v.blocks && !b.free
    ensures Pending(SiteOf(v, b))
  {
    var pre, post := Around(v.blocks, b);
    var w := SiteOf(v, b);
    DisjointSame(pre, b, w.b, post);
    CoalescedParts(pre, [b], post);
    DisjointParts(pre, [b], post);
    assert forall x :: x in v.blocks <==> x in pre || x == b || x in post;
    assert |w.Blocks()| == |v.blocks|;
  }

  /** Once both neighbours are in use, listing the block completes the heap. */
  lemma PendingComplete(w: Site)
    requires Pending(w) && !StartsFree(w.post) && !EndsFree(w.pre)
    ensures WellFormed(w.Blocks(), Inserted(w.fs, w.b))
  {
    DisjointParts(w.pre, [w.b], w.post);
    InsertedSorted(w.fs, w.b);
    CoalescedParts(w.pre, [w.b], w.post);
  }

  lemma FreeShape(m: Segment, pre: seq<Block>, b: Block, post: seq<Block>, fs: seq<Block>)
    requires Shape(m, pre + [b] + post, fs)
    ensures Shape(Apply(m, SetFree(b.addr, true)), pre + [b.(free := true)] + post, fs)
  {
    ChainParts(m, m.first, m.End(), pre, [b], post);
    var a := After(m.first, pre);
    assert [b][0] == b && [b][1..] == [] && b in [b];
    FlipHead(m, a, After(a, [b]), [b], true);
    assert [b.(free := true)] + [b][1..] == [b.(free := true)];
    MiddleShape(m, pre, [b], [b.(free := true)], post, fs, SetFree(b.addr, true));
  }

  /** Marking a block free that is not listed: the heap is torn from then on. */
  lemma FreePhase(m: Segment, pre: seq<Block>, b: Block, post: seq<Block>, fs: seq<Block>, allowed: set<View>)
    requires Shape(m, pre + [b] + post, fs) && Recoverable(m, allowed)
    requires Pending(Site(pre, b.(free := true), post, fs))
    ensures Always(m, FreeStores(b.addr), allowed)
    ensures Shape(ApplyAll(m, FreeStores(b.addr)), pre + [b.(free := true)] + post, fs)
  {
    var w := Site(pre, b.(free := true), post, fs);
    FreeShape(m, pre, b, post, fs);
    PendingTorn(w, allowed);
    ToleratedRecovers(Apply(m, SetFree(b.addr, true)), View(w.Blocks(), fs), allowed);
    NextKeepsShape(Apply(m, SetFree(b.addr, true)), w.Blocks(), fs, b.addr, 0);
    TwoStores(m, SetFree(b.addr, true), SetNext(b.addr, 0), allowed);
  }

  /** Marking the merged block free again and listing it. */
  lemma ListPhase(m: Segment, w: Site, allowed: set<View>)
    requires Shape(m, w.Blocks(), w.fs) && Pending(w)
    ensures var ss := FreeStores(w.b.addr) + InsertStores(w.fs, w.b);
            Always(m, ss, allowed) && Shape(ApplyAll(m, ss), w.Blocks(), Inserted(w.fs, w.b))
  {
    assert w.b.(free := true) == w.b;
    PendingTorn(w, allowed);
    ToleratedRecovers(m, View(w.Blocks(), w.fs), allowed);
    FreePhase(m, w.pre, w.b, w.post, w.fs, allowed);
    var m1 := ApplyAll(m, FreeStores(w.b.addr));
    ChainBounds(m1, m1.first, m1.End(), w.Blocks());
    assert w.b in w.Blocks();
    InsertPhase(m1, w.Blocks(), w.fs, w.b, allowed);
    AlwaysConcat(m, FreeStores(w.b.addr), InsertStores(w.fs, w.b), allowed);
  }

  lemma HeapRecovers(m: Segment, v: View, allowed: set<View>)
    requires Heap(m, v.blocks, v.frees) && v in allowed
    ensures Recoverable(m, allowed)
  {
  }

  lemma MergesDefined(w: Site)
    requires Pending(w) && forall b :: b in w.post ==> 0 < b.size
    ensures Mergeable(w)
  {
    if StartsFree(w.post) {
      MergeNextPending(w);
    }
  }

  lemma SiteReady(m: Segment, v: View, b: Block)
    requires Heap(m, v.blocks, v.frees) && b in v.blocks && !b.free
    ensures var w := SiteOf(v, b);
            && v.blocks == w.pre + [b] + w.post && w.b == b.(free := true) && w.fs == v.frees
            && Pending(w)
            && Mergeable(w)
  {
    var pre, post := Around(v.blocks, b);
    HeapDisjoint(m, v.blocks);
    SitePending(v, b);
    ChainBounds(m, m.first, m.End(), v.blocks);
    MergesDefined(SiteOf(v, b));
  }

  /** From the marked block on: merge, then list. */
  lemma MergeAndList(m: Segment, w: Site, allowed: set<View>)
    requires Shape(m, w.Blocks(), w.fs) && Pending(w)
    requires Mergeable(w)
    ensures Always(m, MergeStores(w), allowed)
    ensures Heap(ApplyAll(m, MergeStores(w)), DeallocateView(w).blocks, DeallocateView(w).frees)
  {
    MergePhases(m, w, allowed);
    var ss := MergeNextStores(w) + MergePrevStores(MergeNext(w));
    ListPhase(ApplyAll(m, ss), Merged(w), allowed);
    PendingComplete(Merged(w));
    AlwaysConcat(m, ss, FreeStores(Merged(w).b.addr) + InsertStores(Merged(w).fs, Merged(w).b), allowed);
  }

  /** Deallocation, store by store: a death leaves the heap from before or from after. */
  lemma DeallocateRuns(m: Segment, v: View, b: Block)
    requires Heap(m, v.blocks, v.frees) && b in v.blocks && !b.free
    ensures var w := SiteOf(v, b);
            && Mergeable(w)
            && Always(m, DeallocateStores(w), {v, DeallocateView(w)})
            && Heap(ApplyAll(m, DeallocateStores(w)), DeallocateView(w).blocks, DeallocateView(w).frees)
  {
    var w := SiteOf(v, b);
    SiteReady(m, v, b);
    var allowed := {v, DeallocateView(w)};
    HeapRecovers(m, v, allowed);
    FreePhase(m, w.pre, b, w.post, v.frees, allowed);
    MergeAndList(ApplyAll(m, FreeStores(b.addr)), w, allowed);
    AlwaysConcat(m, FreeStores(b.addr), MergeStores(w), allowed);
  }

  lemma MergePhases(m: Segment, w: Site, allowed: set<View>)
    requires Shape(m, w.Blocks(), w.fs) && Pending(w)
    requires Mergeable(w)
    ensures var ss := MergeNextStores(w) + MergePrevStores(MergeNext(w));
            Always(m, ss, allowed) && Shape(ApplyAll(m, ss), Merged(w).Blocks(), Merged(w).fs)
    ensures Pending(Merged(w)) && !StartsFree(Merged(w).post) && !EndsFree(Merged(w).pre)
  {
    hide ApplyAll, Always, Chain, List, MergeNextStores, MergePrevStores, Recoverable, InsertPos, IndexOf;
    MergeNextPhase(m, w, allowed);
    MergePrevPhase(ApplyAll(m, MergeNextStores(w)), MergeNext(w), allowed);
    AlwaysConcat(m, MergeNextStores(w), MergePrevStores(MergeNext(w)), allowed);
  }

  // ---------------------------------------------------------------- try_expand

  /** The allocated block `b` and its free successor as one allocated block. */
  ghost function Absorbed(b: Block, n: Block): Block { Block(b.addr, b.size + n.size, false) }

  /** The heap in which `b` has absorbed its whole successor. */
  ghost function AbsorbedView(pre: seq<Block>, b: Block, n: Block, post: seq<Block>, fs: seq<Block>): View
    requires n in fs
  {
    View(pre + [Absorbed(b, n)] + post, Without(fs, n))
  }

  ghost function ExpandView(pre: seq<Block>, b: Block, n: Block, post: seq<Block>, fs: seq<Block>, used: int): View
    requires n in fs
  {
    View(pre + SplitBlocks(Absorbed(b, n), used) + post, SplitFrees(Without(fs, n), Absorbed(b, n), used))
  }

  /** The stores of a `try_expand` that takes bytes from the free successor `n`. */
  ghost function ExpandStores(fs: seq<Block>, b: Block, n: Block, used: int, p: int, size: Word): seq<Store>
    requires n in fs
  {
    AbsorbStores(fs, n, b, n) + SplitStores(Without(fs, n), b.addr, b.size + n.size, used)
    + [SetRequested(p, size)]
  }

  lemma AbsorbedWellFormed(pre: seq<Block>, b: Block, n: Block, post: seq<Block>, fs: seq<Block>)
    requires WellFormed(pre + [b, n] + post, fs) && Disjoint(pre + [b, n] + post)
    requires !b.free && n.free && 0 < n.size
    ensures n in fs
    ensures var v := AbsorbedView(pre, b, n, post, fs); WellFormed(v.blocks, v.frees) && Disjoint(v.blocks)
    ensures !StartsFree(post)
  {
    assert n in pre + [b, n] + post;
    WithoutSorted(fs, n);
    ExactReplace(pre, [b, n], [Absorbed(b, n)], post, fs, Without(fs, n));
    CoalescedParts(pre, [b, n], post);
    CoalescedParts(pre, [Absorbed(b, n)], post);
    DisjointMerge(pre, b, n, post, Absorbed(b, n));
  }

  /** Splitting free bytes off the end of an allocated block that ends in front of a used one. */
  lemma SplitWellFormed(pre: seq<Block>, b: Block, post: seq<Block>, fs: seq<Block>, used: int)
    requires WellFormed(pre + [b] + post, fs) && Disjoint(pre + [b] + post)
    requires !b.free && !StartsFree(post) && MIN_BLOCK <= used <= b.size
    requires b.size - used >= MIN_BLOCK ==> forall x :: x in fs ==> x.addr != b.addr + used
    ensures WellFormed(pre + SplitBlocks(b, used) + post, SplitFrees(fs, b, used))
  {
    var mid := SplitBlocks(b, used);
    if b.size - used >= MIN_BLOCK {
      SplitFreesFacts(fs, b, used);
      assert forall x :: x in mid && x.free <==> x == Block(b.addr + used, b.size - used, true);
      assert b !in fs;
      ExactReplace(pre, [b], mid, post, fs, SplitFrees(fs, b, used));
      assert Coalesced(pre + mid + post) by {
        CoalescedParts(pre, [b], post);
        CoalescedParts(pre, mid, post);
      }
    }
  }

  lemma ExpandWellFormed(m: Segment, pre: seq<Block>, b: Block, n: Block, post: seq<Block>, fs: seq<Block>, used: int)
    requires Heap(m, pre + [b, n] + post, fs) && !b.free && n.free
    requires MIN_BLOCK <= used <= b.size + n.size && b.size < used
    ensures n in fs
    ensures var a := AbsorbedView(pre, b, n, post, fs);
            WellFormed(a.blocks, a.frees) && Within(a.blocks, a.frees) && Absorbed(b, n) !in a.frees
    ensures var v := ExpandView(pre, b, n, post, fs, used); WellFormed(v.blocks, v.frees)
  {
    HeapDisjoint(m, pre + [b, n] + post);
    assert n in pre + [b, n] + post;
    ChainBounds(m, m.first, m.End(), pre + [b, n] + post);
    AbsorbedWellFormed(pre, b, n, post, fs);
    if used < b.size + n.size {
      InsideNeighbour(m, pre, b, n, post, fs, used);
    }
    SplitWellFormed(pre, Absorbed(b, n), post, Without(fs, n), used);
  }

  /** The split point lies inside the old successor, where no listed block starts. */
  lemma InsideNeighbour(m: Segment, pre: seq<Block>, b: Block, n: Block, post: seq<Block>, fs: seq<Block>, used: int)
    requires Heap(m, pre + [b, n] + post, fs) && n in fs && b.size < used < b.size + n.size
    ensures forall x :: x in Without(fs, n) ==> x.addr != b.addr + used
  {
    WithoutSorted(fs, n);
    ChainParts(m, m.first, m.End(), pre, [b, n], post);
    assert [b, n][1..] == [n];
    assert n.addr == b.End();
    assert pre + [b, n] + post == (pre + [b]) + [n] + post;
    InsideBlock(m, m.first, m.End(), pre + [b], n, post, b.addr + used);
  }

  lemma HeadShape(m: Segment, v: View, s: Store, allowed: set<View>)
    requires Heap(m, v.blocks, v.frees) && v in allowed && s.SetRequested?
    ensures Recoverable(m, allowed) && Heap(Apply(m, s), v.blocks, v.frees)
  {
    HeapRecovers(m, v, allowed);
    PayloadKeepsShape(m, v.blocks, v.frees, s);
  }

  /** Expansion, store by store: a death leaves the heap from before, from after, or with the
      whole successor absorbed. */
  lemma ExpandRuns(m: Segment, pre: seq<Block>, b: Block, n: Block, post: seq<Block>, fs: seq<Block>,
                   used: int, p: int, size: Word)
    requires Heap(m, pre + [b, n] + post, fs) && !b.free && n.free
    requires MIN_BLOCK <= used <= b.size + n.size && b.size < used && used % ALIGNMENT == 0
    ensures n in fs
    ensures var v' := ExpandView(pre, b, n, post, fs, used);
            var ss := ExpandStores(fs, b, n, used, p, size);
            && Always(m, ss, {View(pre + [b, n] + post, fs), AbsorbedView(pre, b, n, post, fs), v'})
            && Heap(ApplyAll(m, ss), v'.blocks, v'.frees)
  {
    var v := View(pre + [b, n] + post, fs);
    ExpandWellFormed(m, pre, b, n, post, fs, used);
    var a, v' := AbsorbedView(pre, b, n, post, fs), ExpandView(pre, b, n, post, fs, used);
    var ss := AbsorbStores(fs, n, b, n) + SplitStores(Without(fs, n), b.addr, b.size + n.size, used);
    HeapRecovers(m, v, {v, a, v'});
    AbsorbAndSplit(m, pre, b, n, post, fs, used, {v, a, v'});
    HeadShape(ApplyAll(m, ss), v', SetRequested(p, size), {v, a, v'});
    AlwaysSnoc(m, ss, SetRequested(p, size), {v, a, v'});
  }

  lemma AbsorbAndSplit(m: Segment, pre: seq<Block>, b: Block, n: Block, post: seq<Block>, fs: seq<Block>,
                       used: int, allowed: set<View>)
    requires Shape(m, pre + [b, n] + post, fs) && Recoverable(m, allowed) && n in fs && n.free && !b.free
    requires var a := AbsorbedView(pre, b, n, post, fs);
             a in allowed && WellFormed(a.blocks, a.frees) && Within(a.blocks, a.frees)
    requires HEADER_SIZE <= used <= b.size + n.size && used % ALIGNMENT == 0
    ensures var v' := ExpandView(pre, b, n, post, fs, used);
            var ss := AbsorbStores(fs, n, b, n) + SplitStores(Without(fs, n), b.addr, b.size + n.size, used);
            Always(m, ss, allowed) && Shape(ApplyAll(m, ss), v'.blocks, v'.frees)
  {
    hide ApplyAll, Always, Chain, List, WellFormed, AbsorbStores, SplitStores, InsertPos, IndexOf, Recoverable;
    var absorb, split := AbsorbStores(fs, n, b, n), SplitStores(Without(fs, n), b.addr, b.size + n.size, used);
    AbsorbPhase(m, pre, b, n, post, fs, n, allowed);
    SplitPhase(ApplyAll(m, absorb), pre, Absorbed(b, n), post, Without(fs, n), used, allowed);
    AlwaysConcat(m, absorb, split, allowed);
  }
}
