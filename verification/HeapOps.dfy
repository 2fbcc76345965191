/** The operations that a process may perform on the heap, whichever they are. */
module HeapOps {
  import opened Segments
  import opened Chains
  import opened Sanity
  import opened Heaps
  import opened HeapSteps
  import opened Operations
  import opened Release
  import opened Resize
  import opened Rooms
  import opened Crash
  import opened ResizeCrash

  /** The operations a process may perform on the heap it finds. */
  datatype HeapOp =
    | AllocateOp(v: View, b: Block, used: int, p: int, n: Word)
    | DeallocateOp(v: View, b: Block)
    | ExpandOp(pre: seq<Block>, b: Block, next: Block, post: seq<Block>, fs: seq<Block>, used: int, p: int, n: Word)
    | RequestOp(p: int, n: Word)
    | GrowOp(v: View, size: int)
    | ShrinkOp(v: View)

  ghost predicate Enabled(m: Segment, op: HeapOp) {
    match op
    case AllocateOp(v, b, used, p, n) =>
      && Heap(m, v.blocks, v.frees) && b in v.frees
      && MIN_BLOCK <= used <= b.size && used % ALIGNMENT == 0
    case DeallocateOp(v, b) =>
      Heap(m, v.blocks, v.frees) && b in v.blocks && !b.free && Mergeable(SiteOf(v, b))
    case ExpandOp(pre, b, next, post, fs, used, p, n) =>
      && Heap(m, pre + [b, next] + post, fs) && !b.free && next.free && next in fs
      && MIN_BLOCK <= used <= b.size + next.size && b.size < used && used % ALIGNMENT == 0
    case RequestOp(p, n) => IsHeap(m)
    case GrowOp(v, size) => CanGrow(m, v, size)
    case ShrinkOp(v) => CanShrink(m, v)
  }

  ghost function OpStores(m: Segment, op: HeapOp): seq<Store>
    requires Enabled(m, op)
  {
    match op
    case AllocateOp(v, b, used, p, n) => AllocateStores(v.frees, b, used, p, n)
    case DeallocateOp(v, b) => DeallocateStores(SiteOf(v, b))
    case ExpandOp(pre, b, next, post, fs, used, p, n) => ExpandStores(fs, b, next, used, p, n)
    case RequestOp(p, n) => [SetRequested(p, n)]
    case GrowOp(v, size) => GrowStores(v, m.size, m.End(), size)
    case ShrinkOp(v) => ShrinkStores(v, m.base)
  }

  /** For every operation and every place of a death inside it, headers that the self-check accepts are those of
      a heap; and so they are in the end. */
  lemma OpSafe(m: Segment, op: HeapOp)
    requires Enabled(m, op)
    ensures SafeStores(m, OpStores(m, op))
  {
    hide Heap, Sane, ApplyAll, AllocateStores, DeallocateStores, ExpandStores, AllocateView, DeallocateView,
         ExpandView, SiteOf;
    match op
    case AllocateOp(v, b, used, p, n) =>
      AllocateRuns(m, v, b, used, p, n);
      AlwaysSafe(m, AllocateStores(v.frees, b, used, p, n), {v, AllocateView(v, b, used)});
    case DeallocateOp(v, b) =>
      DeallocateRuns(m, v, b);
      AlwaysSafe(m, DeallocateStores(SiteOf(v, b)), {v, DeallocateView(SiteOf(v, b))});
    case ExpandOp(pre, b, next, post, fs, used, p, n) =>
      ExpandRuns(m, pre, b, next, post, fs, used, p, n);
      AlwaysSafe(m, ExpandStores(fs, b, next, used, p, n),
                 {View(pre + [b, next] + post, fs), AbsorbedView(pre, b, next, post, fs),
                  ExpandView(pre, b, next, post, fs, used)});
    case RequestOp(p, n) =>
      RequestSafe(m, p, n);
    case GrowOp(v, size) =>
      GrowSafe(m, v, size);
    case ShrinkOp(v) =>
      ShrinkSafe(m, v);
  }

  lemma RequestSafe(m: Segment, p: int, n: Word)
    requires IsHeap(m)
    ensures SafeStores(m, [SetRequested(p, n)])
  {
    var v: View :| Heap(m, v.blocks, v.frees);
    HeadShape(m, v, SetRequested(p, n), {v});
    assert [SetRequested(p, n)][1..] == [];
  }

  // ---------------------------------------------------------------- going on after a death

  /** The headers are those of a heap that the allocator may go on with. */
  ghost predicate Legal(m: Segment) {
    exists v: View :: Heap(m, v.blocks, v.frees) && Roomy(m.first, v.blocks)
  }

  lemma {:induction false} FirstStays(m: Segment, ss: seq<Store>)
    ensures ApplyAll(m, ss).first == m.first && ApplyAll(m, ss).base == m.base
    decreases |ss|
  {
    if ss != [] { FirstStays(Apply(m, ss[0]), ss[1..]); }
  }

  lemma LegalView(m: Segment, v: View)
    requires Legal(m) && Heap(m, v.blocks, v.frees)
    ensures Roomy(m.first, v.blocks)
  {
    var w: View :| Heap(m, w.blocks, w.frees) && Roomy(m.first, w.blocks);
    ChainUnique(m, m.first, m.End(), v.blocks, w.blocks);
  }

  lemma IsLegal(d: Segment, v: View)
    requires Heap(d, v.blocks, v.frees) && Roomy(d.first, v.blocks)
    ensures Legal(d)
  {
  }

  lemma TiledLegal(d: Segment, mid: int, bs: seq<Block>, fs: seq<Block>)
    requires TiledHeap(d, mid, bs, fs) && Roomy(d.first, bs)
    ensures Legal(d)
  {
    var gs: seq<Block> :| Tiles(d, mid, d.End(), gs) && Heap(d, bs + gs, fs);
    IsLegal(d, View(bs + gs, fs));
  }

  /** Whatever operation a process dies in, and wherever: if the self-check accepts what it leaves, the allocator
      may go on with it. A block that is freed holds a payload, and so has at least 48 bytes. */
  lemma DeathIsLegal(m: Segment, op: HeapOp, k: nat)
    requires Enabled(m, op) && Legal(m) && k <= |OpStores(m, op)|
    requires op.DeallocateOp? ==> MIN_BLOCK <= op.b.size
    ensures Sane(Died(m, OpStores(m, op), k)) ==> Legal(Died(m, OpStores(m, op), k))
  {
    hide Heap, Sane, ApplyAll, Roomy, Legal, AllocateStores, DeallocateStores, ExpandStores, GrowStores, ShrinkStores,
         AllocateView, DeallocateView, ExpandView, AbsorbedView, SiteOf, Mergeable;
    var d := Died(m, OpStores(m, op), k);
    FirstStays(m, OpStores(m, op)[..k]);
    if Sane(d) {
      match op
      case AllocateOp(v, b, used, p, n) =>
        LegalView(m, v);
        ListedInChain(m, v, b);
        AllocateCrash(m, v, b, used, p, n, k);
        RoomyAllocate(m.first, v, b, used);
        IsLegalEither(d, v, AllocateView(v, b, used));
      case DeallocateOp(v, b) =>
        LegalView(m, v);
        DeallocateCrash(m, v, b, k);
        RoomyDeallocate(m.first, m, v, b);
        IsLegalEither(d, v, DeallocateView(SiteOf(v, b)));
      case ExpandOp(pre, b, next, post, fs, used, p, n) =>
        var v := View(pre + [b, next] + post, fs);
        LegalView(m, v);
        ExpandCrash(m, pre, b, next, post, fs, used, p, n, k);
        RoomyExpand(m.first, pre, b, next, post, fs, used);
        if Heap(d, v.blocks, v.frees) {
          IsLegal(d, v);
        } else {
          IsLegalEither(d, ExpandView(pre, b, next, post, fs, used), AbsorbedView(pre, b, next, post, fs));
        }
      case RequestOp(p, n) => RequestLegal(m, p, n, k);
      case GrowOp(v, size) => GrowLegal(m, v, size, k);
      case ShrinkOp(v) => ShrinkLegal(m, v, k);
    }
  }

  lemma ListedInChain(m: Segment, v: View, b: Block)
    requires Heap(m, v.blocks, v.frees) && b in v.frees
    ensures b in v.blocks
  {
  }

  lemma IsLegalEither(d: Segment, v: View, w: View)
    requires Heap(d, v.blocks, v.frees) || Heap(d, w.blocks, w.frees)
    requires Roomy(d.first, v.blocks) && Roomy(d.first, w.blocks)
    ensures Legal(d)
  {
    if Heap(d, v.blocks, v.frees) { IsLegal(d, v); } else { IsLegal(d, w); }
  }

  lemma RequestLegal(m: Segment, p: int, n: Word, k: nat)
    requires Legal(m) && k <= 1
    ensures Legal(Died(m, [SetRequested(p, n)], k))
  {
    var v: View :| Heap(m, v.blocks, v.frees) && Roomy(m.first, v.blocks);
    var s := SetRequested(p, n);
    PayloadKeepsShape(m, v.blocks, v.frees, s);
    DiedEnds(m, [s]);
    assert [s][..0] == [] && [s][..1] == [s];
    IsLegal(Died(m, [s], k), v);
  }

  lemma GrowLegal(m: Segment, v: View, size: int, k: nat)
    requires CanGrow(m, v, size) && Legal(m) && k <= |GrowStores(v, m.size, m.End(), size)|
    requires Sane(Died(m, GrowStores(v, m.size, m.End(), size), k))
    ensures Legal(Died(m, GrowStores(v, m.size, m.End(), size), k))
  {
    hide Heap, Sane, ApplyAll, Roomy, Legal, GrowStores, GrowView, LooksTiled, TiledHeap;
    var ss := GrowStores(v, m.size, m.End(), size);
    var d := Died(m, ss, k);
    FirstStays(m, ss[..k]);
    LegalView(m, v);
    GrowEnds(m, v, size);
    GrowDeath(m, v, size, k);
    if k == 0 || k == |ss| {
      RoomyGrow(m.first, v, m.End(), size - m.size);
      IsLegalEither(d, v, GrowView(v, m.End(), size - m.size));
    } else if k == 1 {
      GrowFirst(m, v, size);
      TiledLegal(d, m.End(), v.blocks, v.frees);
    } else {
      DiedNext(m, ss, 1);
      StaleLeak(m, v, size);
      RoomyAppend(m.first, v.blocks, Block(m.End(), size - m.size, false));
      IsLegal(d, View(v.blocks + [Block(m.End(), size - m.size, false)], v.frees));
    }
  }

  lemma RoomyAppend(first: int, bs: seq<Block>, b: Block)
    requires Roomy(first, bs) && !b.free
    ensures Roomy(first, bs + [b])
  {
  }

  lemma ShrinkLegal(m: Segment, v: View, k: nat)
    requires CanShrink(m, v) && Legal(m) && k <= |ShrinkStores(v, m.base)|
    requires Sane(Died(m, ShrinkStores(v, m.base), k))
    ensures Legal(Died(m, ShrinkStores(v, m.base), k))
  {
    hide Heap, Sane, ApplyAll, Legal, ShrinkStores, ShrinkView, LooksTiled, TiledHeap;
    var ss := ShrinkStores(v, m.base);
    var d := Died(m, ss, k);
    FirstStays(m, ss[..k]);
    LegalView(m, v);
    ShrinkEnds(m, v);
    ShrinkDeath(m, v, k);
    if k == 0 || k == |ss| {
      RoomyShrink(m.first, v);
      IsLegalEither(d, v, ShrinkView(v));
    } else {
      StubAccepted(m, v);
      TiledLegal(d, CutEnd(v), [Stub(v)], [Stub(v)]);
    }
  }
}
