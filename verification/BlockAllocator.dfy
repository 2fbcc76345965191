/** `SharedMemoryBlockAllocator`: the methods, each performing the stores of its list. */
module BlockAllocation {
  import opened Powers
  import opened Segments
  import opened Chains
  import opened Sanity
  import opened Heaps
  import opened HeapSteps
  import opened Operations
  import opened Release
  import opened Resize
  import opened History
  import opened Rooms
  import opened Requests

  // ---------------------------------------------------------------- alignment requests

  function NormalizeFrom(k: int, requested: int): (r: int)
    requires 0 < k
    ensures k <= r && requested <= r
    ensures k < r ==> r < 2 * requested
    decreases requested - k
  {
    if k < requested then NormalizeFrom(2 * k, requested) else k
  }

  /** The least of 16, 32, 64, ... that is not below the request. */
  function Normalized(requested: int): (r: int)
    ensures 16 <= r && requested <= r && (16 < r ==> r < 2 * requested)
  {
    NormalizeFrom(ALIGNMENT, requested)
  }

  /** `normalize_alignment`. */
  method NormalizeAlignment(requested: int) returns (r: int)
    ensures r == Normalized(requested)
    ensures exists e: nat :: r == Pow2(e)
  {
    r := ALIGNMENT;
    ghost var e: nat := 4;
    while r < requested
      invariant 0 < r == Pow2(e) && NormalizeFrom(r, requested) == Normalized(requested)
      decreases requested - r
    {
      r := 2 * r;
      e := e + 1;
    }
  }

  /** For powers of two, and so for every alignment used, the mask of `align_up` rounds up to a multiple. */
  lemma MaskIsAlignUp(x: nat, e: nat)
    ensures 0 < Pow2(e) && MaskOff(x + Pow2(e) - 1, e) == AlignUp(x, Pow2(e))
  {
    Pow2Mono(0, e);
    var q := MaskOffMultiple(x + Pow2(e) - 1, e);
    SameMultiple(Pow2(e), x, q * Pow2(e), AlignUp(x, Pow2(e)), q);
  }

  /** There is only one multiple of `p` from `x` up to `x + p`. */
  lemma SameMultiple(p: int, x: int, y: int, r: int, q: int)
    requires 0 < p && y == q * p && r % p == 0 && x <= y < x + p && x <= r < x + p
    ensures y == r
  {
    var d := r / p;
    assert r == d * p;
    if q < d { NextMultiple(p, q, d); }
    if d < q { NextMultiple(p, d, q); }
  }

  lemma NextMultiple(p: int, q: int, r: int)
    requires 0 < p && q < r
    ensures q * p + p <= r * p
  {
    var d := r - q - 1;
    assert 0 <= d * p;
    assert r * p == (q + 1 + d) * p == q * p + p + d * p;
  }

  ghost predicate SameRange(m: Segment, m': Segment) {
    m'.base == m.base && m'.first == m.first && m'.size == m.size
  }

  // ---------------------------------------------------------------- live payloads

  /** The allocation header in front of `p` and the bytes behind it lie in the block `b`. */
  ghost predicate Holds(m: Segment, b: Block, p: int) {
    && b.addr + HEADER_SIZE + ALLOCATION_HEADER_SIZE <= p
    && m.Allocation(p).block == b.addr
    && p + m.Allocation(p).requested <= b.End() && p < b.End()
  }

  /** `live` gives blocks in use the payloads they were handed out with. A death may have left others, whose
      headers say nothing. */
  ghost predicate Live(m: Segment, bs: seq<Block>, live: map<int, int>) {
    forall b :: b in bs && !b.free && b.addr in live ==> Holds(m, b, live[b.addr])
  }

  /** Payloads handed out for different blocks never overlap. */
  lemma LivePayloadsDisjoint(m: Segment, v: View, live: map<int, int>, b: Block, c: Block)
    requires Heap(m, v.blocks, v.frees) && Live(m, v.blocks, live)
    requires b in v.blocks && c in v.blocks && !b.free && !c.free && b != c && b.addr in live && c.addr in live
    ensures var p, q := live[b.addr], live[c.addr];
            || p + m.Allocation(p).requested <= q - ALLOCATION_HEADER_SIZE
            || q + m.Allocation(q).requested <= p - ALLOCATION_HEADER_SIZE
  {
    ChainAddrs(m, m.first, m.End(), v.blocks);
    var i :| 0 <= i < |v.blocks| && v.blocks[i] == b;
    var j :| 0 <= j < |v.blocks| && v.blocks[j] == c;
    assert i < j || j < i;
  }

  // ---------------------------------------------------------------- which pointers are accepted

  /** `is_valid_payload`, with the header bytes in front of `p` taken as they are. */
  predicate PayloadIn(m: Segment, b: Block, p: int) {
    && m.base <= p - ALLOCATION_HEADER_SIZE && p < m.End()
    && m.Allocation(p).block == b.addr
    && b.addr + HEADER_SIZE + ALLOCATION_HEADER_SIZE <= p < b.End()
    && m.Allocation(p).requested <= b.End() - p
  }

  /** The bytes in front of `p` name a block of the chain. */
  ghost predicate Names(m: Segment, bs: seq<Block>, p: int, b: Block) {
    b in bs && PayloadIn(m, b, p)
  }

  lemma NamesOne(m: Segment, v: View, p: int, b: Block, c: Block)
    requires Heap(m, v.blocks, v.frees) && Names(m, v.blocks, p, b) && Names(m, v.blocks, p, c)
    ensures b == c
  {
    ChainAddrs(m, m.first, m.End(), v.blocks);
  }

  /** A pointer whose block was just freed names no block in use, even after merges. */
  lemma FreedPointerIsDead(m: Segment, v: View, m': Segment, p: int, b: Block)
    requires Heap(m, v.blocks, v.frees) && Names(m, v.blocks, p, b) && !b.free
    requires m'.allocations == m.allocations
    ensures var w := SiteOf(v, b);
            && Mergeable(w)
            && forall c :: Names(m', DeallocateView(w).blocks, p, c) ==> c.free
  {
    DeallocateInUse(m, v, b);
    ChainAddrs(m, m.first, m.End(), v.blocks);
  }

  /** Exactly the blocks that one of the pointers names have gone out of use. */
  ghost predicate Unnamed(m: Segment, v: View, v': View, ptrs: seq<int>) {
    forall b: Block :: !b.free ==>
      (b in v'.blocks <==> b in v.blocks && !exists i :: 0 <= i < |ptrs| && Names(m, v.blocks, ptrs[i], b))
  }

  lemma NothingNamed(m: Segment, v: View)
    ensures Unnamed(m, v, v, [])
  {
  }

  lemma NullNamesNothing(m: Segment, v: View, v': View, ptrs: seq<int>)
    requires Heap(m, v.blocks, v.frees) && Unnamed(m, v, v', ptrs)
    ensures Unnamed(m, v, v', ptrs + [0])
  {
    assert forall b :: !Names(m, v.blocks, 0, b);
    assert forall i :: 0 <= i < |ptrs| ==> (ptrs + [0])[i] == ptrs[i];
  }

  lemma OneMoreNamed(m: Segment, v: View, m1: Segment, v1: View, m2: Segment, v2: View, ptrs: seq<int>, p: int,
                     b: Block, log: seq<Store>, log': seq<Store>)
    requires Heap(m, v.blocks, v.frees) && Heap(m1, v1.blocks, v1.frees) && SameRange(m, m1)
             && m1.allocations == m.allocations
    requires Unnamed(m, v, v1, ptrs) && Names(m1, v1.blocks, p, b) && Released(v1, b, m1, m2, v2, log, log')
    ensures Unnamed(m, v, v2, ptrs + [p])
  {
    ReleasedInUse(m1, v1, b, m2, v2, log, log');
    assert Names(m, v.blocks, p, b);
    hide Heap, Names, Released;
    var more := ptrs + [p];
    forall c: Block | !c.free
      ensures c in v2.blocks <==> c in v.blocks && !exists i :: 0 <= i < |more| && Names(m, v.blocks, more[i], c)
    {
      if c in v.blocks && Names(m, v.blocks, p, c) { NamesOne(m, v, p, b, c); }
      AnyOf(m, v, ptrs, p, c);
    }
  }

  lemma ReleasedInUse(m: Segment, v: View, b: Block, m': Segment, v': View, log: seq<Store>, log': seq<Store>)
    requires Heap(m, v.blocks, v.frees) && Released(v, b, m, m', v', log, log')
    ensures forall x: Block :: !x.free ==> (x in v'.blocks <==> x in v.blocks && x != b)
  {
    DeallocateInUse(m, v, b);
  }

  lemma AnyOf(m: Segment, v: View, ptrs: seq<int>, p: int, c: Block)
    ensures (exists i :: 0 <= i < |ptrs + [p]| && Names(m, v.blocks, (ptrs + [p])[i], c)) <==>
            (exists i :: 0 <= i < |ptrs| && Names(m, v.blocks, ptrs[i], c)) || Names(m, v.blocks, p, c)
  {
    hide Names;
    var more := ptrs + [p];
    assert more[|ptrs|] == p;
    assert forall i :: 0 <= i < |ptrs| ==> more[i] == ptrs[i];
  }

  /** The block behind the one being freed, and the blocks in front of it. */
  lemma SiteNeighbours(m: Segment, w: Site)
    requires Shape(m, w.Blocks(), w.fs)
    ensures w.b == BlockAt(m, w.b.addr) && m.first <= w.b.addr && w.b.End() <= m.End()
    ensures w.post == [] ==> w.b.End() == m.End()
    ensures w.post != [] ==> w.b.End() < m.End() && w.post[0] == BlockAt(m, w.b.End())
    ensures Chain(m, m.first, w.b.addr, w.pre)
    ensures w.pre != [] ==> var p := w.pre[|w.pre| - 1]; p == BlockAt(m, p.addr) && p.addr != 0
  {
    ChainParts(m, m.first, m.End(), w.pre, [w.b], w.post);
    assert [w.b][0] == w.b && [w.b][1..] == [] && w.b in [w.b];
    assert After(w.b.addr, [w.b]) == w.b.End();
    ChainBounds(m, m.first, w.b.addr, w.pre);
    if w.post != [] { assert w.post[0] in w.post; }
    if w.pre != [] { assert w.pre[|w.pre| - 1] in w.pre; }
  }

  /** Two stores that mark a block free keep the shape of a pending site. */
  lemma FreeEffect(m: Segment, pre: seq<Block>, b: Block, post: seq<Block>, fs: seq<Block>)
    requires Shape(m, pre + [b] + post, fs) && Pending(Site(pre, b.(free := true), post, fs))
    ensures Shape(ApplyAll(m, FreeStores(b.addr)), pre + [b.(free := true)] + post, fs)
  {
    FreeShape(m, pre, b, post, fs);
    PendingTorn(Site(pre, b.(free := true), post, fs), {});
    NextKeepsShape(Apply(m, SetFree(b.addr, true)), pre + [b.(free := true)] + post, fs, b.addr, 0);
    TwoStores(m, SetFree(b.addr, true), SetNext(b.addr, 0), {});
  }

  /** The block `b` was freed by the stores of `DeallocateStores`, and a death between any two of
      them is recoverable. */
  ghost predicate Released(v: View, b: Block, m: Segment, m': Segment, v': View, log: seq<Store>, log': seq<Store>) {
    && b in v.blocks && !b.free
    && var w := SiteOf(v, b);
    && Mergeable(w)
    && v' == DeallocateView(w) && log' == log + DeallocateStores(w) && m' == ApplyAll(m, DeallocateStores(w))
    && Always(m, DeallocateStores(w), {v, v'})
  }

  /** In a heap, the blocks of the chain are exactly what the chain walk reaches. */
  lemma InChainIffBlock(m: Segment, v: View, a: int)
    requires Heap(m, v.blocks, v.frees)
    ensures a < m.End() && Reach(m, m.first, a) <==> BlockAt(m, a) in v.blocks
    ensures forall b :: b in v.blocks ==> b == BlockAt(m, b.addr)
    ensures BlockAt(m, a) in v.blocks ==> a % ALIGNMENT == 0 && m.base <= a && a != 0
  {
    ChainBounds(m, m.first, m.End(), v.blocks);
    ChainAligned(m, m.first, m.End(), v.blocks);
    if a < m.End() && Reach(m, m.first, a) {
      ReachBlock(m, m.first, m.End(), v.blocks, a);
    }
    if BlockAt(m, a) in v.blocks {
      BlockReach(m, m.first, m.End(), v.blocks, BlockAt(m, a));
    }
  }

  /** Only the block at the named address can be the one a pointer names. */
  lemma NamedBlock(m: Segment, v: View, p: int)
    requires Heap(m, v.blocks, v.frees)
    ensures forall b :: Names(m, v.blocks, p, b) ==> b == BlockAt(m, m.Allocation(p).block)
  {
    ChainBounds(m, m.first, m.End(), v.blocks);
  }

  lemma MergedSite(w: Site)
    requires Mergeable(w)
    ensures MergeNext(w).b.addr == w.b.addr && MergeNext(w).pre == w.pre
    ensures Merged(w) == MergePrev(MergeNext(w))
  {
  }

  // ---------------------------------------------------------------- expansion

  /** The block `b`, alone or together with a free successor, reaches up to `end`. */
  ghost predicate CanReach(bs: seq<Block>, b: Block, end: int) {
    end <= b.End() || exists n :: n in bs && n.free && n.addr == b.End() && end <= n.End()
  }

  /** The tests of `try_expand` say exactly whether a payload of `n` bytes at `p` ends in time. */
  lemma ReachIsExact(m: Segment, v: View, b: Block, n: int, align: int, p: int)
    requires Heap(m, v.blocks, v.frees) && b in v.blocks && 0 < n && 0 < align && Payload(b.addr, align) == p
    ensures Total(b.addr, n, align) <= b.size <==> p + n <= b.End()
    ensures forall c :: c in v.blocks && c.addr == b.End() ==>
              (Total(b.addr, n, align) <= b.size + c.size <==> p + n <= c.End())
  {
    hide Chain, List, WellFormed, Total, Payload;
    ChainAligned(m, m.first, m.End(), v.blocks);
    TotalIsExact(b.addr, b.End(), n, align);
    forall c | c in v.blocks && c.addr == b.End()
      ensures Total(b.addr, n, align) <= b.size + c.size <==> p + n <= c.End()
    {
      assert (b.size + c.size) % ALIGNMENT == 0;
      TotalIsExact(b.addr, c.End(), n, align);
    }
  }

  /** In place of the block `b` the block `c` is in use, with a payload of `n` bytes at `p`; it is `b` itself, or
      longer by what was missing and less than 64 bytes more. Nothing else that is in use has changed. */
  ghost predicate Enlarged(m: Segment, v: View, b: Block, m': Segment, v': View, c: Block, p: int, n: Word) {
    && c.addr == b.addr && Names(m', v'.blocks, p, c) && !c.free && p + n <= c.End()
    && (if p + n <= b.End() then c == b else c.End() < p + n + 64)
    && (forall x: Block :: !x.free ==> (x in v'.blocks <==> (x in v.blocks && x != b) || x == c))
    && m'.allocations == m.allocations[p := AllocationHeader(b.addr, n)]
  }

  lemma EnlargedInPlace(m: Segment, v: View, b: Block, p: int, n: Word)
    requires Names(m, v.blocks, p, b) && !b.free && p + n <= b.End()
    ensures Enlarged(m, v, b, Apply(m, SetRequested(p, n)), v, b, p, n)
  {
  }

  lemma EnlargedByNext(m: Segment, pre: seq<Block>, b: Block, nb: Block, post: seq<Block>, fs: seq<Block>, n: Word,
                       align: int, p: int)
    requires Heap(m, pre + [b, nb] + post, fs) && !b.free && nb.free && nb in fs && 0 < n && 0 < align
    requires Names(m, pre + [b, nb] + post, p, b) && Payload(b.addr, align) == p
    requires b.size < Total(b.addr, n, align) <= b.size + nb.size
    requires var v' := ExpandView(pre, b, nb, post, fs, Total(b.addr, n, align));
             Heap(ApplyAll(m, ExpandStores(fs, b, nb, Total(b.addr, n, align), p, n)), v'.blocks, v'.frees)
    ensures var used := Total(b.addr, n, align);
            Enlarged(m, View(pre + [b, nb] + post, fs), b, ApplyAll(m, ExpandStores(fs, b, nb, used, p, n)),
                     ExpandView(pre, b, nb, post, fs, used), SplitBlocks(Absorbed(b, nb), used)[0], p, n)
  {
    hide ApplyAll, ExpandStores, ExpandView, Total, Payload;
    var used := Total(b.addr, n, align);
    var bs, v' := pre + [b, nb] + post, ExpandView(pre, b, nb, post, fs, used);
    var c, m' := SplitBlocks(Absorbed(b, nb), used)[0], ApplyAll(m, ExpandStores(fs, b, nb, used, p, n));
    assert b in bs;
    ExpandInUse(m, pre, b, nb, post, fs, used);
    ExpandHeader(m, fs, b, nb, used, p, n);
    TotalBounds(b.addr, n, align);
    ReachIsExact(m, View(bs, fs), b, n, align, p);
    assert used <= c.size < used + 48;
    assert c in v'.blocks;
    hide List, WellFormed, Chain;
    ChainBounds(m', m'.first, m'.End(), v'.blocks);
  }

  ghost predicate ExpandsInto(v: View, pre: seq<Block>, b: Block, n: Block, post: seq<Block>, used: int) {
    v.blocks == pre + [b, n] + post && n.free && n in v.frees && b.size < used <= b.size + n.size
  }

  /** The block `b` grew in place, alone or into its successor, by recoverable stores. */
  ghost predicate Expanded(v: View, b: Block, used: int, p: int, size: Word, m: Segment, m': Segment,
                           v': View, log: seq<Store>, log': seq<Store>) {
    || (used <= b.size && v' == v && log' == log + [SetRequested(p, size)] && m' == Apply(m, SetRequested(p, size)))
    || exists pre, n, post ::
         && ExpandsInto(v, pre, b, n, post, used)
         && v' == ExpandView(pre, b, n, post, v.frees, used)
         && log' == log + ExpandStores(v.frees, b, n, used, p, size)
         && m' == ApplyAll(m, ExpandStores(v.frees, b, n, used, p, size))
         && Always(m, ExpandStores(v.frees, b, n, used, p, size), {v, AbsorbedView(pre, b, n, post, v.frees), v'})
  }

  /** A longer block at the same address keeps its payload, and so does everybody else. */
  lemma ExpandLive(m: Segment, m': Segment, v: View, bs': seq<Block>, live: map<int, int>, b: Block, b': Block,
                   p: int, n: Word)
    requires Heap(m, v.blocks, v.frees) && Live(m, v.blocks, live)
    requires Names(m, v.blocks, p, b) && !b.free && b'.addr == b.addr && b.size <= b'.size
    requires m'.allocations == m.allocations[p := m.Allocation(p).(requested := n)] && p + n <= b'.End()
    requires forall x: Block :: x in bs' && !x.free ==> (x in v.blocks && x != b) || x == b'
    ensures Live(m', bs', live)
  {
    forall x | x in bs' && !x.free && x.addr in live ensures Holds(m', x, live[x.addr]) {
      if x != b' {
        OtherPayload(m, v, live, b, x, p);
      }
    }
  }

  /** Splitting the chain around a block and its successor. */
  lemma AroundTwo(m: Segment, v: View, b: Block) returns (pre: seq<Block>, post: seq<Block>)
    requires Heap(m, v.blocks, v.frees) && b in v.blocks
    ensures v.blocks == pre + [b] + post
    ensures b.End() < m.End() <==> post != []
    ensures post != [] ==> post[0] == BlockAt(m, b.End()) && v.blocks == pre + [b, post[0]] + post[1..]
    ensures forall n :: n in v.blocks && n.addr == b.End() ==> post != [] && n == post[0]
  {
    hide Chain, List, WellFormed;
    pre, post := Around(v.blocks, b);
    SiteNeighbours(m, Site(pre, b, post, v.frees));
    ChainBounds(m, m.first, m.End(), v.blocks);
    assert post != [] ==> pre + [b] + post == pre + [b, post[0]] + post[1..];
  }

  lemma ExpandHeader(m: Segment, fs: seq<Block>, b: Block, n: Block, used: int, p: int, size: Word)
    requires n in fs
    ensures var m' := ApplyAll(m, ExpandStores(fs, b, n, used, p, size));
            m'.allocations == m.allocations[p := m.Allocation(p).(requested := size)]
            && m'.base == m.base && m'.first == m.first
  {
    hide ApplyAll, AbsorbStores, SplitStores, Without;
    var ab, sp := AbsorbStores(fs, n, b, n), SplitStores(Without(fs, n), b.addr, b.size + n.size, used);
    var ss := ab + sp;
    AbsorbHeaderOnly(fs, n, b, n);
    SplitHeaderOnly(Without(fs, n), b.addr, b.size + n.size, used);
    HeaderOnlyConcat(ab, sp);
    KeepsAllocations(m, ss);
    KeepsPlace(m, ss);
    ApplyConcat(m, ss, [SetRequested(p, size)]);
    ApplyOne(ApplyAll(m, ss), SetRequested(p, size));
  }

  // ---------------------------------------------------------------- the last block

  /** The last block as the walk to the old end finds it. */
  lemma TailHeader(m: Segment, v: View)
    requires Heap(m, v.blocks, v.frees)
    ensures var t := v.blocks[|v.blocks| - 1];
            t == BlockAt(m, t.addr) && t.addr == LastAddr(v.blocks) && 0 < t.addr && t.End() == m.End()
  {
    var pre, t := v.blocks[..|v.blocks| - 1], v.blocks[|v.blocks| - 1];
    assert v.blocks == pre + [t];
    LastBlock(m, m.first, m.End(), pre, t);
    ChainBounds(m, m.first, t.addr, pre);
  }

  lemma GrownSized(m: Segment, pre: seq<Block>, t: Block, t': Block, fs: seq<Block>)
    requires t in fs && Shape(m, pre + [t'], Without(fs, t))
    requires forall x :: x in Without(fs, t) ==> x in pre
    ensures Sized(m, Without(fs, t)) && m.Size(t'.addr) == t'.size
  {
    ChainBounds(m, m.first, m.End(), pre + [t']);
    assert t' in pre + [t'];
  }

  lemma AppendedSized(m: Segment, m': Segment, v: View, extra: int)
    requires Heap(m, v.blocks, v.frees) && Shape(m', v.blocks + [Block(m.End(), extra, true)], v.frees)
    ensures Sized(m', v.frees) && m'.Size(m.End()) == extra
  {
    var b := Block(m.End(), extra, true);
    ChainBounds(m', m'.first, m'.End(), v.blocks + [b]);
    assert b in v.blocks + [b];
  }

  lemma NoStores(m: Segment, v: View)
    requires !Shrinks(v)
    ensures ApplyAll(m, ShrinkStores(v, m.base)) == m
  {
  }

  lemma FirstIsLast(m: Segment, v: View)
    requires Heap(m, v.blocks, v.frees)
    ensures v.blocks[|v.blocks| - 1].addr == m.first <==> |v.blocks| == 1
  {
    HeapDisjoint(m, v.blocks);
    assert v.blocks[0].addr == m.first;
    assert |v.blocks| > 1 ==> v.blocks[0].addr < v.blocks[|v.blocks| - 1].addr;
  }

  lemma EmptyList(m: Segment)
    ensures m.head == 0 ==> List(m, m.head, 0, []) && Sized(m, [])
  {
  }

  lemma DropStores(m: Segment, v: View, t: Block)
    requires Shrinks(v) && t == v.blocks[|v.blocks| - 1] && t in v.frees && Keep(v) == 0
    ensures ApplyAll(m, ShrinkStores(v, m.base)) ==
            Apply(ApplyAll(m, RemoveStores(v.frees, t)), SetSegmentSize(t.addr - m.base))
  {
    var r := RemoveStores(v.frees, t);
    assert ShrinkStores(v, m.base) == r + [SetSegmentSize(t.addr - m.base)];
    ApplyConcat(m, r, [SetSegmentSize(t.addr - m.base)]);
    ApplyOne(ApplyAll(m, r), SetSegmentSize(t.addr - m.base));
  }

  lemma KeepStores(m: Segment, v: View, t: Block)
    requires v.blocks == [t] && v.frees == [t] && t.free && MIN_BLOCK < t.size
    ensures var m1 := ApplyAll(m, RemoveStores(v.frees, t));
            var m2 := Apply(Apply(Apply(m1, SetSize(t.addr, Wrap(MIN_BLOCK))), SetFree(t.addr, true)),
                            SetNext(t.addr, 0));
            && m1.head == 0
            && ApplyAll(m, ShrinkStores(v, m.base)) ==
               Apply(ApplyAll(m2, InsertStores([], Block(t.addr, MIN_BLOCK, true))),
                     SetSegmentSize(t.addr - m.base + MIN_BLOCK))
  {
    var r, i := RemoveStores(v.frees, t), InsertStores([], Block(t.addr, MIN_BLOCK, true));
    var s0, s1, s2 := SetSize(t.addr, Wrap(MIN_BLOCK)), SetFree(t.addr, true), SetNext(t.addr, 0);
    var z := SetSegmentSize(t.addr - m.base + MIN_BLOCK);
    assert Without(v.frees, t) == [];
    assert ShrinkStores(v, m.base) == r + ([s0, s1] + ([s2] + (i + [z])));
    assert r[0] == SetHead(0);
    hide ApplyAll, RemoveStores, InsertStores, ShrinkStores;
    TwoStores(m, r[0], r[1], {});
    InFiveParts(m, r, s0, s1, s2, i, z);
  }

  lemma InFiveParts(m: Segment, r: seq<Store>, s0: Store, s1: Store, s2: Store, i: seq<Store>, z: Store)
    ensures ApplyAll(m, r + ([s0, s1] + ([s2] + (i + [z])))) ==
            Apply(ApplyAll(Apply(Apply(Apply(ApplyAll(m, r), s0), s1), s2), i), z)
  {
    hide ApplyAll, Apply;
    var m1 := ApplyAll(m, r);
    var m' := Apply(Apply(m1, s0), s1);
    ApplyConcat(m, r, [s0, s1] + ([s2] + (i + [z])));
    ApplyConcat(m1, [s0, s1], [s2] + (i + [z]));
    TwoStores(m1, s0, s1, {});
    ApplyConcat(m', [s2], i + [z]);
    ApplyOne(m', s2);
    ApplyConcat(Apply(m', s2), i, [z]);
    ApplyOne(ApplyAll(Apply(m', s2), i), z);
  }

  // ---------------------------------------------------------------- the initial heap

  /** What `initialize` writes: one free block behind the manager's own header. */
  ghost predicate Fresh(m: Segment) {
    && m.Mapped() && m.base % ALIGNMENT == 0 && m.first + HEADER_SIZE <= m.End()
    && m.Hdr(m.first) == Header(m.End() - m.first, true, 0) && m.head == m.first
  }

  /** The fresh heap is a heap, and passes the self-check, exactly when its size is aligned. */
  lemma FreshHeap(m: Segment)
    requires Fresh(m)
    ensures Sane(m) <==> m.size % ALIGNMENT == 0
    ensures m.size % ALIGNMENT == 0 ==>
              var b := Block(m.first, m.End() - m.first, true); Heap(m, [b], [b])
  {
    var b := Block(m.first, m.End() - m.first, true);
    ReachStep(m, m.first, m.End());
    if Sane(m) {
      SaneReaches(m);
    }
    if m.size % ALIGNMENT == 0 {
      assert (m.End() - m.first) % ALIGNMENT == 0;
      assert [b][1..] == [];
      assert Chain(m, m.End(), m.End(), []) && List(m, 0, 0, []);
      assert Chain(m, m.first, m.End(), [b]) && List(m, m.head, 0, [b]);
      SingleWellFormed(b);
      HeapIsSane(m, [b], [b]);
    }
  }

  // ---------------------------------------------------------------- payload bytes

  /** The bytes from `a` to `b` lie outside those from `lo` to `hi`. */
  predicate Clear(a: int, b: int, lo: int, hi: int) { b <= lo || hi <= a }

  /** Only bytes from `lo` to `hi` differ: every field of a header that has none of them is the same. A block
      header holds its size at 0, its flag at 8 and its link at 16; an allocation header lies in front of its
      payload. */
  ghost predicate ChangedWithin(m: Segment, m': Segment, lo: int, hi: int) {
    && m'.base == m.base && m'.first == m.first && m'.size == m.size && m'.head == m.head
    && (forall a :: Clear(a, a + 8, lo, hi) ==> m'.Size(a) == m.Size(a))
    && (forall a :: Clear(a + 8, a + 9, lo, hi) ==> m'.Free(a) == m.Free(a))
    && (forall a :: Clear(a + 16, a + 24, lo, hi) ==> m'.Next(a) == m.Next(a))
    && (forall p :: Clear(p - 16, p - 8, lo, hi) ==> m'.Allocation(p).block == m.Allocation(p).block)
    && (forall p :: Clear(p - 8, p, lo, hi) ==> m'.Allocation(p).requested == m.Allocation(p).requested)
  }

  /** The bytes belong to a free block, behind its header, or to the payload of a block in use. */
  ghost predicate PayloadBytes(bs: seq<Block>, live: map<int, int>, b: Block, lo: int, hi: int) {
    && b in bs && b.addr + HEADER_SIZE <= lo && hi <= b.End()
    && (!b.free ==> b.addr in live && live[b.addr] <= lo)
  }

  /** Such bytes meet no block header of the chain and no allocation header in use. */
  lemma PayloadMeetsNoHeader(m: Segment, v: View, live: map<int, int>, b: Block, lo: int, hi: int)
    requires Heap(m, v.blocks, v.frees) && Live(m, v.blocks, live) && PayloadBytes(v.blocks, live, b, lo, hi)
    ensures forall c :: c in v.blocks ==> Clear(c.addr, c.addr + HEADER_SIZE, lo, hi)
    ensures forall c :: c in v.blocks && !c.free && c.addr in live ==>
              Clear(live[c.addr] - ALLOCATION_HEADER_SIZE, live[c.addr], lo, hi)
  {
    hide Chain, List, WellFormed;
    ChainBounds(m, m.first, m.End(), v.blocks);
    forall c | c in v.blocks ensures c == b || c.End() <= b.addr || b.End() <= c.addr {
      BlocksApart(m, m.first, m.End(), v.blocks, b, c);
    }
  }

  lemma BlocksApart(m: Segment, a: int, end: int, bs: seq<Block>, b: Block, c: Block)
    requires Chain(m, a, end, bs) && b in bs && c in bs
    ensures c == b || c.End() <= b.addr || b.End() <= c.addr
  {
    hide Chain;
    ChainAddrs(m, a, end, bs);
    var i :| 0 <= i < |bs| && bs[i] == b;
    var j :| 0 <= j < |bs| && bs[j] == c;
    assert i < j || j < i || i == j;
  }

  /** So whatever users write into their payloads, and whatever is written into free blocks, shows neither
      in the chain nor in the free list nor in what the blocks in use hold. */
  lemma PayloadBytesInvisible(m: Segment, m': Segment, v: View, live: map<int, int>, b: Block, lo: int, hi: int)
    requires Heap(m, v.blocks, v.frees) && Live(m, v.blocks, live) && PayloadBytes(v.blocks, live, b, lo, hi)
    requires ChangedWithin(m, m', lo, hi)
    ensures Heap(m', v.blocks, v.frees) && Live(m', v.blocks, live)
    ensures forall c :: c in v.blocks ==> m'.Hdr(c.addr) == m.Hdr(c.addr)
    ensures forall c :: c in v.blocks && !c.free && c.addr in live ==>
              m'.Allocation(live[c.addr]) == m.Allocation(live[c.addr])
  {
    PayloadMeetsNoHeader(m, v, live, b, lo, hi);
    SameHeaders(m, m', v.blocks, live, lo, hi);
    ChainFrame(m, m', m.first, m.End(), v.blocks);
    ListFrame(m, m', m.head, 0, v.frees);
  }

  lemma SameHeaders(m: Segment, m': Segment, bs: seq<Block>, live: map<int, int>, lo: int, hi: int)
    requires ChangedWithin(m, m', lo, hi) && Live(m, bs, live)
    requires forall c :: c in bs ==> Clear(c.addr, c.addr + HEADER_SIZE, lo, hi)
    requires forall c :: c in bs && !c.free && c.addr in live ==>
               Clear(live[c.addr] - ALLOCATION_HEADER_SIZE, live[c.addr], lo, hi)
    ensures forall c :: c in bs ==> m'.Hdr(c.addr) == m.Hdr(c.addr)
    ensures forall c :: c in bs && !c.free && c.addr in live ==>
              m'.Allocation(live[c.addr]) == m.Allocation(live[c.addr])
  {
    forall c | c in bs ensures m'.Hdr(c.addr) == m.Hdr(c.addr) {
      assert Clear(c.addr, c.addr + 8, lo, hi) && Clear(c.addr + 8, c.addr + 9, lo, hi);
      assert Clear(c.addr + 16, c.addr + 24, lo, hi);
      assert m'.Size(c.addr) == m.Size(c.addr) && m'.Free(c.addr) == m.Free(c.addr);
      assert m'.Next(c.addr) == m.Next(c.addr);
    }
    forall c | c in bs && !c.free && c.addr in live ensures m'.Allocation(live[c.addr]) == m.Allocation(live[c.addr]) {
      var p := live[c.addr];
      assert Clear(p - 16, p - 8, lo, hi) && Clear(p - 8, p, lo, hi);
    }
  }

  /** `memset` to zero: a field with a cleared byte reads as zero, and a link of offset zero as its own place. */
  function Zeroed(m: Segment, lo: int, hi: int): Segment {
    m.(headers := map a | a in m.headers ::
         Header(if Clear(a, a + 8, lo, hi) then m.headers[a].size else 0,
                Clear(a + 8, a + 9, lo, hi) && m.headers[a].free,
                if Clear(a + 16, a + 24, lo, hi) then m.headers[a].next else a + 16),
       allocations := map p | p in m.allocations ::
         AllocationHeader(if Clear(p - 16, p - 8, lo, hi) then m.allocations[p].block else p - 16,
                          if Clear(p - 8, p, lo, hi) then m.allocations[p].requested else 0))
  }

  lemma ZeroedWithin(m: Segment, lo: int, hi: int)
    ensures ChangedWithin(m, Zeroed(m, lo, hi), lo, hi)
  {
  }

  /** Every header inside the free blocks `fs` reads as zeros. */
  ghost predicate Wiped(m: Segment, fs: seq<Block>) {
    forall i, a :: 0 <= i < |fs| && fs[i].addr + HEADER_SIZE <= a && a + HEADER_SIZE <= fs[i].End() ==>
      m.Size(a) == 0 && !m.Free(a)
  }

  lemma WipedNone(m: Segment)
    ensures Wiped(m, [])
  {
  }

  lemma ListedBlock(m: Segment, v: View, k: nat)
    requires Heap(m, v.blocks, v.frees) && k < |v.frees|
    ensures v.frees[k] in v.blocks && v.frees[k].free && v.frees[k] == BlockAt(m, v.frees[k].addr)
  {
    ChainBounds(m, m.first, m.End(), v.blocks);
    assert v.frees[k] in v.frees;
  }

  /** The walk goes on with the rest of the list. */
  lemma NextListed(m: Segment, v: View, k: nat)
    requires List(m, m.head, 0, v.frees) && k < |v.frees|
    ensures List(m, m.Next(v.frees[k].addr), 0, v.frees[k + 1..]) && v.frees[k].addr != 0
  {
    assert v.frees == v.frees[..k] + v.frees[k..];
    ListSplit(m, m.head, v.frees[..k], v.frees[k..]);
    assert v.frees[k..][1..] == v.frees[k + 1..];
  }

  ghost predicate Kept(m: Segment, m': Segment, live: map<int, int>, b: Block) {
    b.addr in live ==> m'.Allocation(live[b.addr]) == m.Allocation(live[b.addr])
  }

  lemma KeptBefore(m: Segment, bs: seq<Block>, live: map<int, int>)
    requires Live(m, bs, live)
    ensures forall b :: b in bs && !b.free ==> Kept(m, m, live, b)
  {
  }

  lemma WipedMore(m: Segment, fs: seq<Block>, b: Block)
    requires Wiped(m, fs)
    ensures Wiped(Zeroed(m, b.addr + HEADER_SIZE, b.End()), fs + [b])
  {
    var lo, hi := b.addr + HEADER_SIZE, b.End();
    var m', more := Zeroed(m, lo, hi), fs + [b];
    forall i, a | 0 <= i < |more| && more[i].addr + HEADER_SIZE <= a && a + HEADER_SIZE <= more[i].End()
      ensures m'.Size(a) == 0 && !m'.Free(a)
    {
      if i < |fs| { assert fs[i] == more[i] && m.Size(a) == 0 && !m.Free(a); }
      assert i == |fs| ==> !Clear(a, a + 8, lo, hi) && !Clear(a + 8, a + 9, lo, hi);
    }
  }

  // ---------------------------------------------------------------- first fit

  lemma NoneFits(fs: seq<Block>, n: int, align: int)
    requires 0 < align && forall i :: 0 <= i < |fs| ==> !Fits(fs[i], n, align)
    ensures forall c :: c in fs ==> !Fits(c, n, align)
  {
  }

  /** The first block of the list that can hold the request. */
  ghost predicate FirstFit(fs: seq<Block>, k: nat, n: int, align: int)
    requires 0 < align
  {
    && k < |fs| && Fits(fs[k], n, align)
    && forall i :: 0 <= i < k ==> !Fits(fs[i], n, align)
  }

  /** In the sorted list the first fit is a smallest block that can hold the request. */
  lemma FirstFitIsBest(fs: seq<Block>, k: nat, n: int, align: int)
    requires 0 < align && Sorted(fs) && FirstFit(fs, k, n, align)
    ensures forall c :: c in fs && Fits(c, n, align) ==> c == fs[k] || Before(fs[k], c)
  {
    forall c | c in fs && Fits(c, n, align) ensures c == fs[k] || Before(fs[k], c) {
      var j :| 0 <= j < |fs| && fs[j] == c;
      assert k < j ==> Before(fs[k], fs[j]);
    }
  }

  /** A best-fitting block `b` was taken for a payload of `n` bytes at `p`, by the stores of
      `AllocateStores`, and a death between any two of them is recoverable. */
  ghost predicate Took(v: View, b: Block, n: Word, align: int, p: int, m: Segment, m': Segment, live: map<int, int>,
                       v': View, live': map<int, int>, log: seq<Store>, log': seq<Store>) {
    && 0 < align && b in v.blocks && BestFor(v, Request(n, align), b)
    && p == Payload(b.addr, align) && IsPayload(b.addr, align, p)
    && var used := Total(b.addr, n, align);
    && v' == AllocateView(v, b, used) && live' == live[b.addr := p]
    && log' == log + AllocateStores(v.frees, b, used, p, n) && m' == ApplyAll(m, AllocateStores(v.frees, b, used, p, n))
    && Always(m, AllocateStores(v.frees, b, used, p, n), {v, v'})
  }

  /** In a heap the test of `allocate` says exactly whether a free block has room. */
  lemma FitsIsRoom(m: Segment, v: View, n: Word, align: int)
    requires Heap(m, v.blocks, v.frees) && 0 < n && 0 < align
    ensures forall c :: c in v.frees ==> (Fits(c, n, align) <==> RoomIn(c, Request(n, align)))
  {
    ChainAligned(m, m.first, m.End(), v.blocks);
    forall c | c in v.frees ensures Fits(c, n, align) <==> RoomIn(c, Request(n, align)) {
      assert c in v.blocks;
      TotalIsExact(c.addr, c.End(), n, align);
    }
  }

  lemma TookServes(v: View, b: Block, n: Word, align: int, p: int, m: Segment, m': Segment, live: map<int, int>,
                   v': View, live': map<int, int>, log: seq<Store>, log': seq<Store>)
    requires Took(v, b, n, align, p, m, m', live, v', live', log, log')
    ensures TakesTo(v, Request(n, align), v')
  {
  }

  /** The block `c` holds a payload of `n` bytes at `p`, its first aligned address behind both headers, and fewer
      than 64 bytes more; its allocation header says so. */
  ghost predicate Handed(m: Segment, v: View, c: Block, p: int, n: Word, align: int)
    requires 0 < align
  {
    && Names(m, v.blocks, p, c) && !c.free && m.Allocation(p) == AllocationHeader(c.addr, n)
    && IsPayload(c.addr, align, p) && p + n <= c.End() < p + n + 64
  }

  lemma TakenTight(b: Block, used: int)
    requires used <= b.size
    ensures Taken(b, used) == Block(b.addr, if b.size - used < 48 then b.size else used, false)
  {
  }

  lemma TookHanded(v: View, b: Block, n: Word, align: int, p: int, m: Segment, m': Segment, live: map<int, int>,
                   v': View, live': map<int, int>, log: seq<Store>, log': seq<Store>)
    requires Heap(m, v.blocks, v.frees) && Heap(m', v'.blocks, v'.frees) && SameRange(m, m') && 0 < n
    requires Took(v, b, n, align, p, m, m', live, v', live', log, log')
    ensures var c := Taken(b, Total(b.addr, n, align));
            && OneMore(v, v', c) && Handed(m', v', c, p, n, align) && live' == live[c.addr := p]
    ensures forall q :: q != p ==> m'.Allocation(q) == m.Allocation(q)
  {
    hide Chain, List, WellFormed, AllocateView, AllocateStores, ApplyAll, Always, Taken, OneMore;
    var used := Total(b.addr, n, align);
    FitsIsRoom(m, v, n, align);
    TotalBounds(b.addr, n, align);
    TakenTight(b, used);
    TookOneMore(m, m', v, b, n, align, p, live, v', live', log, log');
    AllocateHeader(m, v.frees, b, used, p, n);
    OneMoreThere(v, v', Taken(b, used));
    ChainBounds(m', m'.first, m'.End(), v'.blocks);
  }

  lemma OneMoreThere(v: View, w: View, c: Block)
    requires OneMore(v, w, c)
    ensures c in w.blocks && !c.free
  {
  }

  /** What was handed out before is still held when another block is taken. */
  lemma StillHanded(m: Segment, v: View, c: Block, p: int, n: Word, align: int, m': Segment, v': View, d: Block, q: int)
    requires 0 < align && Handed(m, v, c, p, n, align) && OneMore(v, v', d) && SameRange(m, m')
    requires Heap(m', v'.blocks, v'.frees) && Names(m', v'.blocks, q, d)
    requires forall x :: x != q ==> m'.Allocation(x) == m.Allocation(x)
    ensures Handed(m', v', c, p, n, align)
  {
    hide Heap;
    assert c in v'.blocks && c != d;
    PayloadsOfTwo(m', v', c, p, d, q);
  }

  /** Every payload is held by its block. */
  ghost predicate AllHanded(m: Segment, v: View, taken: seq<Block>, out: seq<int>, n: Word, align: int)
    requires 0 < align
  {
    |taken| == |out| && forall i :: 0 <= i < |out| ==> Handed(m, v, taken[i], out[i], n, align)
  }

  lemma AllHandedMore(m: Segment, v: View, taken: seq<Block>, out: seq<int>, n: Word, align: int, m': Segment,
                      v': View, d: Block, q: int)
    requires 0 < align && AllHanded(m, v, taken, out, n, align) && OneMore(v, v', d) && SameRange(m, m')
    requires Heap(m', v'.blocks, v'.frees) && Handed(m', v', d, q, n, align)
    requires forall x :: x != q ==> m'.Allocation(x) == m.Allocation(x)
    ensures AllHanded(m', v', taken + [d], out + [q], n, align)
  {
    HandedNames(m', v', d, q, n, align);
    hide Heap, OneMore, Names, Handed;
    forall i | 0 <= i < |out| ensures Handed(m', v', taken[i], out[i], n, align) {
      StillHanded(m, v, taken[i], out[i], n, align, m', v', d, q);
    }
  }

  lemma NothingHanded(m: Segment, v: View, n: Word, align: int)
    requires 0 < align
    ensures AllHanded(m, v, [], [], n, align)
    ensures forall q :: Served(v, Same(q, 0), v)
  {
  }

  lemma HandedNames(m: Segment, v: View, c: Block, p: int, n: Word, align: int)
    requires 0 < align && Handed(m, v, c, p, n, align)
    ensures Names(m, v.blocks, p, c)
  {
  }

  /** A pointer inside one block is none inside another. */
  lemma PayloadsOfTwo(m: Segment, v: View, c: Block, p: int, d: Block, q: int)
    requires Heap(m, v.blocks, v.frees) && c in v.blocks && d in v.blocks && c != d
    requires c.addr <= p < c.End() && d.addr <= q < d.End()
    ensures p != q
  {
    BlocksApart(m, m.first, m.End(), v.blocks, c, d);
  }

  // ---------------------------------------------------------------- list positions

  /** The headers of the listed blocks have the listed sizes. */
  ghost predicate Sized(m: Segment, fs: seq<Block>) {
    forall b :: b in fs ==> m.Size(b.addr) == b.size
  }

  lemma WithinSized(m: Segment, bs: seq<Block>, fs: seq<Block>)
    requires Shape(m, bs, fs) && Within(bs, fs)
    ensures Sized(m, fs)
  {
    ChainBounds(m, m.first, m.End(), bs);
  }

  ghost function PrevAddr(fs: seq<Block>, k: nat): int
    requires k <= |fs|
  {
    if k == 0 then 0 else fs[k - 1].addr
  }

  lemma SortedIndex(fs: seq<Block>, k: nat)
    requires Sorted(fs) && k < |fs|
    ensures IndexOf(fs, fs[k]) == k
  {
    var i := IndexOf(fs, fs[k]);
    assert forall j :: 0 <= j < i ==> fs[j] == fs[..i][j];
    assert i < k ==> Before(fs[i], fs[k]);
  }

  /** The header of a listed block is what the list says of it. */
  lemma ListedHeader(m: Segment, v: View, k: nat)
    requires Heap(m, v.blocks, v.frees) && k < |v.frees|
    ensures BlockAt(m, v.frees[k].addr) == v.frees[k] && v.frees[k].free
  {
    ChainBounds(m, m.first, m.End(), v.blocks);
    assert v.frees[k] in v.frees;
  }

  lemma ListAt(m: Segment, fs: seq<Block>, k: nat)
    requires List(m, m.head, 0, fs) && k < |fs|
    ensures fs[k].addr != 0 && m.Next(fs[k].addr) == HeadAddr(fs[k + 1..])
    ensures HeadAddr(fs[k..]) == fs[k].addr
  {
    assert fs == fs[..k] + fs[k..];
    ListSplit(m, m.head, fs[..k], fs[k..]);
    assert fs[k..] == [fs[k]] + fs[k + 1..];
    ListSplit(m, fs[k].addr, [fs[k]], fs[k + 1..]);
    assert [fs[k]][1..] == [];
  }

  // ---------------------------------------------------------------- splitting

  lemma SplitSize(m: Segment, b: Block, used: int)
    requires 0 < used && MIN_BLOCK <= b.size - used < WORD
    ensures ApplyAll(m, HeaderStores(b.addr, b.size, used)).Size(b.addr + used) == b.size - used
  {
    var hs := HeaderStores(b.addr, b.size, used);
    FourStores(m, hs[0], hs[1], hs[2], hs[3], {});
  }

  /** The list still names blocks of the chain when none of them is the one that was split. */
  lemma WithinSplit(pre: seq<Block>, b: Block, post: seq<Block>, fs: seq<Block>, used: int)
    requires Within(pre + [b] + post, fs) && b !in fs
    ensures Within(pre + SplitBlocks(b, used) + post, fs)
  {
  }

  /** After its removal the block is free and unlisted, and the list still fits the chain. */
  lemma RemovedTorn(m: Segment, v: View, b: Block)
    requires Heap(m, v.blocks, v.frees) && b in v.frees
    ensures var m1 := ApplyAll(m, RemoveStores(v.frees, b)); Shape(m1, v.blocks, Without(v.frees, b))
    ensures b in v.blocks && Torn(View(v.blocks, Without(v.frees, b)))
    ensures Within(v.blocks, Without(v.frees, b)) && b !in Without(v.frees, b)
  {
    RemoveEffect(m, v.blocks, v.frees, b);
    UnlinkShape(m, v.blocks, v.frees, b);
    WithoutSorted(v.frees, b);
  }

  /** What the split of `allocate_from_block` meets. */
  lemma RemovedReady(m: Segment, v: View, b: Block) returns (pre: seq<Block>, post: seq<Block>)
    requires Heap(m, v.blocks, v.frees) && b in v.frees
    ensures List(m, m.head, 0, v.frees) && b !in Without(v.frees, b)
    ensures Shape(ApplyAll(m, RemoveStores(v.frees, b)), pre + [b] + post, Without(v.frees, b))
    ensures Tolerated(View(pre + [b] + post, Without(v.frees, b)), {}) && Within(pre + [b] + post, Without(v.frees, b))
  {
    RemovedTorn(m, v, b);
    hide Chain, List, WellFormed, ApplyAll, IndexOf, Torn;
    pre, post := Around(v.blocks, b);
  }

  // ---------------------------------------------------------------- allocation headers

  /** Stores into block headers leave the allocation headers alone. */
  lemma {:induction false} KeepsAllocations(m: Segment, ss: seq<Store>)
    requires forall s :: s in ss ==> !s.SetBlock? && !s.SetRequested?
    ensures ApplyAll(m, ss).allocations == m.allocations
    decreases |ss|
  {
    if ss != [] {
      assert ss[0] in ss;
      KeepsAllocations(Apply(m, ss[0]), ss[1..]);
    }
  }

  /** An allocation writes one allocation header, the one in front of its payload. */
  lemma AllocateHeader(m: Segment, fs: seq<Block>, b: Block, used: int, p: int, n: Word)
    requires b in fs
    ensures var m' := ApplyAll(m, AllocateStores(fs, b, used, p, n));
            m'.Allocation(p) == AllocationHeader(b.addr, n) &&
            forall q :: q != p ==> m'.Allocation(q) == m.Allocation(q)
  {
    hide ApplyAll, InsertPos, IndexOf;
    var ss := RemoveStores(fs, b) + SplitStores(Without(fs, b), b.addr, b.size, used);
    KeepsAllocations(m, ss);
    ApplyConcat(m, ss, CommitStores(b.addr, p, n));
    CommitHeader(ApplyAll(m, ss), b.addr, p, n);
  }

  lemma CommitHeader(m: Segment, a: int, p: int, n: Word)
    ensures var m' := ApplyAll(m, CommitStores(a, p, n));
            m'.Allocation(p) == AllocationHeader(a, n) && forall q :: q != p ==> m'.Allocation(q) == m.Allocation(q)
  {
    FourStores(m, SetFree(a, false), SetNext(a, 0), SetBlock(p, a), SetRequested(p, n), {});
  }

  lemma AllocateLive(m: Segment, v: View, live: map<int, int>, b: Block, used: int, p: int, n: Word)
    requires Heap(m, v.blocks, v.frees) && Live(m, v.blocks, live) && b in v.frees
    requires b.addr + 48 <= p && 0 < n && p + n <= b.addr + used && used <= b.size
    ensures b in v.blocks
    ensures Live(ApplyAll(m, AllocateStores(v.frees, b, used, p, n)), AllocateView(v, b, used).blocks,
                 live[b.addr := p])
  {
    var m' := ApplyAll(m, AllocateStores(v.frees, b, used, p, n));
    AllocateInUse(m, v, b, used);
    AllocateHeader(m, v.frees, b, used, p, n);
    ChainAddrs(m, m.first, m.End(), v.blocks);
    forall x | x in AllocateView(v, b, used).blocks && !x.free && x.addr in live[b.addr := p]
      ensures Holds(m', x, live[b.addr := p][x.addr])
    {
      if x in v.blocks {
        OtherPayload(m, v, live, b, x, p);
      }
    }
  }

  /** A live payload lies outside every other block. */
  lemma OtherPayload(m: Segment, v: View, live: map<int, int>, b: Block, x: Block, p: int)
    requires Heap(m, v.blocks, v.frees) && Live(m, v.blocks, live)
    requires b in v.blocks && x in v.blocks && !x.free && b != x && b.addr + 48 <= p <= b.End()
    ensures b.addr != x.addr && (x.addr in live ==> live[x.addr] != p)
  {
    ChainAddrs(m, m.first, m.End(), v.blocks);
    var i :| 0 <= i < |v.blocks| && v.blocks[i] == b;
    var j :| 0 <= j < |v.blocks| && v.blocks[j] == x;
    assert i < j || j < i;
  }

  lemma LiveKept(m: Segment, m': Segment, bs: seq<Block>, bs': seq<Block>, live: map<int, int>)
    requires Live(m, bs, live) && m'.allocations == m.allocations
    requires forall x :: x in bs' && !x.free ==> x in bs
    ensures Live(m', bs', live)
  {
  }

  lemma DeallocateHeaders(m: Segment, w: Site)
    requires Mergeable(w)
    ensures ApplyAll(m, DeallocateStores(w)).allocations == m.allocations
  {
    DeallocateHeaderOnly(w);
    hide DeallocateStores, MergeNext, MergePrev;
    KeepsAllocations(m, DeallocateStores(w));
  }

  lemma DeallocateLive(m: Segment, v: View, live: map<int, int>, b: Block)
    requires Heap(m, v.blocks, v.frees) && Live(m, v.blocks, live) && b in v.blocks && !b.free
    ensures var w := SiteOf(v, b);
            && Mergeable(w)
            && Live(ApplyAll(m, DeallocateStores(w)), DeallocateView(w).blocks, live)
  {
    hide ApplyAll, DeallocateStores, DeallocateView, MergeNext, SiteOf, Heap;
    DeallocateInUse(m, v, b);
    DeallocateHeaders(m, SiteOf(v, b));
    LiveKept(m, ApplyAll(m, DeallocateStores(SiteOf(v, b))), v.blocks, DeallocateView(SiteOf(v, b)).blocks, live);
  }

  // ---------------------------------------------------------------- several blocks at once

  /** The heap before and after one of several allocations. */
  datatype Stage = Stage(m: Segment, v: View)

  /** `w` has exactly one more block in use than `v`, namely `c`. */
  ghost predicate OneMore(v: View, w: View, c: Block) {
    && !c.free && c in w.blocks && c !in v.blocks
    && forall x: Block :: !x.free ==> (x in w.blocks <==> x in v.blocks || x == c)
  }

  /** `taken[i]` was the block handed out with payload `out[i]` on the way to stage `i + 1`. */
  ghost predicate Stages(ss: seq<Stage>, taken: seq<Block>, out: seq<int>, live: map<int, int>) {
    && |ss| == |taken| + 1 && |out| == |taken|
    && (forall i :: 0 <= i < |ss| ==> Heap(ss[i].m, ss[i].v.blocks, ss[i].v.frees) && SameRange(ss[0].m, ss[i].m))
    && (forall i, j :: 0 <= i < j < |ss| && j == i + 1 ==> OneMore(ss[i].v, ss[j].v, taken[i]))
    && (forall i :: 0 <= i < |taken| ==> taken[i].addr in live && live[taken[i].addr] == out[i])
  }

  /** Every block that was handed out is still in use at the last stage. */
  lemma {:induction false} StageInUse(ss: seq<Stage>, taken: seq<Block>, out: seq<int>, live: map<int, int>, i: nat,
                                      k: nat)
    requires Stages(ss, taken, out, live) && i < k <= |taken|
    ensures taken[i] in ss[k].v.blocks && !taken[i].free
    decreases k
  {
    if k == i + 1 {
      assert OneMore(ss[i].v, ss[k].v, taken[i]);
    } else {
      StageInUse(ss, taken, out, live, i, k - 1);
      assert OneMore(ss[k - 1].v, ss[k].v, taken[k - 1]);
      assert OneMore(ss[i].v, ss[i + 1].v, taken[i]);
    }
  }

  lemma PushStage(ss: seq<Stage>, taken: seq<Block>, out: seq<int>, live: map<int, int>, m: Segment, v: View,
                  c: Block, p: int)
    requires Stages(ss, taken, out, live) && Heap(m, v.blocks, v.frees) && SameRange(ss[0].m, m)
    requires OneMore(ss[|taken|].v, v, c)
    ensures Stages(ss + [Stage(m, v)], taken + [c], out + [p], live[c.addr := p])
  {
    var ss', taken', out', live' := ss + [Stage(m, v)], taken + [c], out + [p], live[c.addr := p];
    forall i | 0 <= i < |taken'| ensures taken'[i].addr in live' && live'[taken'[i].addr] == out'[i] {
      if i < |taken| {
        StageInUse(ss, taken, out, live, i, |taken|);
        DifferentAddr(m, v, taken[i], c);
      }
    }
    forall i, j | 0 <= i < j < |ss'| && j == i + 1 ensures OneMore(ss'[i].v, ss'[j].v, taken'[i]) {
      assert i < |taken| ==> OneMore(ss[i].v, ss[j].v, taken[i]);
    }
  }

  lemma DifferentAddr(m: Segment, v: View, b: Block, c: Block)
    requires Heap(m, v.blocks, v.frees) && b in v.blocks && c in v.blocks && b != c
    ensures b.addr != c.addr
  {
    ChainAddrs(m, m.first, m.End(), v.blocks);
  }

  lemma TookOneMore(m: Segment, m': Segment, v: View, b: Block, n: Word, align: int, p: int, live: map<int, int>,
                    v': View, live': map<int, int>, log: seq<Store>, log': seq<Store>)
    requires Heap(m, v.blocks, v.frees) && Took(v, b, n, align, p, m, m', live, v', live', log, log')
    ensures OneMore(v, v', Taken(b, Total(b.addr, n, align)))
            && live' == live[Taken(b, Total(b.addr, n, align)).addr := p]
  {
    AllocateInUse(m, v, b, Total(b.addr, n, align));
  }

  /** Freeing the block handed out last leads back to the stage before. */
  lemma PopStage(m: Segment, v: View, m': Segment, v': View, w: View, mw: Segment, c: Block, log: seq<Store>,
                 log': seq<Store>)
    requires Heap(mw, w.blocks, w.frees) && Heap(m, v.blocks, v.frees) && Heap(m', v'.blocks, v'.frees)
    requires OneMore(w, v, c) && Released(v, c, m, m', v', log, log') && SameRange(mw, m')
    ensures v' == w
  {
    DeallocateInUse(m, v, c);
    HeapDetermined(mw, m', w, v');
  }

  datatype AllocateResult = Granted(p: int) | Null | OutOfMemory

  datatype DeallocateResult = Freed | Ignored | InvalidPointer | DoubleFree

  /** What `try_expand` meets when it has merged the two blocks and goes on to split. */
  lemma ExpandReady(m: Segment, pre: seq<Block>, b: Block, nb: Block, post: seq<Block>, fs: seq<Block>, used: int)
    requires Heap(m, pre + [b, nb] + post, fs) && !b.free && nb.free
    requires b.size < used <= b.size + nb.size && MIN_BLOCK <= used
    ensures nb in fs && Shape(m, pre + [b, nb] + post, fs)
    ensures var a, m1 := AbsorbedView(pre, b, nb, post, fs), ApplyAll(m, AbsorbStores(fs, nb, b, nb));
            && Shape(m1, pre + [Absorbed(b, nb)] + post, Without(fs, nb))
            && Tolerated(View(pre + [Absorbed(b, nb)] + post, Without(fs, nb)), {View(pre + [b, nb] + post, fs), a})
            && Within(pre + [Absorbed(b, nb)] + post, Without(fs, nb)) && Absorbed(b, nb) !in Without(fs, nb)
  {
    hide Chain, List, Exact, Sorted, Coalesced, ApplyAll, InsertPos, IndexOf, Recoverable, Always;
    ExpandWellFormed(m, pre, b, nb, post, fs, used);
    var v, a := View(pre + [b, nb] + post, fs), AbsorbedView(pre, b, nb, post, fs);
    HeapRecovers(m, v, {v, a});
    AbsorbPhase(m, pre, b, nb, post, fs, nb, {v, a});
  }

  lemma ExpandTail(m: Segment, ab: seq<Store>, sp: seq<Store>, s: Store)
    ensures ApplyAll(m, ab + sp + [s]) == Apply(ApplyAll(ApplyAll(m, ab), sp), s)
  {
    ApplyConcat(m, ab, sp);
    ApplyConcat(m, ab + sp, [s]);
    ApplyOne(ApplyAll(m, ab + sp), s);
  }

  class BlockAllocator {
    var seg: Segment
    var allocateCalls: nat
    var deallocateCalls: nat
    var failedAllocations: nat
    var splitCount: nat
    var mergeCount: nat
    var expandCalls: nat
    var expandSuccesses: nat
    var expandFailures: nat
    ghost var view: View
    ghost var live: map<int, int>
    ghost var log: seq<Store>

    ghost predicate Valid()
      reads this
    {
      && Heap(seg, view.blocks, view.frees)
      && seg.base % ALIGNMENT == 0
      && Roomy(seg.first, view.blocks)
      && Live(seg, view.blocks, live)
    }

    /** One store, recorded in the log. */
    method Put(s: Store)
      modifies this`seg, this`log
      ensures seg == Apply(old(seg), s) && log == old(log) + [s]
    {
      seg := Apply(seg, s);
      log := log + [s];
    }

    /** `remove_free_block` with a known predecessor. */
    method RemoveAfter(prev: int, target: int, ghost fs: seq<Block>, ghost t: Block)
      requires List(seg, seg.head, 0, fs) && t in fs && target == t.addr && prev == PrevAddr(fs, IndexOf(fs, t))
      modifies this`seg, this`log
      ensures log == old(log) + RemoveStores(fs, t) && seg == ApplyAll(old(seg), RemoveStores(fs, t))
    {
      ghost var i := IndexOf(fs, t);
      ListAt(seg, fs, i);
      if i > 0 { ListAt(seg, fs, i - 1); }
      ghost var ss := RemoveStores(fs, t);
      TwoStores(seg, ss[0], ss[1], {});
      if prev != 0 {
        Put(SetNext(prev, seg.Next(target)));
      } else {
        Put(SetHead(seg.Next(target)));
      }
      Put(SetNext(target, 0));
      assert ss == [ss[0]] + [ss[1]];
    }

    /** `remove_free_block`: find the block on the list, then unlink it. */
    method RemoveFreeBlock(target: int, ghost fs: seq<Block>, ghost t: Block)
      requires List(seg, seg.head, 0, fs) && t in fs && target == t.addr
      modifies this`seg, this`log
      ensures log == old(log) + RemoveStores(fs, t) && seg == ApplyAll(old(seg), RemoveStores(fs, t))
    {
      ghost var i, k := IndexOf(fs, t), 0;
      ListAcyclic(seg, seg.head, fs);
      assert fs[0..] == fs;
      ListAt(seg, fs, 0);
      var prev, curr := 0, seg.head;
      while curr != 0
        invariant seg == old(seg) && log == old(log)
        invariant 0 <= k <= i && curr == fs[k].addr != 0 && prev == PrevAddr(fs, k)
        decreases i - k
      {
        if curr == target {
          RemoveAfter(prev, curr, fs, t);
          return;
        }
        ListAt(seg, fs, k);
        prev := curr;
        curr := seg.Next(curr);
        k := k + 1;
        ListAt(seg, fs, k);
      }
    }

    /** `insert_free_block`: find the position in the sorted list, then link the block. */
    method InsertFreeBlock(block: int, ghost fs: seq<Block>, ghost b: Block)
      requires List(seg, seg.head, 0, fs) && Sized(seg, fs) && block == b.addr && seg.Size(block) == b.size
      modifies this`seg, this`log
      ensures log == old(log) + InsertStores(fs, b) && seg == ApplyAll(old(seg), InsertStores(fs, b))
    {
      hide Chain, List, ApplyAll;
      ghost var k := 0;
      var prev, curr := 0, seg.head;
      assert fs[0..] == fs;
      ListHead(seg, seg.head, fs);
      while curr != 0 && (seg.Size(curr) < seg.Size(block) || (seg.Size(curr) == seg.Size(block) && curr < block))
        invariant seg == old(seg) && log == old(log)
        invariant 0 <= k <= |fs| && curr == HeadAddr(fs[k..]) && prev == PrevAddr(fs, k)
        invariant forall i :: 0 <= i < k ==> Before(fs[i], b)
        decreases |fs| - k
      {
        ListAt(seg, fs, k);
        assert fs[k] in fs;
        prev := curr;
        curr := seg.Next(curr);
        k := k + 1;
        if k < |fs| { ListAt(seg, fs, k); }
      }
      if k < |fs| { ListAt(seg, fs, k); assert fs[k] in fs; }
      if k > 0 { ListAt(seg, fs, k - 1); }
      assert k == InsertPos(fs, b);
      ghost var ss := InsertStores(fs, b);
      TwoStores(seg, ss[0], ss[1], {});
      Put(SetNext(block, curr));
      if prev != 0 {
        Put(SetNext(prev, block));
      } else {
        Put(SetHead(block));
      }
      assert ss == [ss[0]] + [ss[1]];
    }

    /** Write the header of the split-off block, then cut the old one. */
    method CutBlock(block: int, size: int, used: int)
      modifies this`seg, this`log
      ensures log == old(log) + HeaderStores(block, size, used)
      ensures seg == ApplyAll(old(seg), HeaderStores(block, size, used))
    {
      ghost var hs := HeaderStores(block, size, used);
      FourStores(seg, hs[0], hs[1], hs[2], hs[3], {});
      var rest := block + used;
      Put(SetSize(rest, Wrap(size - used)));
      Put(SetFree(rest, true));
      Put(SetNext(rest, 0));
      Put(SetSize(block, Wrap(used)));
    }

    /** `split_allocated_block`. */
    method SplitAllocatedBlock(block: int, used: int, ghost pre: seq<Block>, ghost b: Block, ghost post: seq<Block>,
                               ghost fs: seq<Block>, ghost allowed: set<HeapSteps.View>)
      requires Shape(seg, pre + [b] + post, fs) && Tolerated(View(pre + [b] + post, fs), allowed)
      requires Within(pre + [b] + post, fs) && b !in fs && block == b.addr
      requires HEADER_SIZE <= used <= b.size && used % ALIGNMENT == 0
      modifies this`seg, this`log, this`splitCount
      ensures log == old(log) + SplitStores(fs, b.addr, b.size, used)
      ensures seg == ApplyAll(old(seg), SplitStores(fs, b.addr, b.size, used))
      ensures splitCount == old(splitCount) + if b.size - used < MIN_BLOCK then 0 else 1
    {
      hide Chain, List, InsertPos, WellFormed, Torn;
      assert seg.Size(block) == b.size by {
        ChainBounds(seg, seg.first, seg.End(), pre + [b] + post);
        assert b in pre + [b] + post;
      }
      var rest := seg.Size(block) - used;
      if rest < MIN_BLOCK {
        return;
      }
      splitCount := splitCount + 1;
      ghost var hs, x := HeaderStores(b.addr, b.size, used), Block(b.addr + used, b.size - used, true);
      SplitHeader(seg, pre, b, post, fs, used, allowed);
      ApplyConcat(seg, hs, InsertStores(fs, x));
      SplitSize(seg, b, used);
      CutBlock(block, seg.Size(block), used);
      WithinSplit(pre, b, post, fs, used);
      WithinSized(seg, pre + SplitBlocks(b, used) + post, fs);
      InsertFreeBlock(block + used, fs, x);
    }

    /** `allocate_from_block`. */
    method AllocateFromBlock(prev: int, curr: int, used: int, p: int, n: Word, ghost b: Block)
      requires Heap(seg, view.blocks, view.frees) && b in view.frees && curr == b.addr
      requires prev == PrevAddr(view.frees, IndexOf(view.frees, b))
      requires HEADER_SIZE <= used <= b.size && used % ALIGNMENT == 0
      modifies this`seg, this`log, this`splitCount
      ensures log == old(log) + AllocateStores(view.frees, b, used, p, n)
      ensures seg == ApplyAll(old(seg), AllocateStores(view.frees, b, used, p, n))
    {
      hide Heap, Shape, List, ApplyAll, RemoveStores, SplitStores, CommitStores, Tolerated, Within, Without, IndexOf;
      ghost var m, fs1 := seg, Without(view.frees, b);
      ghost var pre, post := RemovedReady(seg, view, b);
      RemoveAfter(prev, curr, view.frees, b);
      SplitAllocatedBlock(curr, used, pre, b, post, fs1, {});
      ghost var r, s := RemoveStores(view.frees, b), SplitStores(fs1, b.addr, b.size, used);
      ghost var c := CommitStores(b.addr, p, n);
      ApplyConcat(m, r, s);
      ApplyConcat(m, r + s, c);
      Commit(curr, p, n);
    }

    /** Mark the block allocated and write the allocation header. */
    method Commit(block: int, p: int, n: Word)
      modifies this`seg, this`log
      ensures log == old(log) + CommitStores(block, p, n)
      ensures seg == ApplyAll(old(seg), CommitStores(block, p, n))
    {
      ghost var c := CommitStores(block, p, n);
      FourStores(seg, c[0], c[1], c[2], c[3], {});
      Put(SetFree(block, false));
      Put(SetNext(block, 0));
      Put(SetBlock(p, block));
      Put(SetRequested(p, n));
    }

    /** `allocate`: best fit, or out of memory exactly when no free block can hold the request. */
    method Allocate(n: Word, requested: int) returns (r: AllocateResult)
      requires Valid()
      modifies this
      ensures Valid()
      ensures allocateCalls == old(allocateCalls) + 1
      ensures n == 0 ==> r == Null
      ensures SameRange(old(seg), seg)
      ensures !r.Granted? ==> seg == old(seg) && view == old(view) && live == old(live) && log == old(log)
      ensures n != 0 ==> (r == OutOfMemory <==> !CanTake(old(view), Request(n, Normalized(requested))))
      ensures n != 0 ==> r != Null && failedAllocations == old(failedAllocations) + if r.OutOfMemory? then 1 else 0
      ensures r.Granted? ==>
                exists b :: Took(old(view), b, n, Normalized(requested), r.p, old(seg), seg, old(live), view, live,
                                 old(log), log)
      ensures r.Granted? ==>
                && TakesTo(old(view), Request(n, Normalized(requested)), view)
                && (forall q :: q != r.p ==> seg.Allocation(q) == old(seg).Allocation(q))
                && exists c :: && OneMore(old(view), view, c) && live == old(live)[c.addr := r.p]
                               && Handed(seg, view, c, r.p, n, Normalized(requested))
    {
      hide Chain, List, Exact, Sorted, Coalesced, Took, Live, Total, RoomIn, TakesTo, OneMore, Handed;
      allocateCalls := allocateCalls + 1;
      if n == 0 {
        return Null;
      }
      var align := NormalizeAlignment(requested);
      FitsIsRoom(seg, view, n, align);
      ghost var fs, k := view.frees, 0;
      var prev, curr := 0, seg.head;
      assert fs[0..] == fs;
      ListHead(seg, seg.head, fs);
      while curr != 0
        invariant seg == old(seg) && log == old(log) && view == old(view) && live == old(live)
        invariant allocateCalls == old(allocateCalls) + 1 && failedAllocations == old(failedAllocations)
        invariant 0 <= k <= |fs| && curr == HeadAddr(fs[k..]) && prev == PrevAddr(fs, k)
        invariant forall i :: 0 <= i < k ==> !Fits(fs[i], n, align)
        decreases |fs| - k
      {
        ListAt(seg, fs, k);
        ListedHeader(seg, view, k);
        var used := Total(curr, n, align);
        if seg.Free(curr) && used <= seg.Size(curr) {
          r := TakeBlock(prev, curr, used, n, align, k);
          return;
        }
        prev := curr;
        curr := seg.Next(curr);
        k := k + 1;
        if k < |fs| { ListAt(seg, fs, k); }
      }
      if k < |fs| { ListAt(seg, fs, k); }
      NoneFits(fs, n, align);
      failedAllocations := failedAllocations + 1;
      return OutOfMemory;
    }

    /** The successful end of `allocate`. */
    method TakeBlock(prev: int, curr: int, used: int, n: Word, align: int, ghost k: nat) returns (r: AllocateResult)
      requires Valid() && 0 < align && 0 < n && FirstFit(view.frees, k, n, align)
      requires curr == view.frees[k].addr && prev == PrevAddr(view.frees, k) && used == Total(curr, n, align)
      modifies this`seg, this`log, this`splitCount, this`view, this`live
      ensures Valid()
      ensures r == Granted(Payload(curr, align)) && SameRange(old(seg), seg)
      ensures Took(old(view), old(view).frees[k], n, align, r.p, old(seg), seg, old(live), view, live, old(log), log)
      ensures CanTake(old(view), Request(n, align)) && TakesTo(old(view), Request(n, align), view)
      ensures forall q :: q != r.p ==> seg.Allocation(q) == old(seg).Allocation(q)
      ensures exists c :: && OneMore(old(view), view, c) && live == old(live)[c.addr := r.p]
                          && Handed(seg, view, c, r.p, n, align)
    {
      hide Chain, List, Sorted, Coalesced, ApplyAll, AllocateStores, AllocateView, Live, Roomy, Always, RoomIn,
           OneMore, Handed;
      ghost var b, m, v, lv, lg := view.frees[k], seg, view, live, log;
      FitsIsRoom(seg, view, n, align);
      assert b in view.frees;
      RoomyAllocate(seg.first, view, b, used);
      TotalBounds(b.addr, n, align);
      FirstFitIsBest(view.frees, k, n, align);
      SortedIndex(view.frees, k);
      var p := Payload(curr, align);
      AllocateRuns(seg, view, b, used, p, n);
      AllocateLive(seg, view, live, b, used, p, n);
      AllocateRange(seg, view.frees, b, used, p, n);
      AllocateFromBlock(prev, curr, used, p, n, b);
      view := AllocateView(v, b, used);
      live := live[b.addr := p];
      TookServes(v, b, n, align, p, m, seg, lv, view, live, lg, log);
      TookHanded(v, b, n, align, p, m, seg, lv, view, live, lg, log);
      return Granted(p);
    }

    /** `block->is_free = true; block->next_free = nullptr`. */
    method MarkFree(block: int)
      modifies this`seg, this`log
      ensures log == old(log) + FreeStores(block) && seg == ApplyAll(old(seg), FreeStores(block))
    {
      TwoStores(seg, SetFree(block, true), SetNext(block, 0), {});
      Put(SetFree(block, true));
      Put(SetNext(block, 0));
    }

    /** Unlist a neighbour and let the first of the two absorb the second. */
    method Absorb(listed: int, x: int, y: int, ghost bs: seq<Block>, ghost fs: seq<Block>, ghost t: Block,
                  ghost lo: Block, ghost hi: Block)
      requires Shape(seg, bs, fs) && t in fs && listed == t.addr
      requires lo == BlockAt(seg, x) && hi == BlockAt(seg, y)
      modifies this`seg, this`log
      ensures log == old(log) + AbsorbStores(fs, t, lo, hi)
      ensures seg == ApplyAll(old(seg), AbsorbStores(fs, t, lo, hi))
    {
      ghost var m := seg;
      RemoveEffect(seg, bs, fs, t);
      ApplyConcat(seg, RemoveStores(fs, t), [SetSize(x, Wrap(lo.size + hi.size))]);
      ApplyOne(ApplyAll(seg, RemoveStores(fs, t)), SetSize(x, Wrap(lo.size + hi.size)));
      RemoveFreeBlock(listed, fs, t);
      assert seg.Size(x) == lo.size && seg.Size(y) == hi.size;
      Put(SetSize(x, Wrap(seg.Size(x) + seg.Size(y))));
    }

    method MergeNextBlock(block: int, ghost w: Site)
      requires Shape(seg, w.Blocks(), w.fs) && Pending(w) && block == w.b.addr
      modifies this`seg, this`log, this`mergeCount
      ensures StartsFree(w.post) ==> w.post[0] in w.fs
      ensures log == old(log) + MergeNextStores(w) && seg == ApplyAll(old(seg), MergeNextStores(w))
    {
      SiteNeighbours(seg, w);
      MergeNextPhase(seg, w, {});
      var next := block + seg.Size(block);
      if next < seg.End() && seg.Free(next) {
        Absorb(next, block, next, w.Blocks(), w.fs, w.post[0], w.b, w.post[0]);
        mergeCount := mergeCount + 1;
      }
    }

    method MergePrevBlock(block: int, ghost w: Site) returns (r: int)
      requires Shape(seg, w.Blocks(), w.fs) && Pending(w) && block == w.b.addr
      modifies this`seg, this`log, this`mergeCount
      ensures EndsFree(w.pre) ==> w.pre[|w.pre| - 1] in w.fs
      ensures log == old(log) + MergePrevStores(w) && seg == ApplyAll(old(seg), MergePrevStores(w))
      ensures r == MergePrev(w).b.addr
    {
      SiteNeighbours(seg, w);
      MergePrevPhase(seg, w, {});
      r := block;
      var prev := PhysicalPrevious(seg, block);
      assert prev == LastAddr(w.pre);
      if prev != 0 && seg.Free(prev) {
        ghost var p := w.pre[|w.pre| - 1];
        Absorb(prev, prev, block, w.Blocks(), w.fs, p, p, w.b);
        mergeCount := mergeCount + 1;
        r := prev;
      }
    }

    /** `deallocate_block`. */
    method DeallocateBlock(block: int, ghost b: Block)
      requires Heap(seg, view.blocks, view.frees) && b in view.blocks && !b.free && block == b.addr
      modifies this`seg, this`log, this`mergeCount
      ensures var w := SiteOf(view, b);
              && Mergeable(w)
              && log == old(log) + DeallocateStores(w) && seg == ApplyAll(old(seg), DeallocateStores(w))
    {
      hide Chain, List, WellFormed, Pending, InsertPos, ApplyAll, MergeNext, MergePrev, MergeStores, SiteOf,
           StartsFree, EndsFree;
      ghost var w := SiteOf(view, b);
      SiteReady(seg, view, b);
      FreeEffect(seg, w.pre, b, w.post, w.fs);
      ApplyConcat(seg, FreeStores(block), MergeStores(w));
      MarkFree(block);
      MergeAndFinish(block, w);
    }

    /** The part of `deallocate_block` behind the first two stores. */
    method MergeAndFinish(block: int, ghost w: Site)
      requires Shape(seg, w.Blocks(), w.fs) && Pending(w) && block == w.b.addr
      requires Mergeable(w)
      modifies this`seg, this`log, this`mergeCount
      ensures log == old(log) + MergeStores(w) && seg == ApplyAll(old(seg), MergeStores(w))
    {
      hide Chain, List, Pending, InsertPos, ApplyAll, MergeNext, MergePrev, MergeNextStores, MergePrevStores,
           StartsFree, EndsFree;
      MergedSite(w);
      ghost var ms := MergeNextStores(w) + MergePrevStores(MergeNext(w));
      MergePhases(seg, w, {});
      MergeNextPhase(seg, w, {});
      ApplyConcat(seg, MergeNextStores(w), MergePrevStores(MergeNext(w)));
      ApplyConcat(seg, ms, FreeStores(Merged(w).b.addr) + InsertStores(Merged(w).fs, Merged(w).b));
      MergeNextBlock(block, w);
      var merged := MergePrevBlock(block, MergeNext(w));
      assert log == old(log) + ms;
      FinishRelease(merged, Merged(w));
    }

    /** Mark the merged block and put it on the list. */
    method FinishRelease(block: int, ghost w: Site)
      requires Shape(seg, w.Blocks(), w.fs) && Pending(w) && block == w.b.addr
      modifies this`seg, this`log
      ensures log == old(log) + (FreeStores(block) + InsertStores(w.fs, w.b))
      ensures seg == ApplyAll(old(seg), FreeStores(block) + InsertStores(w.fs, w.b))
    {
      ghost var m := seg;
      assert w.b.(free := true) == w.b;
      FreeEffect(seg, w.pre, w.b, w.post, w.fs);
      ApplyConcat(seg, FreeStores(block), InsertStores(w.fs, w.b));
      MarkFree(block);
      SiteNeighbours(seg, w);
      WithinSized(seg, w.Blocks(), w.fs);
      InsertFreeBlock(block, w.fs, w.b);
    }

    /** `has_allocation_header`. */
    method HasAllocationHeader(ptr: int) returns (r: bool)
      requires 0 < seg.base && 0 <= seg.size
      ensures r <==> seg.base <= ptr - ALLOCATION_HEADER_SIZE && ptr < seg.End()
    {
      var owned := ptr != 0 && seg.base <= ptr < seg.End();
      if !owned || ptr < ALLOCATION_HEADER_SIZE {
        return false;
      }
      var begin := ptr - ALLOCATION_HEADER_SIZE;
      return seg.base <= begin <= seg.End() && ALLOCATION_HEADER_SIZE <= seg.End() - begin;
    }

    /** `is_valid_payload` for the block that the bytes in front of `ptr` name. */
    method IsValidPayload(ptr: int, block: int) returns (r: bool)
      requires Heap(seg, view.blocks, view.frees) && block == seg.Allocation(ptr).block
      ensures r <==> Names(seg, view.blocks, ptr, BlockAt(seg, block))
    {
      hide Chain, List, Exact, Sorted, Coalesced;
      var header := HasAllocationHeader(ptr);
      InChainIffBlock(seg, view, block);
      if !header || block == 0 {
        return false;
      }
      var inChain := IsBlockInChain(seg, block);
      if !(seg.base <= block < seg.End()) || block % ALIGNMENT != 0 || !inChain {
        return false;
      }
      var begin, end := block + HEADER_SIZE + ALLOCATION_HEADER_SIZE, block + seg.Size(block);
      return begin <= ptr < end && seg.Allocation(ptr).requested <= end - ptr;
    }

    /** `zero_free_memory`: the payloads of all free blocks are cleared and nothing else shows a difference. */
    method ZeroFreeMemory()
      requires Valid()
      modifies this`seg
      ensures Valid() && SameRange(old(seg), seg) && seg.head == old(seg.head)
      ensures forall b :: b in view.blocks ==> seg.Hdr(b.addr) == old(seg).Hdr(b.addr)
      ensures forall b :: b in view.blocks && !b.free && b.addr in live ==>
                seg.Allocation(live[b.addr]) == old(seg).Allocation(live[b.addr])
      ensures Wiped(seg, view.frees)
    {
      hide Chain, Exact, Sorted, Coalesced, Live, Wiped, Zeroed;
      ghost var m := seg;
      var current := seg.head;
      ghost var k := 0;
      assert view.frees[0..] == view.frees;
      assert Wiped(seg, []) by { WipedNone(seg); }
      KeptBefore(seg, view.blocks, live);
      while current != 0
        invariant 0 <= k <= |view.frees| && List(seg, current, 0, view.frees[k..])
        invariant Valid() && SameRange(m, seg) && seg.head == m.head
        invariant forall b :: b in view.blocks ==> seg.Hdr(b.addr) == m.Hdr(b.addr)
        invariant forall b :: b in view.blocks && !b.free ==> Kept(m, seg, live, b)
        invariant Wiped(seg, view.frees[..k])
        decreases |view.frees| - k
      {
        ghost var b := view.frees[k];
        ListedBlock(seg, view, k);
        assert current == b.addr;
        assert view.frees[k..][1..] == view.frees[k + 1..] && view.frees[..k + 1] == view.frees[..k] + [b];
        var lo, hi := current + HEADER_SIZE, current + seg.Size(current);
        ghost var m1 := seg;
        seg := Zeroed(seg, lo, hi);
        ZeroedWithin(m1, lo, hi);
        PayloadBytesInvisible(m1, seg, view, live, b, lo, hi);
        WipedMore(m1, view.frees[..k], b);
        NextListed(seg, view, k);
        current := seg.Next(current);
        k := k + 1;
      }
      assert view.frees[..k] == view.frees;
      assert forall b :: b in view.blocks && !b.free ==> Kept(m, seg, live, b);
    }

    /** `allocation_size`: the size asked for, or an error exactly if no block in use is named. */
    method AllocationSize(ptr: int) returns (ok: bool, size: Word)
      requires Valid()
      ensures ptr == 0 ==> ok && size == 0
      ensures ptr != 0 ==> (ok <==> exists b :: Names(seg, view.blocks, ptr, b) && !b.free)
      ensures ptr != 0 && ok ==> size == seg.Allocation(ptr).requested
    {
      hide Chain, List, Exact, Sorted, Coalesced, Live;
      if ptr == 0 {
        return true, 0;
      }
      var header := HasAllocationHeader(ptr);
      var block := seg.Allocation(ptr).block;
      var valid := IsValidPayload(ptr, block);
      NamedBlock(seg, view, ptr);
      if !header || !valid || seg.Free(block) {
        return false, 0;
      }
      return true, seg.Allocation(ptr).requested;
    }

    /** `deallocate`, for any pointer value and any bytes in front of it. */
    method Deallocate(ptr: int) returns (r: DeallocateResult)
      requires Valid()
      modifies this
      ensures Valid() && live == old(live)
      ensures deallocateCalls == old(deallocateCalls) + 1 && SameRange(old(seg), seg)
      ensures r == Ignored <==> ptr == 0
      ensures r != Freed ==> seg == old(seg) && view == old(view) && log == old(log)
      ensures ptr != 0 ==> (r == Freed <==> exists b :: Names(old(seg), old(view).blocks, ptr, b) && !b.free)
      ensures ptr != 0 ==> (r == DoubleFree <==> exists b :: Names(old(seg), old(view).blocks, ptr, b) && b.free)
      ensures r == Freed ==>
                exists b :: Names(old(seg), old(view).blocks, ptr, b)
                            && Released(old(view), b, old(seg), seg, view, old(log), log)
      ensures seg.allocations == old(seg.allocations)
      ensures r == Freed ==> forall c :: Names(seg, view.blocks, ptr, c) ==> c.free
    {
      hide Chain, List, Exact, Sorted, Coalesced, ApplyAll, Live, DeallocateStores, DeallocateView,
           MergeNext, SiteOf, Roomy;
      deallocateCalls := deallocateCalls + 1;
      if ptr == 0 {
        return Ignored;
      }
      var header := HasAllocationHeader(ptr);
      var block := seg.Allocation(ptr).block;
      var valid := IsValidPayload(ptr, block);
      NamedBlock(seg, view, ptr);
      if !header || !valid {
        return InvalidPointer;
      }
      if seg.Free(block) {
        return DoubleFree;
      }
      ghost var b := BlockAt(seg, block);
      DeallocateRuns(seg, view, b);
      DeallocateLive(seg, view, live, b);
      RoomyDeallocate(seg.first, seg, view, b);
      DeallocateRange(seg, SiteOf(view, b));
      DeallocateHeaders(seg, SiteOf(view, b));
      FreedPointerIsDead(seg, view, ApplyAll(seg, DeallocateStores(SiteOf(view, b))), ptr, b);
      DeallocateBlock(block, b);
      view := DeallocateView(SiteOf(view, b));
      return Freed;
    }

    /** `deallocate_many`: the pointers are freed one by one up to the first that is rejected, and
        exactly the blocks they name go out of use. */
    method DeallocateMany(ptrs: seq<int>) returns (done: nat)
      requires Valid()
      modifies this
      ensures Valid() && live == old(live) && done <= |ptrs| && SameRange(old(seg), seg)
      ensures Unnamed(old(seg), old(view), view, ptrs[..done])
      ensures done < |ptrs| ==> ptrs[done] != 0 && forall b :: Names(seg, view.blocks, ptrs[done], b) ==> b.free
    {
      hide Heap, Live, Names, Released, Unnamed;
      ghost var m, v := seg, view;
      done := 0;
      NothingNamed(m, v);
      while done < |ptrs|
        invariant Valid() && live == old(live) && 0 <= done <= |ptrs| && SameRange(m, seg)
                  && seg.allocations == m.allocations
        invariant Unnamed(m, v, view, ptrs[..done])
      {
        ghost var m1, v1, lg := seg, view, log;
        var r := Deallocate(ptrs[done]);
        if r == InvalidPointer || r == DoubleFree {
          return;
        }
        assert ptrs[..done + 1] == ptrs[..done] + [ptrs[done]];
        if r == Freed {
          ghost var b :| Names(m1, v1.blocks, ptrs[done], b) && Released(v1, b, m1, seg, view, lg, log);
          OneMoreNamed(m, v, m1, v1, seg, view, ptrs[..done], ptrs[done], b, lg, log);
        } else {
          NullNamesNothing(m, v, view, ptrs[..done]);
        }
        done := done + 1;
      }
    }

    /** `try_expand`: the payload stays where it is; the call succeeds exactly when the block, with
        a free successor if there is one, can hold the new size at that address. */
    method TryExpand(ptr: int, n: Word, requested: int) returns (ok: bool)
      requires Valid()
      modifies this
      ensures Valid() && live == old(live)
      ensures expandCalls == old(expandCalls) + 1
      ensures expandSuccesses == old(expandSuccesses) + (if ok then 1 else 0)
      ensures expandFailures == old(expandFailures) + (if ok then 0 else 1)
      ensures !ok ==> seg == old(seg) && view == old(view) && log == old(log)
      ensures ok <==> n != 0 && exists b ::
                Names(old(seg), old(view).blocks, ptr, b) && !b.free && IsPayload(b.addr, Normalized(requested), ptr)
                && CanReach(old(view).blocks, b, ptr + n)
      ensures ok ==> exists b ::
                && Names(old(seg), old(view).blocks, ptr, b) && !b.free
                && Expanded(old(view), b, Total(b.addr, n, Normalized(requested)), ptr, n, old(seg), seg, view,
                            old(log), log)
                && exists c :: Enlarged(old(seg), old(view), b, seg, view, c, ptr, n)
    {
      hide Chain, List, Exact, Sorted, Coalesced, ApplyAll, Live, Expanded, Total, Payload, CanReach, Enlarged,
           IsPayload;
      expandCalls := expandCalls + 1;
      var header := HasAllocationHeader(ptr);
      if ptr == 0 || n == 0 || !header {
        expandFailures := expandFailures + 1;
        return false;
      }
      var block := seg.Allocation(ptr).block;
      var valid := IsValidPayload(ptr, block);
      NamedBlock(seg, view, ptr);
      if !valid || seg.Free(block) {
        expandFailures := expandFailures + 1;
        return false;
      }
      var align := NormalizeAlignment(requested);
      PayloadIsLeast(block, align, ptr);
      if Payload(block, align) != ptr {
        expandFailures := expandFailures + 1;
        return false;
      }
      ok := ExpandBlock(ptr, block, n, align, BlockAt(seg, block));
      if ok {
        expandSuccesses := expandSuccesses + 1;
      } else {
        expandFailures := expandFailures + 1;
      }
    }

    /** `try_expand` from the point where the block is known. */
    method ExpandBlock(ptr: int, block: int, n: Word, align: int, ghost b: Block) returns (ok: bool)
      requires Valid() && 0 < n && 0 < align && Names(seg, view.blocks, ptr, b) && !b.free && block == b.addr
      requires b == BlockAt(seg, block) && Payload(block, align) == ptr
      modifies this`seg, this`log, this`view, this`splitCount
      ensures Valid() && live == old(live)
      ensures ok <==> CanReach(old(view).blocks, b, ptr + n)
      ensures ok ==> exists c :: Enlarged(old(seg), old(view), b, seg, view, c, ptr, n)
      ensures !ok ==> seg == old(seg) && view == old(view) && log == old(log)
      ensures ok ==> Expanded(old(view), b, Total(block, n, align), ptr, n, old(seg), seg, view, old(log), log)
    {
      var used := Total(block, n, align);
      TotalBounds(block, n, align);
      ReachIsExact(seg, view, b, n, align, ptr);
      hide Chain, List, Exact, Sorted, Coalesced, ApplyAll, Live, Total, Payload, Enlarged;
      if used <= seg.Size(block) {
        EnlargedInPlace(seg, view, b, ptr, n);
        PayloadKeepsShape(seg, view.blocks, view.frees, SetRequested(ptr, n));
        ghost var m := seg;
        ExpandLive(seg, Apply(seg, SetRequested(ptr, n)), view, view.blocks, live, b, b, ptr, n);
        Put(SetRequested(ptr, n));
        return true;
      }
      ghost var pre, post := AroundTwo(seg, view, b);
      var next := block + seg.Size(block);
      if next >= seg.End() || !seg.Free(next) {
        return false;
      }
      var combined := seg.Size(block) + seg.Size(next);
      if combined < used {
        return false;
      }
      ok := true;
      AbsorbNext(ptr, block, next, used, n, align, pre, b, post[0], post[1..]);
    }

    /** The part of `try_expand` that takes bytes from the free successor. */
    method AbsorbNext(ptr: int, block: int, next: int, used: int, n: Word, ghost align: int,
                      ghost pre: seq<Block>, ghost b: Block, ghost nb: Block, ghost post: seq<Block>)
      requires 0 < n && 0 < align && Payload(b.addr, align) == ptr && used == Total(b.addr, n, align)
      requires Valid() && Names(seg, view.blocks, ptr, b) && !b.free && nb.free
      requires view.blocks == pre + [b, nb] + post && b == BlockAt(seg, block) && nb == BlockAt(seg, next)
      requires b.size < used <= b.size + nb.size && MIN_BLOCK <= used && used % ALIGNMENT == 0
               && ptr + n <= block + used
      modifies this`seg, this`log, this`view, this`splitCount
      ensures Valid() && live == old(live)
      ensures Expanded(old(view), b, used, ptr, n, old(seg), seg, view, old(log), log)
      ensures exists c :: Enlarged(old(seg), old(view), b, seg, view, c, ptr, n)
    {
      hide Heap, ApplyAll, ExpandStores, ExpandView, Always, Live, Roomy, Total, Payload, Enlarged;
      ghost var m, v := seg, view;
      ExpandWellFormed(seg, pre, b, nb, post, view.frees, used);
      RoomyExpand(seg.first, pre, b, nb, post, view.frees, used);
      ExpandRuns(seg, pre, b, nb, post, view.frees, used, ptr, n);
      ExpandHeader(seg, view.frees, b, nb, used, ptr, n);
      ExpandInUse(seg, pre, b, nb, post, view.frees, used);
      ExpandLive(seg, ApplyAll(seg, ExpandStores(view.frees, b, nb, used, ptr, n)), view,
                 ExpandView(pre, b, nb, post, view.frees, used).blocks, live, b,
                 SplitBlocks(Absorbed(b, nb), used)[0], ptr, n);
      EnlargedByNext(seg, pre, b, nb, post, view.frees, n, align, ptr);
      assert ExpandsInto(view, pre, b, nb, post, used);
      ExpandStoresOut(ptr, block, next, used, n, pre, b, nb, post);
      view := ExpandView(pre, b, nb, post, v.frees, used);
    }

    method ExpandStoresOut(ptr: int, block: int, next: int, used: int, n: Word,
                           ghost pre: seq<Block>, ghost b: Block, ghost nb: Block, ghost post: seq<Block>)
      requires Heap(seg, view.blocks, view.frees) && !b.free && nb.free
      requires view.blocks == pre + [b, nb] + post && b == BlockAt(seg, block) && nb == BlockAt(seg, next)
      requires b.size < used <= b.size + nb.size && MIN_BLOCK <= used && used % ALIGNMENT == 0
      modifies this`seg, this`log, this`splitCount
      ensures nb in view.frees
      ensures log == old(log) + ExpandStores(view.frees, b, nb, used, ptr, n)
      ensures seg == ApplyAll(old(seg), ExpandStores(view.frees, b, nb, used, ptr, n))
    {
      hide Heap, Shape, ApplyAll, InsertStores, RemoveStores, AbsorbStores, SplitStores, Tolerated, Within,
           AbsorbedView, Without;
      ghost var fs := view.frees;
      ExpandReady(seg, pre, b, nb, post, fs, used);
      ghost var ab, sp := AbsorbStores(fs, nb, b, nb), SplitStores(Without(fs, nb), b.addr, b.size + nb.size, used);
      ghost var allowed := {view, AbsorbedView(pre, b, nb, post, fs)};
      ExpandTail(seg, ab, sp, SetRequested(ptr, n));
      Absorb(next, block, next, view.blocks, fs, nb, b, nb);
      SplitAllocatedBlock(block, used, pre, Absorbed(b, nb), post, Without(fs, nb), allowed);
      Put(SetRequested(ptr, n));
    }

    constructor (garbage: map<int, Header>)
      ensures seg.headers == garbage && log == []
    {
      seg := Segment(0, 0, 0, 0, garbage, map[]);
      allocateCalls, deallocateCalls, failedAllocations, splitCount, mergeCount := 0, 0, 0, 0, 0;
      expandCalls, expandSuccesses, expandFailures := 0, 0, 0;
      view, live, log := View([], []), map[], [];
    }

    /** An allocator in a segment that is already in use, perhaps recovered after a death. Of the blocks in use
        those in `live` have the payloads given there, and nothing is known of others. The counters are whatever
        the segment holds. */
    constructor Attach(m: Segment, ghost v: View, ghost live: map<int, int>)
      requires Heap(m, v.blocks, v.frees) && m.base % ALIGNMENT == 0 && Roomy(m.first, v.blocks)
      requires Live(m, v.blocks, live)
      ensures Valid() && seg == m && view == v && this.live == live && log == []
    {
      seg := m;
      view, this.live, log := v, live, [];
    }

    /** `initialize`, over arbitrary bytes in the segment. */
    method Initialize(base: int, headerSize: nat, totalSize: nat) returns (ok: bool)
      requires 0 < base && base % ALIGNMENT == 0 && base + totalSize < WORD
      modifies this
      ensures ok <==> AlignUp(headerSize, ALIGNMENT) + HEADER_SIZE <= totalSize
      ensures !ok ==> seg == old(seg)
      ensures ok ==> seg.base == base && seg.first == base + AlignUp(headerSize, ALIGNMENT) && seg.size == totalSize
      ensures ok ==> (Sane(seg) <==> totalSize % ALIGNMENT == 0)
      ensures ok && totalSize % ALIGNMENT == 0 ==> Valid() && AllMemoryDeallocated(seg)
    {
      var header := AlignUp(headerSize, ALIGNMENT);
      if totalSize < header + HEADER_SIZE {
        return false;
      }
      var first := base + header;
      seg := Segment(base, first, totalSize, first,
                     seg.headers[first := Header(totalSize - header, true, 0)], seg.allocations);
      allocateCalls, deallocateCalls, failedAllocations, splitCount, mergeCount := 0, 0, 0, 0, 0;
      expandCalls, expandSuccesses, expandFailures := 0, 0, 0;
      ghost var b := Block(first, totalSize - header, true);
      view := View([b], [b]);
      assert Fresh(seg);
      FreshHeap(seg);
      return true;
    }

    /** `grow`. */
    method Grow(newSize: nat) returns (ok: bool)
      requires Valid() && seg.base + newSize < WORD
      modifies this
      ensures Valid() && live == old(live)
      ensures var size := newSize - newSize % ALIGNMENT;
              && (ok <==> old(seg.size) < size && (GrowsTail(old(view)) || MIN_BLOCK <= size - old(seg.size)))
              && (ok ==> seg.size == size && SamePlace(old(seg), seg))
      ensures if ok
              then (GrowsTail(old(view)) ==> old(view).blocks[|old(view).blocks| - 1] in old(view).frees)
                   && view == GrowView(old(view), old(seg).End(), seg.size - old(seg.size))
                   && seg == ApplyAll(old(seg), GrowStores(old(view), old(seg.size), old(seg).End(), seg.size))
              else seg == old(seg) && view == old(view)
      ensures SameInUse(old(view).blocks, view.blocks)
    {
      hide Chain, List, WellFormed, Roomy, ApplyAll, GrowStores, Inserted, Without, Live;
      var size := newSize - newSize % ALIGNMENT;
      if size <= seg.size {
        return false;
      }
      ghost var m, v := seg, view;
      GrowRuns(seg, view, size);
      GrowInUse(view, seg.End(), size - seg.size);
      RoomyGrow(seg.first, view, seg.End(), size - seg.size);
      LiveKept(m, ApplyAll(m, GrowStores(v, m.size, m.End(), size)), v.blocks,
               GrowView(v, m.End(), size - m.size).blocks, live);
      ok := GrowBlocks(size);
      view := GrowView(v, m.End(), size - m.size);
    }

    /** The stores of `grow` behind the size check. */
    method GrowBlocks(size: int) returns (ok: bool)
      requires Valid() && seg.size < size && size % ALIGNMENT == 0 && seg.base + size < WORD
      modifies this`seg, this`log
      ensures GrowsTail(view) ==> view.blocks[|view.blocks| - 1] in view.frees
      ensures ok <==> GrowsTail(view) || MIN_BLOCK <= size - old(seg.size)
      ensures seg == ApplyAll(old(seg), GrowStores(view, old(seg.size), old(seg).End(), size))
    {
      hide Chain, List, WellFormed, ApplyAll, RemoveStores, InsertStores, Live;
      ghost var m, bs, fs := seg, view.blocks, view.frees;
      TailListed(seg, view);
      var oldSize, oldEnd := seg.size, seg.End();
      var extra := size - oldSize;
      ApplyOne(seg, SetSegmentSize(size));
      ChainFrame(seg, Apply(seg, SetSegmentSize(size)), seg.first, oldEnd, bs);
      Put(SetSegmentSize(size));
      var tail := PhysicalPrevious(seg, oldEnd);
      TailHeader(m, view);
      if tail != 0 && seg.Free(tail) {
        GrowTailBlock(tail, extra, m);
        return true;
      }
      if extra < MIN_BLOCK {
        TwoStores(m, SetSegmentSize(size), SetSegmentSize(oldSize), {});
        Put(SetSegmentSize(oldSize));
        return false;
      }
      GrowNewBlock(oldEnd, extra, m);
      return true;
    }

    method GrowTailBlock(tail: int, extra: int, ghost m: Segment)
      requires Heap(m, view.blocks, view.frees) && m.base % ALIGNMENT == 0 && GrowsTail(view)
      requires 0 < extra && (m.size + extra) % ALIGNMENT == 0 && m.base + m.size + extra < WORD
      requires seg == Apply(m, SetSegmentSize(m.size + extra)) && tail == view.blocks[|view.blocks| - 1].addr
      modifies this`seg, this`log
      ensures view.blocks[|view.blocks| - 1] in view.frees
      ensures seg == ApplyAll(m, GrowStores(view, m.size, m.End(), m.size + extra))
    {
      hide Chain, List, Exact, Sorted, Coalesced, ApplyAll, InsertPos, IndexOf, GrowStores;
      TailListed(m, view);
      ghost var fs, pre, t := view.frees, view.blocks[..|view.blocks| - 1], view.blocks[|view.blocks| - 1];
      ghost var t', size := Block(t.addr, t.size + extra, true), m.size + extra;
      assert view.blocks == pre + [t];
      GrowTailShape(m, view, pre, t, size);
      GrowTailWellFormed(m, view, pre, t, t');
      GrowTailStores(m, view, size);
      SizeCommutes(m, size, RemoveStores(fs, t));
      ListFrame(m, seg, m.head, 0, fs);
      RemoveEffect(m, view.blocks, fs, t);
      RemoveFreeBlock(tail, fs, t);
      TailHeader(m, view);
      assert seg.Size(tail) == t.size;
      Put(SetSize(tail, Wrap(seg.Size(tail) + extra)));
      GrownSized(seg, pre, t, t', fs);
      InsertFreeBlock(tail, Without(fs, t), t');
    }

    method GrowNewBlock(end: int, extra: int, ghost m: Segment)
      requires Heap(m, view.blocks, view.frees) && m.base % ALIGNMENT == 0 && !GrowsTail(view)
      requires MIN_BLOCK <= extra && (m.size + extra) % ALIGNMENT == 0 && m.base + m.size + extra < WORD
      requires seg == Apply(m, SetSegmentSize(m.size + extra)) && end == m.End()
      modifies this`seg, this`log
      ensures seg == ApplyAll(m, GrowStores(view, m.size, m.End(), m.size + extra))
    {
      hide Chain, List, Exact, Sorted, Coalesced, ApplyAll, InsertPos;
      ghost var b := Block(end, extra, true);
      ghost var ss := [SetSegmentSize(m.size + extra), SetSize(end, Wrap(extra)), SetFree(end, true), SetNext(end, 0)];
      TailListed(m, view);
      GrowSizeAligned(0, m.size, m.size + extra);
      GrowAppendWellFormed(m, view, b);
      NotEmpty(m, view);
      AppendShape(m, view.blocks, view.frees, extra);
      FourStores(m, ss[0], ss[1], ss[2], ss[3], {});
      ApplyConcat(m, ss, InsertStores(view.frees, b));
      AppendedSized(m, ApplyAll(m, ss), view, extra);
      Put(SetSize(end, Wrap(extra)));
      Put(SetFree(end, true));
      Put(SetNext(end, 0));
      InsertFreeBlock(end, view.frees, b);
    }

    /** `shrink_to_fit`. */
    method ShrinkToFit() returns (size: int)
      requires Valid()
      modifies this
      ensures Valid() && live == old(live)
      ensures old(view).blocks != []
      ensures size == seg.size == ShrunkSize(old(seg).base, old(seg).size, old(view)) && SamePlace(old(seg), seg)
      ensures Shrinks(old(view)) ==> old(view).blocks[|old(view).blocks| - 1] in old(view).frees
      ensures view == ShrinkView(old(view)) && SameInUse(old(view).blocks, view.blocks)
      ensures seg == ApplyAll(old(seg), ShrinkStores(old(view), old(seg).base))
      ensures if Shrinks(old(view)) then size < old(seg.size) else seg == old(seg)
    {
      ghost var m, v := seg, view;
      hide Chain, List, Exact, Sorted, Coalesced, ApplyAll, ShrinkStores, Inserted, Without, Live;
      ShrinksTo(seg, view);
      SomeBlocks(seg, view);
      ShrinkRuns(seg, view);
      ShrinkInUse(view);
      TailHeader(seg, view);
      if Shrinks(view) { ShrinkLeaves(seg, view); }
      RoomyShrink(seg.first, view);
      LiveKept(m, ApplyAll(m, ShrinkStores(v, m.base)), v.blocks, ShrinkView(v).blocks, live);
      var last := PhysicalPrevious(seg, seg.End());
      if last == 0 || !seg.Free(last) {
        NoStores(m, v);
        return seg.size;
      }
      FirstIsLast(seg, view);
      var keep := if last == seg.first then MIN_BLOCK else 0;
      if seg.Size(last) <= keep {
        NoStores(m, v);
        return seg.size;
      }
      CutTail(last, keep);
      view := ShrinkView(v);
      return seg.size;
    }

    /** A last block that is also the first is kept with minimal size. */
    method KeepTail(last: int, keep: Word)
      requires seg.head == 0
      modifies this`seg, this`log
      ensures var m := Apply(Apply(Apply(old(seg), SetSize(last, keep)), SetFree(last, true)), SetNext(last, 0));
              seg == ApplyAll(m, InsertStores([], Block(last, keep, true)))
    {
      Put(SetSize(last, keep));
      Put(SetFree(last, true));
      Put(SetNext(last, 0));
      EmptyList(seg);
      InsertFreeBlock(last, [], Block(last, keep, true));
    }

    /** The stores of `shrink_to_fit`. */
    method CutTail(last: int, keep: int)
      requires Valid() && Shrinks(view) && last == view.blocks[|view.blocks| - 1].addr && keep == Keep(view)
      modifies this`seg, this`log
      ensures view.blocks[|view.blocks| - 1] in view.frees
      ensures seg == ApplyAll(old(seg), ShrinkStores(view, old(seg).base))
    {
      ghost var m, v, t := seg, view, view.blocks[|view.blocks| - 1];
      hide Chain, List, WellFormed, ApplyAll, Live, RemoveStores, InsertStores, ShrinkStores;
      TailListed(seg, view);
      RemoveEffect(seg, view.blocks, view.frees, t);
      RemoveFreeBlock(last, view.frees, t);
      var newSize := last - seg.base + keep;
      if keep != 0 {
        SingleFree(view);
        KeepStores(m, v, t);
        KeepTail(last, keep);
      } else {
        DropStores(m, v, t);
      }
      Put(SetSegmentSize(newSize));
    }

    /** `allocate_many`: each payload has the size and the alignment asked for; and the call fails, with the heap
        exactly as it was, if and only if one of the requests finds no room behind those before it. */
    method AllocateMany(n: Word, count: nat, requested: int) returns (ok: bool, out: seq<int>, ghost taken: seq<Block>)
      requires Valid()
      modifies this
      ensures Valid() && |out| == count && SameRange(old(seg), seg)
      ensures !ok || n == 0 ==> view == old(view) && forall i :: 0 <= i < count ==> out[i] == 0
      ensures ok && n != 0 ==>
                exists ss: seq<Stage> :: Stages(ss, taken, out, live) && ss[0].v == old(view) && ss[count].v == view
      ensures ok && n != 0 ==>
                && AllHanded(seg, view, taken, out, n, Normalized(requested))
                && Served(old(view), Same(Request(n, Normalized(requested)), count), view)
      ensures n != 0 ==> (!ok <==> Refused(old(view), Same(Request(n, Normalized(requested)), count)))
      ensures n == 0 ==> ok
    {
      hide Heap, Took, Live, Total, OneMore, Taken, TakesTo, CanTake, Served, Refused, Handed, Normalized;
      out, taken, ok := [], [], true;
      ghost var ss, v0, align := [Stage(seg, view)], view, Normalized(requested);
      NothingHanded(seg, view, n, align);
      ghost var q := Request(n, align);
      while |out| < count
        invariant Valid() && |out| <= count && SameRange(old(seg), seg)
        invariant n == 0 ==> view == old(view) && forall i :: 0 <= i < |out| ==> out[i] == 0
        invariant n != 0 ==> Stages(ss, taken, out, live) && ss[|taken|].v == view && ss[0].v == v0 == old(view)
        invariant |ss| > 0 && SameRange(ss[0].m, old(seg))
        invariant n != 0 ==> AllHanded(seg, view, taken, out, n, align) && Served(v0, Same(q, |out|), view)
        decreases count - |out|
      {
        ghost var m, v, lv := seg, view, live;
        SameMore(q, |out|, count);
        var r := Allocate(n, requested);
        if r.OutOfMemory? {
          RefusedHere(v0, Same(q, count), |out|, v);
          RollBack(out, ss, taken);
          ok := false;
          out := seq(count, _ => 0);
          return;
        }
        if r.Null? {
          out := out + [0];
          continue;
        }
        ghost var c :| && OneMore(v, view, c) && live == lv[c.addr := r.p] && Handed(seg, view, c, r.p, n, align);
        AllHandedMore(m, v, taken, out, n, align, seg, view, c, r.p);
        ServedSnoc(v0, Same(q, |out|), v, q, view);
        PushStage(ss, taken, out, lv, seg, view, c, r.p);
        ss, taken := ss + [Stage(seg, view)], taken + [c];
        out := out + [r.p];
      }
      if n != 0 { ServedNotRefused(v0, Same(q, count), view); }
    }

    /** The catch block of `allocate_many`: free what was allocated, last first. */
    method RollBack(out: seq<int>, ghost ss: seq<Stage>, ghost taken: seq<Block>)
      requires Valid() && Stages(ss, taken, out, live) && ss[|taken|].v == view && SameRange(ss[0].m, seg)
      modifies this
      ensures Valid() && view == ss[0].v && SameRange(old(seg), seg) && live == old(live)
    {
      var left := |out|;
      while left > 0
        invariant 0 <= left <= |out| && Valid() && live == old(live) && view == ss[left].v
        invariant SameRange(old(seg), seg)
      {
        left := left - 1;
        ghost var c, m, v, lg := taken[left], seg, view, log;
        assert OneMore(ss[left].v, ss[left + 1].v, c);
        assert Names(seg, view.blocks, out[left], c) by {
          ChainBounds(seg, seg.first, seg.End(), view.blocks);
        }
        var r := Deallocate(out[left]);
        ghost var b :| Names(m, v.blocks, out[left], b) && Released(v, b, m, seg, view, lg, log);
        NamesOne(m, v, out[left], b, c);
        PopStage(m, v, seg, view, ss[left].v, ss[left].m, c, lg, log);
      }
    }
  }
}
