/** The allocator performs the operations of the locking protocol: whatever a method of the allocator does to the
    headers is one operation that a writer is allowed, store by store. */
module AllocatorRefinement {
  import opened Segments
  import opened Chains
  import opened Heaps
  import opened HeapSteps
  import opened Operations
  import opened Release
  import opened Resize
  import opened Requests
  import opened BlockAllocation
  import opened Crash
  import opened ResizeCrash
  import opened HeapOps

  /** The segment `m'` is what the operation makes of `m`, and the operation may be performed on `m`. */
  ghost predicate Performs(m: Segment, op: HeapOp, m': Segment) {
    Enabled(m, op) && m' == ApplyAll(m, OpStores(m, op))
  }

  /** What `Allocate` does is an allocation. */
  lemma AllocateIsOp(v: View, b: Block, n: Word, align: int, p: int, m: Segment, m': Segment, live: map<int, int>,
                     v': View, live': map<int, int>, log: seq<Store>, log': seq<Store>)
    requires Heap(m, v.blocks, v.frees) && 0 < n && Took(v, b, n, align, p, m, m', live, v', live', log, log')
    ensures var op := AllocateOp(v, b, Total(b.addr, n, align), p, n);
            Performs(m, op, m') && log' == log + OpStores(m, op)
  {
    hide Heap, ApplyAll, AllocateStores, AllocateView, Always;
    FitsIsRoom(m, v, n, align);
    TotalBounds(b.addr, n, align);
  }

  /** What `Deallocate` does is a release. */
  lemma DeallocateIsOp(v: View, b: Block, m: Segment, m': Segment, v': View, log: seq<Store>, log': seq<Store>)
    requires Heap(m, v.blocks, v.frees) && Released(v, b, m, m', v', log, log')
    ensures Performs(m, DeallocateOp(v, b), m') && log' == log + OpStores(m, DeallocateOp(v, b))
  {
  }

  /** What a successful `TryExpand` does is an expansion, or the store of a new size. */
  lemma ExpandIsOp(v: View, b: Block, n: Word, align: int, p: int, m: Segment, m': Segment, v': View, log: seq<Store>,
                   log': seq<Store>) returns (op: HeapOp)
    requires Heap(m, v.blocks, v.frees) && 0 < n && 0 < align && !b.free
    requires Expanded(v, b, Total(b.addr, n, align), p, n, m, m', v', log, log')
    ensures Performs(m, op, m') && log' == log + OpStores(m, op)
  {
    hide Heap, Total, ExpandStores, ExpandView, Always;
    var used := Total(b.addr, n, align);
    TotalBounds(b.addr, n, align);
    if used <= b.size && log' == log + [SetRequested(p, n)] && m' == Apply(m, SetRequested(p, n)) {
      op := RequestOp(p, n);
      ApplyOne(m, SetRequested(p, n));
      assert IsHeap(m);
    } else {
      var pre, c, post :|
        && ExpandsInto(v, pre, b, c, post, used)
        && v' == ExpandView(pre, b, c, post, v.frees, used)
        && log' == log + ExpandStores(v.frees, b, c, used, p, n)
        && m' == ApplyAll(m, ExpandStores(v.frees, b, c, used, p, n));
      op := ExpandOp(pre, b, c, post, v.frees, used, p, n);
    }
  }

  /** What a successful `Grow` does is a resize that a writer is allowed. */
  lemma GrowIsOp(m: Segment, v: View, size: int, m': Segment)
    requires Heap(m, v.blocks, v.frees) && m.base % ALIGNMENT == 0 && m.size < size && size % ALIGNMENT == 0
    requires m.base + size < WORD && (GrowsTail(v) ==> v.blocks[|v.blocks| - 1] in v.frees)
    requires m' == ApplyAll(m, GrowStores(v, m.size, m.End(), size))
    ensures Performs(m, GrowOp(v, size), m')
  {
  }

  lemma ShrinkIsOp(m: Segment, v: View, m': Segment)
    requires Heap(m, v.blocks, v.frees) && (Shrinks(v) ==> v.blocks[|v.blocks| - 1] in v.frees)
    requires m' == ApplyAll(m, ShrinkStores(v, m.base))
    ensures Performs(m, ShrinkOp(v), m')
  {
  }

  /** And every operation that a writer is allowed ends in a heap. */
  lemma PerformedIsHeap(m: Segment, op: HeapOp, m': Segment)
    requires Performs(m, op, m')
    ensures IsHeap(m')
  {
    hide Enabled, OpStores, ApplyAll, IsHeap;
    OpSafe(m, op);
    SafeAtEveryDeath(m, OpStores(m, op));
  }
}
