/** `ManagedSharedMemory::grow` and `shrink_to_fit`: a file, the manager's logical size and the
    allocator's segment, changed one after the other with rollback. */
module ManagedSegments {
  import opened Segments
  import opened Chains
  import opened Heaps
  import opened HeapSteps
  import opened Operations
  import opened Resize
  import opened Rooms
  import opened History
  import opened BlockAllocation

  /** What the operating system does with a request to change the file size. */
  datatype Truncation = Done | Refused | Failed

  datatype Outcome = Returned(changed: bool) | Threw

  /** The heap is the one from before: same place, same range, same chain and free list. */
  ghost predicate SameHeap(m: Segment, v: View, m': Segment, v': View) {
    SameRange(m, m') && v' == v
  }

  /** The allocator can take the extra bytes, into a free last block or as a block of their own. */
  ghost predicate CanGrow(v: View, extra: int) {
    0 < extra && (GrowsTail(v) || MIN_BLOCK <= extra)
  }

  /** `align_down` to the unit of the allocator. */
  function Rounded(size: nat): (r: nat)
    ensures r <= size < r + ALIGNMENT && r % ALIGNMENT == 0
  {
    size - size % ALIGNMENT
  }

  class ManagedSegment {
    var fileSize: nat
    var totalSize: nat
    const heap: BlockAllocator

    ghost predicate Valid()
      reads this, heap
    {
      heap.Valid() && heap.seg.size == Rounded(totalSize) && totalSize <= fileSize
    }

    /** The manager and its allocator agree on the size. */
    ghost predicate Agreed()
      reads this, heap
    {
      heap.seg.size == totalSize
    }

    constructor (heap: BlockAllocator, fileSize: nat)
      requires heap.Valid() && 0 <= heap.seg.size <= fileSize
      ensures Valid() && Agreed() && this.heap == heap && this.fileSize == fileSize
    {
      HeapSizeAligned(heap.seg, heap.view);
      this.heap := heap;
      this.fileSize := fileSize;
      this.totalSize := heap.seg.size;
    }

    /** `SharedMemoryManager::grow_to_size`, for any size. The allocator rounds down and the manager does not,
        so afterwards the two agree exactly if the size was aligned. */
    method GrowToSize(size: nat) returns (changed: bool)
      requires Valid() && size <= fileSize && heap.seg.base + size < WORD
      modifies this`totalSize, heap
      ensures Valid() && heap.live == old(heap.live)
      ensures changed <==> CanGrow(old(heap.view), Rounded(size) - old(heap.seg.size))
      ensures changed ==> totalSize == size && SamePlace(old(heap.seg), heap.seg)
      ensures changed ==> (Agreed() <==> size % ALIGNMENT == 0)
      ensures changed ==> (GrowsTail(old(heap.view)) ==>
                             old(heap.view).blocks[|old(heap.view).blocks| - 1] in old(heap.view).frees)
      ensures changed ==> heap.view == GrowView(old(heap.view), old(heap.seg).End(), Rounded(size) - old(heap.seg.size))
      ensures !changed ==> heap.seg == old(heap.seg) && heap.view == old(heap.view) && totalSize == old(totalSize)
    {
      hide Chain, List, WellFormed, Live, Roomy, GrowView, GrowStores, ApplyAll, GrowsTail;
      if size <= totalSize {
        return false;
      }
      changed := heap.Grow(size);
      if changed {
        totalSize := size;
      }
    }

    /** `ManagedSharedMemory::grow`. The arguments behind `page` say what the system calls do:
        the first change of the file size, the mapping, and the two places that undo the change. */
    method Grow(extra: nat, page: nat, truncate: Truncation, mapped: bool, undo: Truncation, retry: Truncation)
      returns (r: Outcome)
      requires Valid() && ALIGNMENT <= page && page % ALIGNMENT == 0
      requires mapped ==> heap.seg.base + AlignUp(fileSize + extra, page) < WORD
      modifies this, heap
      ensures Valid() && heap.live == old(heap.live) && totalSize <= fileSize
      ensures var size := AlignUp(old(fileSize) + extra, page);
              && (r == Returned(true) <==>
                  extra != 0 && size < WORD && truncate.Done? && mapped
                  && CanGrow(old(heap.view), size - old(heap.seg.size)))
              && (r == Returned(true) ==> totalSize == size && fileSize == size && Agreed())
              && (r == Threw <==>
                    extra != 0 && (size >= WORD || truncate.Failed? || (truncate.Done? && !mapped)
                    || (truncate.Done? && undo.Failed? && !CanGrow(old(heap.view), size - old(heap.seg.size)))))
      ensures r == Returned(true) ==> (GrowsTail(old(heap.view)) ==>
                old(heap.view).blocks[|old(heap.view).blocks| - 1] in old(heap.view).frees)
      ensures r == Returned(true) ==>
                heap.view == GrowView(old(heap.view), old(heap.seg).End(), totalSize - old(heap.seg.size))
      ensures r != Returned(true) ==>
                && heap.seg == old(heap.seg) && heap.view == old(heap.view)
                && totalSize == old(totalSize)
      ensures r != Returned(true) && fileSize != old(fileSize) ==> undo.Refused? || !retry.Done?
    {
      hide Chain, List, WellFormed, Live, GrowView, GrowsTail;
      if extra == 0 {
        return Returned(false);
      }
      var oldSize := fileSize;
      var size := AlignUp(oldSize + extra, page);
      if size >= WORD {
        return Threw;
      }
      AlignedPages(size, page);
      match truncate {
        case Refused => return Returned(false);
        case Failed => return Threw;
        case Done =>
      }
      fileSize := size;
      if !mapped {
        if retry.Done? { fileSize := oldSize; }
        return Threw;
      }
      var changed := GrowToSize(size);
      if !changed {
        if undo.Done? || (undo.Failed? && retry.Done?) { fileSize := oldSize; }
        return if undo.Failed? then Threw else Returned(false);
      }
      return Returned(true);
    }

    /** The rollback of `shrink_to_fit`: grow back to the logical size from before. */
    method RollBack(size: nat, ghost m: Segment, ghost v: View)
      requires Valid() && size <= fileSize && Heap(m, v.blocks, v.frees) && m.base % ALIGNMENT == 0
      requires Roomy(m.first, v.blocks)
      requires Rounded(size) == m.size
      requires Shrinks(v) ==> v.blocks[|v.blocks| - 1] in v.frees
      requires heap.seg == ApplyAll(m, ShrinkStores(v, m.base)) && heap.view == ShrinkView(v) && SamePlace(m, heap.seg)
      requires if Shrinks(v) then heap.seg.size < m.size else heap.seg == m && Agreed()
      modifies this`totalSize, heap
      ensures Valid() && heap.live == old(heap.live)
      ensures SameHeap(m, v, heap.seg, heap.view)
      ensures size == m.size ==> totalSize == size
    {
      hide Chain, List, WellFormed, Roomy, ApplyAll, ShrinkStores, GrowStores, ShrinkView, GrowView;
      HeapSizeAligned(m, v);
      NothingToShrink(v);
      if Shrinks(v) {
        GrowUndoesShrink(m, v);
        GrowBackSucceeds(m, v);
      }
      var changed := GrowToSize(size);
    }

    /** `ManagedSharedMemory::shrink_to_fit`. `mapped`, `remapped` and `retried` say whether the three
        attempts to map the file succeed. */
    method ShrinkToFit(page: nat, mapped: bool, truncate: Truncation, remapped: bool, retried: bool)
      returns (r: Outcome)
      requires Valid() && ALIGNMENT <= page && page % ALIGNMENT == 0
      modifies this, heap
      ensures Valid() && heap.live == old(heap.live) && totalSize <= fileSize <= old(fileSize)
      ensures Shrinks(old(heap.view)) ==> old(heap.view).blocks[|old(heap.view).blocks| - 1] in old(heap.view).frees
      ensures r == Returned(false) ==>
                SameHeap(old(heap.seg), old(heap.view), heap.seg, heap.view) && fileSize == old(fileSize)
      ensures r == Returned(false) && old(Agreed()) ==> totalSize == old(totalSize)
      ensures old(heap.view).blocks != []
      ensures var newSize := ShrunkSize(old(heap.seg).base, old(heap.seg).size, old(heap.view));
              var smaller := AlignUp(newSize, page) < old(fileSize);
              && (r == Returned(true) <==> mapped && smaller && truncate.Done?)
              && (r == Returned(true) ==> totalSize == newSize && fileSize == AlignUp(newSize, page))
              && (r == Returned(false) <==>
                    mapped && if smaller then truncate.Refused? && remapped else newSize >= old(totalSize) || remapped)
      ensures r == Returned(true) ==> heap.view == ShrinkView(old(heap.view))
      ensures r == Threw ==> fileSize == old(fileSize)
      ensures r == Threw && remapped && retried ==> SameHeap(old(heap.seg), old(heap.view), heap.seg, heap.view)
      ensures r == Threw ==>
                SameHeap(old(heap.seg), old(heap.view), heap.seg, heap.view) || heap.view == ShrinkView(old(heap.view))
    {
      hide Chain, List, WellFormed, ApplyAll, ShrinkStores, ShrinkView;
      TailListed(heap.seg, heap.view);
      SomeBlocks(heap.seg, heap.view);
      if !mapped {
        return Threw;
      }
      ghost var m, v := heap.seg, heap.view;
      var oldFile, oldLogical := fileSize, totalSize;
      ShrinksTo(m, v);
      totalSize := heap.ShrinkToFit();
      HeapSizeAligned(heap.seg, heap.view);
      NothingToShrink(v);
      var newFile := AlignUp(totalSize, page);
      if totalSize >= oldLogical && newFile >= oldFile {
        return Returned(false);
      }
      if newFile >= oldFile {
        if !remapped {
          return Threw;
        }
        RollBack(oldLogical, m, v);
        return Returned(false);
      }
      if truncate.Done? {
        fileSize := newFile;
        return Returned(true);
      }
      if truncate.Refused? && remapped {
        RollBack(oldLogical, m, v);
        return Returned(false);
      }
      if retried {
        RollBack(oldLogical, m, v);
      }
      return Threw;
    }
  }

  lemma AlignedPages(size: int, page: int)
    requires 0 < page && page % ALIGNMENT == 0 && size % page == 0
    ensures size % ALIGNMENT == 0
  {
    var a, b := size / page, page / ALIGNMENT;
    assert size == a * page && page == b * ALIGNMENT;
    assert size == (a * b) * ALIGNMENT by {
      assert a * (b * ALIGNMENT) == (a * b) * ALIGNMENT;
    }
  }

  lemma HeapSizeAligned(m: Segment, v: View)
    requires Heap(m, v.blocks, v.frees) && m.base % ALIGNMENT == 0
    ensures m.size % ALIGNMENT == 0 && m.base + m.size < WORD
  {
    ChainAligned(m, m.first, m.End(), v.blocks);
  }

  lemma NothingToShrink(v: View)
    ensures !Shrinks(v) ==> ShrinkView(v) == v
  {
  }

  /** What a shrink took away can be given back exactly if the last block was large enough to be split off, as in
      every roomy heap. */
  lemma GrowBackSucceeds(m: Segment, v: View)
    requires Heap(m, v.blocks, v.frees) && Shrinks(v) && v.blocks[|v.blocks| - 1] in v.frees && m.base % ALIGNMENT == 0
    ensures CanGrow(ShrinkView(v), m.size - ApplyAll(m, ShrinkStores(v, m.base)).size) <==>
              MIN_BLOCK <= v.blocks[|v.blocks| - 1].size
    ensures Roomy(m.first, v.blocks) ==> MIN_BLOCK <= v.blocks[|v.blocks| - 1].size
  {
    ShrinkLeaves(m, v);
    ShrinkRuns(m, v);
    if Roomy(m.first, v.blocks) { RoomyTail(m, v); }
  }
}
