/** What a process leaves behind when it dies between two stores of an operation. */
module Crash {
  import opened Segments
  import opened Chains
  import opened Sanity
  import opened Heaps
  import opened HeapSteps
  import opened Operations
  import opened Release

  /** The headers are those of some heap. */
  ghost predicate IsHeap(m: Segment) {
    exists v: View :: Heap(m, v.blocks, v.frees)
  }

  /** The segment after the first `k` stores, when the process died there. */
  ghost function Died(m: Segment, ss: seq<Store>, k: nat): Segment
    requires k <= |ss|
  {
    ApplyAll(m, ss[..k])
  }

  lemma DiedRecoverable(m: Segment, ss: seq<Store>, k: nat, allowed: set<View>, last: View)
    requires Always(m, ss, allowed) && k <= |ss| && last in allowed
    requires Heap(ApplyAll(m, ss), last.blocks, last.frees)
    ensures Recoverable(Died(m, ss, k), allowed)
  {
    if k < |ss| {
      AlwaysAt(m, ss, allowed, k);
    } else {
      assert ss[..k] == ss;
    }
  }

  /** A death anywhere in `allocate`: rejected, or the heap from before, or the heap from after. */
  lemma AllocateCrash(m: Segment, v: View, b: Block, used: int, p: int, n: Word, k: nat)
    requires Heap(m, v.blocks, v.frees) && b in v.frees && b in v.blocks
    requires MIN_BLOCK <= used <= b.size && used % ALIGNMENT == 0
    requires k <= |AllocateStores(v.frees, b, used, p, n)|
    ensures var d, v' := Died(m, AllocateStores(v.frees, b, used, p, n), k), AllocateView(v, b, used);
            Sane(d) ==> Heap(d, v.blocks, v.frees) || Heap(d, v'.blocks, v'.frees)
  {
    hide Heap, Sane, ApplyAll, AllocateStores, AllocateView;
    AllocateRuns(m, v, b, used, p, n);
    DiedRecoverable(m, AllocateStores(v.frees, b, used, p, n), k, {v, AllocateView(v, b, used)},
                    AllocateView(v, b, used));
  }

  /** A death anywhere in `deallocate`: rejected, or the heap from before, or the heap from after. */
  lemma DeallocateCrash(m: Segment, v: View, b: Block, k: nat)
    requires Heap(m, v.blocks, v.frees) && b in v.blocks && !b.free && Mergeable(SiteOf(v, b))
    requires k <= |DeallocateStores(SiteOf(v, b))|
    ensures var d, v' := Died(m, DeallocateStores(SiteOf(v, b)), k), DeallocateView(SiteOf(v, b));
            Sane(d) ==> Heap(d, v.blocks, v.frees) || Heap(d, v'.blocks, v'.frees)
  {
    hide Heap, Sane, ApplyAll, DeallocateStores, DeallocateView, SiteOf;
    DeallocateRuns(m, v, b);
    DiedRecoverable(m, DeallocateStores(SiteOf(v, b)), k, {v, DeallocateView(SiteOf(v, b))},
                    DeallocateView(SiteOf(v, b)));
  }

  /** A death anywhere in `try_expand` may in addition leave the whole successor absorbed. */
  lemma ExpandCrash(m: Segment, pre: seq<Block>, b: Block, n: Block, post: seq<Block>, fs: seq<Block>,
                    used: int, p: int, size: Word, k: nat)
    requires Heap(m, pre + [b, n] + post, fs) && !b.free && n.free && n in fs
    requires MIN_BLOCK <= used <= b.size + n.size && b.size < used && used % ALIGNMENT == 0
    requires k <= |ExpandStores(fs, b, n, used, p, size)|
    ensures var d := Died(m, ExpandStores(fs, b, n, used, p, size), k);
            var v', a := ExpandView(pre, b, n, post, fs, used), AbsorbedView(pre, b, n, post, fs);
            Sane(d) ==>
              Heap(d, pre + [b, n] + post, fs) || Heap(d, v'.blocks, v'.frees) || Heap(d, a.blocks, a.frees)
  {
    hide Heap, Sane, ApplyAll, ExpandStores, ExpandView, AbsorbedView;
    ExpandRuns(m, pre, b, n, post, fs, used, p, size);
    var v', a := ExpandView(pre, b, n, post, fs, used), AbsorbedView(pre, b, n, post, fs);
    DiedRecoverable(m, ExpandStores(fs, b, n, used, p, size), k, {View(pre + [b, n] + post, fs), a, v'}, v');
  }

  // ---------------------------------------------------------------- any operation

  /** Whenever the self-check accepts the headers on the way, they are those of a heap, and so
      they are in the end. */
  ghost predicate SafeStores(m: Segment, ss: seq<Store>)
    decreases |ss|
  {
    if ss == [] then IsHeap(m)
    else (Sane(m) ==> IsHeap(m)) && SafeStores(Apply(m, ss[0]), ss[1..])
  }

  lemma {:induction false} AlwaysSafe(m: Segment, ss: seq<Store>, allowed: set<View>)
    requires Always(m, ss, allowed) && IsHeap(ApplyAll(m, ss))
    ensures SafeStores(m, ss)
    decreases |ss|
  {
    if ss != [] {
      AlwaysSafe(Apply(m, ss[0]), ss[1..], allowed);
    }
  }
}
