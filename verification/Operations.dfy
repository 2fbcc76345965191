/** allocate, deallocate and try_expand on the heap, and what a death inside them leaves. */
module Operations {
  import opened Segments
  import opened Chains
  import opened Sanity
  import opened Heaps
  import opened HeapSteps

  // ---------------------------------------------------------------- layout

  lemma MultipleMod(k: int, q: int)
    requires 0 < k
    ensures (k * q) % k == 0
  {
    var r := (k * q) % k;
    var d := k * q / k;
    assert k * q == k * d + r;
    assert r == k * (q - d);
    assert q - d >= 1 ==> k * (q - d) >= k;
    assert q - d <= -1 ==> k * (q - d) <= -k;
  }

  /** `align_up`: the least multiple of `k` that is not below `x`. */
  function AlignUp(x: int, k: int): (r: int)
    requires 0 < k
    ensures x <= r < x + k && r % k == 0
  {
    MultipleMod(k, x / k + 1);
    assert k * (x / k + 1) == x - x % k + k;
    if x % k == 0 then x else x - x % k + k
  }

  /** Where `make_layout` puts the payload of a block at `a`. */
  function Payload(a: int, align: int): int
    requires 0 < align
  {
    AlignUp(a + HEADER_SIZE + ALLOCATION_HEADER_SIZE, align)
  }

  /** The bytes of a block at `a` that a payload of `n` bytes takes, header included. */
  function Total(a: int, n: int, align: int): int
    requires 0 < align
  {
    AlignUp(Payload(a, align) + n - a, ALIGNMENT)
  }

  predicate Fits(b: Block, n: int, align: int)
    requires 0 < align
  {
    Total(b.addr, n, align) <= b.size
  }

  lemma TotalBounds(a: int, n: int, align: int)
    requires 0 < align && 0 < n
    ensures Total(a, n, align) % ALIGNMENT == 0 && 64 <= Total(a, n, align)
    ensures a + 48 <= Payload(a, align) && Payload(a, align) + n <= a + Total(a, n, align)
    ensures Payload(a, align) % align == 0
    ensures Total(a, n, align) < Payload(a, align) + n - a + ALIGNMENT
  {
  }

  /** Two multiples of `k` are at least `k` apart. */
  lemma MultiplesApart(k: int, x: int, y: int)
    requires 0 < k && x % k == 0 && y % k == 0
    ensures x < y ==> x + k <= y
  {
    var i, j := x / k, y / k;
    assert x == k * i + x % k && y == k * j + y % k;
    if j <= i { TimesMono(k, j, i); } else { TimesMono(k, i + 1, j); }
  }

  lemma TimesMono(k: int, i: int, j: int)
    requires 0 < k && i <= j
    ensures k * i <= k * j && k * (i + 1) == k * i + k
  {
    var d := j - i;
    assert k * j == k * i + k * d && 0 <= k * d;
  }

  /** `p` is the first address behind both headers of a block at `a` that is aligned as asked. */
  predicate IsPayload(a: int, align: int, p: int)
    requires 0 < align
  {
    p % align == 0 && a + 48 <= p < a + 48 + align
  }

  /** There is exactly one such address, and no aligned address behind the headers lies before it. */
  lemma PayloadIsLeast(a: int, align: int, p: int)
    requires 0 < align
    ensures IsPayload(a, align, p) <==> p == Payload(a, align)
    ensures p % align == 0 && a + 48 <= p ==> Payload(a, align) <= p
  {
    var q := Payload(a, align);
    if p % align == 0 {
      MultiplesApart(align, p, q);
      MultiplesApart(align, q, p);
    }
  }

  /** Somewhere in the bytes from `a` to `end`, behind both headers, lie `n` bytes aligned as asked. */
  ghost predicate HasRoom(a: int, end: int, n: int, align: int)
    requires 0 < align
  {
    exists p :: p % align == 0 && a + 48 <= p && p + n <= end
  }

  /** Rounding up to the unit does not pass a multiple of it. */
  lemma AlignUpLeast(x: int, y: int)
    requires y % ALIGNMENT == 0
    ensures AlignUp(x, ALIGNMENT) <= y <==> x <= y
  {
  }

  /** The test of `allocate` and `try_expand` says exactly whether there is room. */
  lemma TotalIsExact(a: int, end: int, n: int, align: int)
    requires 0 < align && 0 < n && (end - a) % ALIGNMENT == 0
    ensures a + Total(a, n, align) <= end <==> HasRoom(a, end, n, align)
    ensures a + Total(a, n, align) <= end <==> Payload(a, align) + n <= end
  {
    TotalBounds(a, n, align);
    var p := Payload(a, align);
    assert p % align == 0;
    AlignUpLeast(p + n - a, end - a);
    if q :| q % align == 0 && a + 48 <= q && q + n <= end {
      PayloadIsLeast(a, align, q);
    }
  }

  // ---------------------------------------------------------------- replacing blocks

  ghost predicate Disjoint(bs: seq<Block>) {
    forall i, j :: 0 <= i < j < |bs| ==> bs[i].addr < bs[j].addr
  }

  lemma HeapDisjoint(m: Segment, bs: seq<Block>)
    requires Chain(m, m.first, m.End(), bs)
    ensures Disjoint(bs)
  {
    ChainAddrs(m, m.first, m.End(), bs);
    ChainBounds(m, m.first, m.End(), bs);
    forall i, j | 0 <= i < j < |bs| ensures bs[i].addr < bs[j].addr {
      assert bs[i] in bs;
    }
  }

  lemma DisjointParts(pre: seq<Block>, mid: seq<Block>, post: seq<Block>)
    requires Disjoint(pre + mid + post)
    ensures forall x, y :: x in pre && y in mid ==> x.addr < y.addr
    ensures forall x, y :: x in mid && y in post ==> x.addr < y.addr
    ensures forall x, y :: x in pre && y in post ==> x.addr < y.addr
  {
    var r := pre + mid + post;
    assert forall i :: 0 <= i < |pre| ==> r[i] == pre[i];
    assert forall i :: 0 <= i < |mid| ==> r[|pre| + i] == mid[i];
    assert forall i :: 0 <= i < |post| ==> r[|pre| + |mid| + i] == post[i];
  }

  /** Exactness survives a replacement when the list follows it. */
  lemma ExactReplace(pre: seq<Block>, was: seq<Block>, mid: seq<Block>, post: seq<Block>,
                     fs: seq<Block>, fs': seq<Block>)
    requires Disjoint(pre + was + post) && Exact(pre + was + post, fs)
    requires forall x :: x in fs' <==> (x in fs && x !in was) || (x in mid && x.free)
    ensures Exact(pre + mid + post, fs')
  {
    DisjointParts(pre, was, post);
  }

  lemma Around(bs: seq<Block>, b: Block) returns (pre: seq<Block>, post: seq<Block>)
    requires b in bs
    ensures pre == bs[..IndexOf(bs, b)] && post == bs[IndexOf(bs, b) + 1..] && bs == pre + [b] + post
  {
    var i := IndexOf(bs, b);
    pre, post := bs[..i], bs[i + 1..];
  }

  lemma NotListed(fs: seq<Block>, a: int)
    requires forall x :: x in fs ==> x.addr != a
    ensures !OnList(fs, a)
  {
    forall i | 0 <= i < |fs| ensures fs[i].addr != a {
      assert fs[i] in fs;
    }
  }

  // ---------------------------------------------------------------- allocate

  /** The stores of `allocate_from_block`: take `used` bytes of the free block `b` for a
      payload of `n` bytes at `p`. */
  ghost function AllocateStores(fs: seq<Block>, b: Block, used: int, p: int, n: Word): seq<Store>
    requires b in fs
  {
    RemoveStores(fs, b) + SplitStores(Without(fs, b), b.addr, b.size, used) + CommitStores(b.addr, p, n)
  }

  /** The heap after `used` bytes of the free block `b` were allocated. */
  ghost function AllocateView(v: View, b: Block, used: int): View
    requires b in v.blocks && b in v.frees
  {
    var i := IndexOf(v.blocks, b);
    View(v.blocks[..i] + SplitBlocks(b.(free := false), used) + v.blocks[i + 1..],
         SplitFrees(Without(v.frees, b), b, used))
  }

  lemma SplitFreesFacts(fs: seq<Block>, b: Block, used: int)
    requires Sorted(fs)
    requires b.size - used >= MIN_BLOCK ==> forall x :: x in fs ==> x.addr != b.addr + used
    ensures Sorted(SplitFrees(fs, b, used))
    ensures b.size - used < MIN_BLOCK ==> SplitFrees(fs, b, used) == fs
    ensures b.size - used >= MIN_BLOCK ==>
              forall x :: x in SplitFrees(fs, b, used) <==> x in fs || x == Block(b.addr + used, b.size - used, true)
  {
    if b.size - used >= MIN_BLOCK {
      InsertedSorted(fs, Block(b.addr + used, b.size - used, true));
    }
  }

  lemma AllocateExact(v: View, b: Block, pre: seq<Block>, post: seq<Block>, used: int)
    requires Exact(v.blocks, v.frees) && Sorted(v.frees) && Disjoint(v.blocks) && b in v.frees
    requires v.blocks == pre + [b] + post && 0 < used
    requires b.size - used >= MIN_BLOCK ==> forall x :: x in v.frees ==> x.addr != b.addr + used
    ensures var fs' := SplitFrees(Without(v.frees, b), b, used);
            && Exact(pre + SplitBlocks(b.(free := false), used) + post, fs') && Sorted(fs')
            && forall x :: x in fs' ==> x.addr != b.addr
  {
    var mid := SplitBlocks(b.(free := false), used);
    var fs' := SplitFrees(Without(v.frees, b), b, used);
    WithoutSorted(v.frees, b);
    SplitFreesFacts(Without(v.frees, b), b, used);
    assert forall x :: x in mid && x.free <==>
                       b.size - used >= MIN_BLOCK && x == Block(b.addr + used, b.size - used, true);
    ExactReplace(pre, [b], mid, post, v.frees, fs');
    DisjointParts(pre, [b], post);
  }

  lemma AllocateWellFormed(v: View, b: Block, pre: seq<Block>, post: seq<Block>, used: int)
    requires WellFormed(v.blocks, v.frees) && Disjoint(v.blocks) && b in v.frees
    requires v.blocks == pre + [b] + post && MIN_BLOCK <= used <= b.size
    requires b.size - used >= MIN_BLOCK ==> forall x :: x in v.frees ==> x.addr != b.addr + used
    ensures WellFormed(pre + SplitBlocks(b.(free := false), used) + post,
                       SplitFrees(Without(v.frees, b), b, used))
  {
    var mid := SplitBlocks(b.(free := false), used);
    AllocateExact(v, b, pre, post, used);
    assert Coalesced(pre + mid + post) by {
      assert b.free;
      CoalescedParts(pre, [b], post);
      CoalescedParts(pre, mid, post);
    }
  }

  /** The stores that mark the block allocated and write its allocation header. */
  ghost function CommitStores(a: int, p: int, n: Word): seq<Store> {
    [SetFree(a, false), SetNext(a, 0), SetBlock(p, a), SetRequested(p, n)]
  }

  lemma TakePhase(m: Segment, v: View, b: Block, pre: seq<Block>, post: seq<Block>, used: int, allowed: set<View>)
    requires Heap(m, v.blocks, v.frees) && b in v.frees && v in allowed
    requires v.blocks == pre + [b] + post && HEADER_SIZE <= used <= b.size && used % ALIGNMENT == 0
    ensures var ss := RemoveStores(v.frees, b) + SplitStores(Without(v.frees, b), b.addr, b.size, used);
            && Always(m, ss, allowed)
            && Shape(ApplyAll(m, ss), pre + SplitBlocks(b, used) + post, SplitFrees(Without(v.frees, b), b, used))
  {
    var fs1 := Without(v.frees, b);
    assert Heap(m, v.blocks, v.frees);
    RemovePhase(m, v.blocks, v.frees, b, allowed);
    WithoutSorted(v.frees, b);
    assert Torn(View(v.blocks, fs1));
    SplitPhase(ApplyAll(m, RemoveStores(v.frees, b)), pre, b, post, fs1, used, allowed);
    AlwaysConcat(m, RemoveStores(v.frees, b), SplitStores(fs1, b.addr, b.size, used), allowed);
  }

  /** Allocation, store by store: whatever the point of death, recovery either rejects
      the segment or finds the heap as it was before or as it is afterwards. */
  lemma AllocateRuns(m: Segment, v: View, b: Block, used: int, p: int, n: Word)
    requires Heap(m, v.blocks, v.frees) && b in v.frees
    requires MIN_BLOCK <= used <= b.size && used % ALIGNMENT == 0
    ensures b in v.blocks
    ensures var v' := AllocateView(v, b, used);
            var ss := AllocateStores(v.frees, b, used, p, n);
            Always(m, ss, {v, v'}) && Heap(ApplyAll(m, ss), v'.blocks, v'.frees)
  {
    var v' := AllocateView(v, b, used);
    var pre, post := Around(v.blocks, b);
    var ss := RemoveStores(v.frees, b) + SplitStores(Without(v.frees, b), b.addr, b.size, used);
    TakePhase(m, v, b, pre, post, used, {v, v'});
    HeapDisjoint(m, v.blocks);
    if used < b.size { InsideFrees(m, v, b, pre, post, used); }
    AllocateWellFormed(v, b, pre, post, used);
    AllocateExact(v, b, pre, post, used);
    CommitAllocation(ApplyAll(m, ss), v', pre, b, post, used, p, n, {v, v'});
    AlwaysConcat(m, ss, CommitStores(b.addr, p, n), {v, v'});
  }

  lemma InsideFrees(m: Segment, v: View, b: Block, pre: seq<Block>, post: seq<Block>, used: int)
    requires Heap(m, v.blocks, v.frees) && v.blocks == pre + [b] + post && 0 < used < b.size
    ensures forall x :: x in v.frees ==> x.addr != b.addr + used
  {
    InsideBlock(m, m.first, m.End(), pre, b, post, b.addr + used);
  }

  /** The block is marked allocated, and then its allocation header is written. */
  lemma CommitAllocation(m: Segment, v': View, pre: seq<Block>, b: Block, post: seq<Block>, used: int,
                         p: int, n: Word, allowed: set<View>)
    requires v' in allowed && WellFormed(v'.blocks, v'.frees)
    requires v'.blocks == pre + SplitBlocks(b.(free := false), used) + post
    requires b.free && Shape(m, pre + SplitBlocks(b, used) + post, v'.frees)
    requires forall x :: x in v'.frees ==> x.addr != b.addr
    ensures Always(m, CommitStores(b.addr, p, n), allowed)
    ensures Heap(ApplyAll(m, CommitStores(b.addr, p, n)), v'.blocks, v'.frees)
  {
    var s0, s1, s2, s3 := SetFree(b.addr, false), SetNext(b.addr, 0), SetBlock(p, b.addr), SetRequested(p, n);
    var m1 := Apply(m, s0);
    var m2 := Apply(m1, s1);
    var m3 := Apply(m2, s2);
    NotListed(v'.frees, b.addr);
    FlipShape(m, pre, b, post, used, v'.frees);
    NextKeepsShape(m1, v'.blocks, v'.frees, b.addr, 0);
    PayloadKeepsShape(m2, v'.blocks, v'.frees, s2);
    PayloadKeepsShape(m3, v'.blocks, v'.frees, s3);
    var torn := View(pre + SplitBlocks(b, used) + post, v'.frees);
    assert Torn(torn) by { assert SplitBlocks(b, used)[0] in torn.blocks; }
    ToleratedRecovers(m, torn, allowed);
    ToleratedRecovers(m1, v', allowed);
    ToleratedRecovers(m2, v', allowed);
    ToleratedRecovers(m3, v', allowed);
    FourStores(m, s0, s1, s2, s3, allowed);
  }

  lemma FlipHead(m: Segment, a: int, end: int, bs: seq<Block>, free: bool)
    requires bs != [] && Chain(m, a, end, bs)
    ensures Chain(Apply(m, SetFree(a, free)), a, end, [bs[0].(free := free)] + bs[1..])
  {
    var m' := Apply(m, SetFree(a, free));
    ChainBounds(m, a + bs[0].size, end, bs[1..]);
    ChainFrame(m, m', a + bs[0].size, end, bs[1..]);
    assert ([bs[0].(free := free)] + bs[1..])[1..] == bs[1..];
  }

  lemma FlipShape(m: Segment, pre: seq<Block>, b: Block, post: seq<Block>, used: int, fs: seq<Block>)
    requires Shape(m, pre + SplitBlocks(b, used) + post, fs)
    ensures Shape(Apply(m, SetFree(b.addr, false)), pre + SplitBlocks(b.(free := false), used) + post, fs)
  {
    var was, mid := SplitBlocks(b, used), SplitBlocks(b.(free := false), used);
    ChainParts(m, m.first, m.End(), pre, was, post);
    var a := After(m.first, pre);
    assert a == b.addr && was[0] in was;
    FlipHead(m, a, After(a, was), was, false);
    assert mid == [was[0].(free := false)] + was[1..];
    MiddleShape(m, pre, was, mid, post, fs, SetFree(b.addr, false));
  }
}
