/** The self-check of the allocator and the walks it is made of. Every loop here
    runs over arbitrary header memory. */
module Sanity {
  import opened Segments
  import opened Chains

  function BlockAt(m: Segment, a: int): Block { Block(a, m.Size(a), m.Free(a)) }

  /** The free list holds exactly the free blocks of the chain. */
  ghost predicate Exact(bs: seq<Block>, fs: seq<Block>) {
    forall b :: b in fs <==> b in bs && b.free
  }

  ghost predicate SaneWith(m: Segment, bs: seq<Block>, fs: seq<Block>) {
    && Chain(m, m.first, m.End(), bs)
    && List(m, m.head, 0, fs)
    && Exact(bs, fs)
  }

  /** What the self-check promises: the headers tile the segment and the free
      list ends and is exactly the set of free blocks. */
  ghost predicate Sane(m: Segment) {
    m.size != 0 && exists bs, fs :: SaneWith(m, bs, fs)
  }

  /** The chain walk from `a` comes across the address `t`. */
  ghost predicate Reach(m: Segment, a: int, t: int) {
    exists bs :: Chain(m, a, t, bs)
  }

  lemma ReachStep(m: Segment, a: int, t: int)
    ensures Reach(m, a, a)
    ensures Reach(m, a, t) ==> a <= t
    ensures a != t ==>
              (Reach(m, a, t) <==>
               HEADER_SIZE <= m.Size(a) && m.Size(a) % ALIGNMENT == 0 && Reach(m, a + m.Size(a), t))
  {
    assert Chain(m, a, a, []);
    if bs :| Chain(m, a, t, bs) {
      ChainBounds(m, a, t, bs);
      if a != t {
        assert Chain(m, a + m.Size(a), t, bs[1..]);
      }
    }
    if HEADER_SIZE <= m.Size(a) && m.Size(a) % ALIGNMENT == 0 && Reach(m, a + m.Size(a), t) {
      var bs :| Chain(m, a + m.Size(a), t, bs);
      assert ([BlockAt(m, a)] + bs)[1..] == bs;
      assert Chain(m, a, t, [BlockAt(m, a)] + bs);
    }
  }

  lemma ReachSnoc(m: Segment, a: int, t: int, bs: seq<Block>)
    requires Chain(m, a, t, bs) && HEADER_SIZE <= m.Size(t) && m.Size(t) % ALIGNMENT == 0
    ensures Chain(m, a, t + m.Size(t), bs + [BlockAt(m, t)])
  {
    ChainBounds(m, a, t, bs);
    assert [BlockAt(m, t)][1..] == [];
    ChainSplit(m, a, t + m.Size(t), bs, [BlockAt(m, t)]);
  }

  /** An address that the walk comes across before the end starts a block of the chain. */
  lemma {:induction false} ReachBlock(m: Segment, a: int, end: int, bs: seq<Block>, t: int)
    requires Chain(m, a, end, bs) && Reach(m, a, t) && t < end
    ensures BlockAt(m, t) in bs
    decreases |bs|
  {
    ReachStep(m, a, t);
    if a != t {
      ReachBlock(m, a + m.Size(a), end, bs[1..], t);
    }
  }

  lemma {:induction false} BlockReach(m: Segment, a: int, end: int, bs: seq<Block>, b: Block)
    requires Chain(m, a, end, bs) && b in bs
    ensures Reach(m, a, b.addr) && a <= b.addr < end
    decreases |bs|
  {
    ChainBounds(m, a, end, bs);
    ReachStep(m, a, b.addr);
    if b != bs[0] {
      BlockReach(m, a + bs[0].size, end, bs[1..], b);
    }
  }

  /** `is_block_in_chain`. */
  method IsBlockInChain(m: Segment, target: int) returns (r: bool)
    requires m.Mapped()
    ensures r <==> target < m.End() && Reach(m, m.first, target)
  {
    var current, visited := m.first, 0;
    while current < m.End()
      invariant m.first <= current && 0 <= HEADER_SIZE * visited <= current - m.first
      invariant current <= m.End()
      invariant target < m.End() ==> (Reach(m, m.first, target) <==> Reach(m, current, target))
      decreases m.End() - current
    {
      ReachStep(m, current, target);
      if current == target {
        return true;
      }
      var size := m.Size(current);
      if size < HEADER_SIZE || size % ALIGNMENT != 0 {
        return false;
      }
      var next := Wrap(current + size);
      ReachStep(m, current + size, target);
      if next <= current || next > m.End() {
        return false;
      }
      current := next;
      visited := visited + 1;
      if visited > m.MaxBlocks() {
        return false;
      }
    }
    ReachStep(m, current, target);
    return false;
  }

  ghost function LastAddr(bs: seq<Block>): int {
    if bs == [] then 0 else bs[|bs| - 1].addr
  }

  /** `physical_previous`; `last_block` is the same walk with the segment end as its target. */
  method PhysicalPrevious(m: Segment, target: int) returns (r: int)
    requires m.Mapped() && target <= m.End()
    ensures forall bs :: Chain(m, m.first, target, bs) ==> r == LastAddr(bs)
    ensures r != 0 ==> Reach(m, m.first, target)
  {
    var current, visited := m.first, 0;
    var prev := 0;
    ghost var seen: seq<Block> := [];
    ReachStep(m, m.first, target);
    while current < target
      invariant m.first <= current && 0 <= HEADER_SIZE * visited <= current - m.first
      invariant Chain(m, m.first, current, seen) && prev == LastAddr(seen)
      invariant Reach(m, m.first, target) <==> Reach(m, current, target)
      decreases target - current
    {
      ReachStep(m, current, target);
      var size := m.Size(current);
      if size < HEADER_SIZE || size % ALIGNMENT != 0 {
        return 0;
      }
      var next := Wrap(current + size);
      ReachStep(m, current + size, target);
      if next <= current || next > target {
        return 0;
      }
      ReachSnoc(m, m.first, current, seen);
      seen := seen + [BlockAt(m, current)];
      prev := current;
      current := next;
      visited := visited + 1;
      if visited > m.MaxBlocks() {
        return 0;
      }
    }
    ReachStep(m, current, target);
    if current == target {
      forall bs | Chain(m, m.first, target, bs) ensures prev == LastAddr(bs) {
        ChainUnique(m, m.first, target, seen, bs);
      }
      return prev;
    }
    return 0;
  }

  ghost predicate OnList(fs: seq<Block>, a: int) {
    exists i :: 0 <= i < |fs| && fs[i].addr == a
  }

  lemma OnListSnoc(fs: seq<Block>, b: Block, a: int)
    ensures OnList(fs + [b], a) <==> OnList(fs, a) || b.addr == a
  {
    if i :| 0 <= i < |fs| && fs[i].addr == a {
      assert (fs + [b])[i].addr == a;
    }
    if b.addr == a {
      assert (fs + [b])[|fs|].addr == a;
    }
  }

  lemma ListSnoc(m: Segment, p: int, q: int, fs: seq<Block>)
    requires q != 0 && List(m, p, q, fs)
    ensures List(m, p, m.Next(q), fs + [BlockAt(m, q)])
  {
    assert [BlockAt(m, q)][1..] == [];
    ListConcat(m, p, q, m.Next(q), fs, [BlockAt(m, q)]);
  }

  /** A longer walk over the links goes on where a shorter one stopped. */
  lemma {:induction false} WalkGoesOn(m: Segment, p: int, q: int, r: int, xs: seq<Block>, ys: seq<Block>)
    requires List(m, p, q, xs) && List(m, p, r, ys) && |xs| <= |ys|
    ensures List(m, q, r, ys[|xs|..])
    decreases |xs|
  {
    if xs == [] {
      assert ys[0..] == ys;
    } else {
      WalkGoesOn(m, m.Next(p), q, r, xs[1..], ys[1..]);
      assert ys[1..][|xs[1..]|..] == ys[|xs|..];
    }
  }

  /** The walk over the links comes across `target` within `limit` steps, whatever the links are. */
  ghost predicate MetWithin(m: Segment, target: int, limit: int) {
    target != 0 && exists xs: seq<Block> :: |xs| <= limit && List(m, m.head, target, xs)
  }

  /** `is_in_free_list`: on any links, cyclic ones included, true exactly if the walk meets the target within
      the visit limit; so it is exact whenever the list ends within that limit. */
  method IsInFreeList(m: Segment, target: int) returns (r: bool)
    requires 0 <= m.size
    ensures r <==> MetWithin(m, target, m.MaxBlocks())
    ensures forall fs :: List(m, m.head, 0, fs) && |fs| <= m.MaxBlocks() ==> (r <==> OnList(fs, target))
  {
    var current, visited := m.head, 0;
    ghost var seen: seq<Block> := [];
    while current != 0
      invariant 0 <= visited == |seen| <= m.MaxBlocks()
      invariant List(m, m.head, current, seen) && !OnList(seen, target)
      invariant !MetWithin(m, target, visited - 1)
      decreases m.MaxBlocks() - visited
    {
      if current == target {
        forall fs: seq<Block> | List(m, m.head, 0, fs) ensures OnList(fs, target) {
          ListPrefix(m, m.head, current, seen, fs);
          assert fs[|seen|..][0] == fs[|seen|];
        }
        return true;
      }
      NotMetYet(m, target, current, seen);
      ListSnoc(m, m.head, current, seen);
      OnListSnoc(seen, BlockAt(m, current), target);
      seen := seen + [BlockAt(m, current)];
      current := m.Next(current);
      visited := visited + 1;
      if visited > m.MaxBlocks() {
        forall fs: seq<Block> | List(m, m.head, 0, fs) ensures |fs| > m.MaxBlocks() {
          ListPrefix(m, m.head, current, seen, fs);
        }
        return false;
      }
    }
    NeverMet(m, target, seen);
    forall fs: seq<Block> | List(m, m.head, 0, fs) ensures !OnList(fs, target) {
      ListUnique(m, m.head, seen, fs);
      assert OnList(fs, target) <==> OnList(seen, target) by {
        assert forall i :: 0 <= i < |fs| ==> seen[i].addr == fs[i].addr;
      }
    }
    return false;
  }

  lemma NotMetYet(m: Segment, target: int, current: int, seen: seq<Block>)
    requires List(m, m.head, current, seen) && current != target && !MetWithin(m, target, |seen| - 1)
    ensures !MetWithin(m, target, |seen|)
  {
    forall xs: seq<Block> | |xs| == |seen| && List(m, m.head, target, xs) ensures false {
      WalkGoesOn(m, m.head, current, target, seen, xs);
    }
  }

  lemma NeverMet(m: Segment, target: int, seen: seq<Block>)
    requires List(m, m.head, 0, seen) && !MetWithin(m, target, |seen| - 1)
    ensures !MetWithin(m, target, m.MaxBlocks())
  {
    if target != 0 {
      forall xs: seq<Block> | |seen| <= |xs| && List(m, m.head, target, xs) ensures false {
        WalkGoesOn(m, m.head, 0, target, seen, xs);
      }
    }
  }

  /** What `is_valid_free_list` checks of each element. */
  ghost predicate Listed(m: Segment, b: Block) {
    && b == BlockAt(m, b.addr) && b.free
    && m.base <= b.addr < m.End()
    && b.addr % ALIGNMENT == 0
    && Reach(m, m.first, b.addr)
  }

  ghost predicate ValidFreeList(m: Segment, fs: seq<Block>) {
    List(m, m.head, 0, fs) && forall b :: b in fs ==> Listed(m, b)
  }

  /** Distinct numbers below `n` are at most `n` many. */
  lemma {:induction false} Pigeonhole(ks: seq<int>, s: set<int>, n: nat)
    requires forall i, j :: 0 <= i < j < |ks| ==> ks[i] != ks[j]
    requires s == (set k | k in ks) && forall x :: x in s ==> 0 <= x < n
    ensures |ks| <= n
  {
    DistinctCard(ks, s);
    BoundedCard(s, n);
  }

  lemma {:induction false} BoundedCard(s: set<int>, n: nat)
    requires forall x :: x in s ==> 0 <= x < n
    ensures |s| <= n
    decreases n
  {
    if n > 0 {
      BoundedCard(s - {n - 1}, n - 1);
      assert s <= (s - {n - 1}) + {n - 1};
    } else {
      assert forall x :: x in s ==> x in {0} - {0};
      assert s <= {};
    }
  }

  lemma {:induction false} DistinctCard(ks: seq<int>, s: set<int>)
    requires forall i, j :: 0 <= i < j < |ks| ==> ks[i] != ks[j]
    requires s == set k | k in ks
    ensures |s| == |ks|
    decreases |ks|
  {
    if ks != [] {
      var rest := ks[1..];
      var t := set k | k in rest;
      DistinctCard(rest, t);
      assert ks == [ks[0]] + rest;
      assert s == t + {ks[0]} && ks[0] !in t;
    }
  }

  /** A list that ends and stays inside the chain is within the visit limit. */
  lemma ListWithinLimit(m: Segment, fs: seq<Block>)
    requires m.Mapped() && List(m, m.head, 0, fs)
    requires forall b :: b in fs ==> m.first <= b.addr < m.End() && b.addr % ALIGNMENT == 0
    ensures |fs| <= m.MaxBlocks()
  {
    ListAcyclic(m, m.head, fs);
    var ks := seq(|fs|, i requires 0 <= i < |fs| => (fs[i].addr - m.first) / ALIGNMENT);
    forall i | 0 <= i < |fs| ensures 0 <= ks[i] < m.MaxBlocks() && ks[i] * ALIGNMENT == fs[i].addr - m.first {
      assert fs[i] in fs;
    }
    Pigeonhole(ks, (set k | k in ks), m.MaxBlocks());
  }

  lemma ListedWithinLimit(m: Segment, fs: seq<Block>)
    requires m.Mapped() && ValidFreeList(m, fs)
    ensures |fs| <= m.MaxBlocks()
  {
    forall b | b in fs ensures m.first <= b.addr < m.End() && b.addr % ALIGNMENT == 0 {
      assert Listed(m, b);
      ReachStep(m, m.first, b.addr);
    }
    ListWithinLimit(m, fs);
  }

  lemma ListedNext(m: Segment, seen: seq<Block>, current: int, fs: seq<Block>)
    requires ValidFreeList(m, fs) && List(m, m.head, current, seen) && current != 0
    ensures Listed(m, BlockAt(m, current))
  {
    ListPrefix(m, m.head, current, seen, fs);
    assert fs[|seen|..][0] == fs[|seen|] && fs[|seen|] in fs;
    assert Listed(m, fs[|seen|]);
  }

  /** `is_valid_free_list`, over arbitrary links. */
  method IsValidFreeList(m: Segment) returns (r: bool)
    requires m.Mapped()
    ensures r <==> exists fs :: ValidFreeList(m, fs)
  {
    var current, visited := m.head, 0;
    ghost var seen: seq<Block> := [];
    while current != 0
      invariant 0 <= visited == |seen| <= m.MaxBlocks()
      invariant List(m, m.head, current, seen) && forall b :: b in seen ==> Listed(m, b)
      decreases m.MaxBlocks() - visited
    {
      var inSegment := m.base <= current < m.End();
      var inChain := IsBlockInChain(m, current);
      if !inSegment || current % ALIGNMENT != 0 || !m.Free(current) || !inChain {
        forall fs | ValidFreeList(m, fs) ensures false {
          ListedNext(m, seen, current, fs);
        }
        return false;
      }
      ListSnoc(m, m.head, current, seen);
      assert Listed(m, BlockAt(m, current));
      seen := seen + [BlockAt(m, current)];
      current := m.Next(current);
      visited := visited + 1;
      if visited > m.MaxBlocks() {
        forall fs | ValidFreeList(m, fs) ensures false {
          ListedWithinLimit(m, fs);
          ListPrefix(m, m.head, current, seen, fs);
        }
        return false;
      }
    }
    assert ValidFreeList(m, seen);
    return true;
  }

  /** A sane heap passes the free-list check. */
  lemma SaneListed(m: Segment, bs: seq<Block>, fs: seq<Block>)
    requires m.Mapped() && SaneWith(m, bs, fs)
    ensures ValidFreeList(m, fs) && |fs| <= m.MaxBlocks()
  {
    ChainAligned(m, m.first, m.End(), bs);
    ChainBounds(m, m.first, m.End(), bs);
    forall b | b in fs ensures Listed(m, b) {
      BlockReach(m, m.first, m.End(), bs, b);
    }
    ListedWithinLimit(m, fs);
  }

  /** In a sane heap every flag agrees with the free list. */
  lemma SaneFlags(m: Segment, bs: seq<Block>, fs: seq<Block>, b: Block)
    requires Sane(m) && Chain(m, m.first, m.End(), bs) && List(m, m.head, 0, fs) && b in bs
    ensures b.free <==> OnList(fs, b.addr)
  {
    var bs': seq<Block>, fs': seq<Block> :| SaneWith(m, bs', fs');
    ChainUnique(m, m.first, m.End(), bs, bs');
    ListUnique(m, m.head, fs, fs');
    ChainAddrs(m, m.first, m.End(), bs);
    if b.free {
      var i :| 0 <= i < |fs'| && fs'[i] == b;
      assert fs[i].addr == b.addr;
    }
    if i :| 0 <= i < |fs| && fs[i].addr == b.addr {
      assert fs'[i] in fs' && fs'[i].addr == b.addr;
    }
  }

  lemma SaneReaches(m: Segment)
    requires Sane(m)
    ensures Reach(m, m.first, m.End())
  {
    var bs, fs :| SaneWith(m, bs, fs);
    assert Chain(m, m.first, m.End(), bs);
  }

  /** In a sane heap the walk meets no header whose flag disagrees with the free list. */
  lemma SaneFlagAt(m: Segment, fs: seq<Block>, a: int)
    requires Sane(m) && List(m, m.head, 0, fs) && Reach(m, m.first, a) && a < m.End()
    ensures m.Free(a) <==> OnList(fs, a)
  {
    var bs, fs' :| SaneWith(m, bs, fs');
    ReachBlock(m, m.first, m.End(), bs, a);
    SaneFlags(m, bs, fs, BlockAt(m, a));
  }

  lemma SaneIntro(m: Segment, bs: seq<Block>, fs: seq<Block>)
    requires m.size != 0 && Chain(m, m.first, m.End(), bs) && ValidFreeList(m, fs)
    requires Agrees(bs, fs)
    ensures Sane(m)
  {
    ChainBounds(m, m.first, m.End(), bs);
    forall b | b in fs ensures b in bs && b.free {
      assert Listed(m, b);
      ReachBlock(m, m.first, m.End(), bs, b.addr);
    }
    forall b | b in bs && b.free ensures b in fs {
      var i :| 0 <= i < |fs| && fs[i].addr == b.addr;
      assert fs[i] in fs;
      assert Listed(m, fs[i]);
    }
    assert SaneWith(m, bs, fs);
  }

  ghost predicate Agrees(bs: seq<Block>, fs: seq<Block>) {
    forall b :: b in bs ==> (b.free <==> OnList(fs, b.addr))
  }

  /** `check_sanity`: on any header memory it terminates and decides `Sane`. */
  method CheckSanity(m: Segment) returns (r: bool)
    requires m.Mapped()
    ensures r <==> Sane(m)
  {
    if m.base == 0 || m.size == 0 || m.first == 0 {
      return false;
    }
    var listOk := IsValidFreeList(m);
    if !listOk {
      if Sane(m) {
        ghost var bs, fs :| SaneWith(m, bs, fs);
        SaneListed(m, bs, fs);
      }
      return false;
    }
    ghost var fs :| ValidFreeList(m, fs);
    ListedWithinLimit(m, fs);
    r := ChainAgrees(m, fs);
  }

  /** The loop of `check_sanity` over the physical chain. */
  method ChainAgrees(m: Segment, ghost fs: seq<Block>) returns (r: bool)
    requires m.Mapped() && m.size != 0 && ValidFreeList(m, fs) && |fs| <= m.MaxBlocks()
    ensures r <==> Sane(m)
  {
    var current, visited := m.first, 0;
    ghost var seen: seq<Block> := [];
    if Sane(m) { SaneReaches(m); }
    while current < m.End()
      invariant m.first <= current <= m.End() && 0 <= HEADER_SIZE * visited <= current - m.first
      invariant Chain(m, m.first, current, seen)
      invariant Agrees(seen, fs)
      invariant Sane(m) ==> Reach(m, current, m.End())
      decreases m.End() - current
    {
      ChainAligned(m, m.first, current, seen);
      ReachStep(m, current, m.End());
      var size := m.Size(current);
      if current % ALIGNMENT != 0 || size < HEADER_SIZE || size % ALIGNMENT != 0 {
        return false;
      }
      var next := Wrap(current + size);
      ReachStep(m, current + size, m.End());
      if next <= current || next > m.End() {
        return false;
      }
      var listed := IsInFreeList(m, current);
      assert Reach(m, m.first, current);
      if Sane(m) { SaneFlagAt(m, fs, current); }
      if m.Free(current) != listed {
        return false;
      }
      ReachSnoc(m, m.first, current, seen);
      seen := seen + [BlockAt(m, current)];
      current := next;
      visited := visited + 1;
      if visited > m.MaxBlocks() {
        return false;
      }
    }
    SaneIntro(m, seen, fs);
    return true;
  }
}
