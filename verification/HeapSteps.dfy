/** The allocator's operations as lists of single stores. A crash can fall between
    any two of them, so each phase also says which heaps are shown in between. */
module HeapSteps {
  import opened Segments
  import opened Chains
  import opened Sanity
  import opened Heaps

  /** A chain together with a free list. */
  datatype View = View(blocks: seq<Block>, frees: seq<Block>)

  /** If the self-check accepts the headers, they are one of the allowed heaps. */
  ghost predicate Recoverable(m: Segment, allowed: set<View>) {
    Sane(m) ==> exists v :: v in allowed && Heap(m, v.blocks, v.frees)
  }

  /** Every state from which a store of `ss` is still to come is recoverable. */
  ghost predicate Always(m: Segment, ss: seq<Store>, allowed: set<View>)
    decreases |ss|
  {
    ss != [] ==> Recoverable(m, allowed) && Always(Apply(m, ss[0]), ss[1..], allowed)
  }

  /** A death after any number of the stores leaves a recoverable segment. */
  lemma {:induction false} AlwaysAt(m: Segment, ss: seq<Store>, allowed: set<View>, k: nat)
    requires Always(m, ss, allowed) && k < |ss|
    ensures Recoverable(ApplyAll(m, ss[..k]), allowed)
    decreases k
  {
    if k > 0 {
      assert ss[..k][0] == ss[0] && ss[..k][1..] == ss[1..][..k - 1];
      AlwaysAt(Apply(m, ss[0]), ss[1..], allowed, k - 1);
    }
  }

  lemma {:induction false} AlwaysConcat(m: Segment, ss: seq<Store>, tt: seq<Store>, allowed: set<View>)
    requires Always(m, ss, allowed) && Always(ApplyAll(m, ss), tt, allowed)
    ensures Always(m, ss + tt, allowed)
    ensures ApplyAll(m, ss + tt) == ApplyAll(ApplyAll(m, ss), tt)
    decreases |ss|
  {
    if ss == [] {
      assert ss + tt == tt;
    } else {
      assert (ss + tt)[0] == ss[0] && (ss + tt)[1..] == ss[1..] + tt;
      AlwaysConcat(Apply(m, ss[0]), ss[1..], tt, allowed);
    }
  }

  lemma AlwaysSnoc(m: Segment, ss: seq<Store>, s: Store, allowed: set<View>)
    requires Always(m, ss, allowed) && Recoverable(ApplyAll(m, ss), allowed)
    ensures Always(m, ss + [s], allowed)
    ensures ApplyAll(m, ss + [s]) == Apply(ApplyAll(m, ss), s)
  {
    assert [s][1..] == [];
    AlwaysConcat(m, ss, [s], allowed);
    ApplyOne(ApplyAll(m, ss), s);
  }

  lemma {:induction false} AlwaysWiden(m: Segment, ss: seq<Store>, allowed: set<View>, more: set<View>)
    requires Always(m, ss, allowed) && allowed <= more
    ensures Always(m, ss, more)
    decreases |ss|
  {
    if ss != [] {
      AlwaysWiden(Apply(m, ss[0]), ss[1..], allowed, more);
    }
  }

  /** Some block is marked free and yet missing from the free list. */
  ghost predicate Torn(v: View) {
    exists b :: b in v.blocks && b.free && !OnList(v.frees, b.addr)
  }

  /** A chain and free list that recovery either rejects or may keep. */
  ghost predicate Tolerated(v: View, allowed: set<View>) {
    Torn(v) || (v in allowed && WellFormed(v.blocks, v.frees))
  }

  lemma ToleratedRecovers(m: Segment, v: View, allowed: set<View>)
    requires Shape(m, v.blocks, v.frees) && Tolerated(v, allowed)
    ensures Recoverable(m, allowed)
  {
    if Torn(v) {
      var b :| b in v.blocks && b.free && !OnList(v.frees, b.addr);
      if Sane(m) {
        SaneFlags(m, v.blocks, v.frees, b);
      }
    } else {
      assert Heap(m, v.blocks, v.frees);
    }
  }

  // ---------------------------------------------------------------- one store

  /** The same segment in the same place, with the same allocation headers. */
  ghost predicate SamePlace(m: Segment, m': Segment) {
    m'.base == m.base && m'.first == m.first && m'.allocations == m.allocations
  }

  /** `m'` differs from `m` in links only. */
  ghost predicate LinksOnly(m: Segment, m': Segment) {
    && m'.base == m.base && m'.first == m.first && m'.size == m.size
    && m'.allocations == m.allocations
    && forall a :: m'.Size(a) == m.Size(a) && m'.Free(a) == m.Free(a)
  }

  ghost predicate LinkStore(s: Store) { s.SetNext? || s.SetHead? }

  lemma LinkKeepsChain(m: Segment, s: Store, bs: seq<Block>)
    requires LinkStore(s)
    requires Chain(m, m.first, m.End(), bs)
    ensures var m' := Apply(m, s); LinksOnly(m, m') && Chain(m', m.first, m'.End(), bs)
  {
    ChainFrame(m, Apply(m, s), m.first, m.End(), bs);
  }

  lemma NextKeepsShape(m: Segment, bs: seq<Block>, fs: seq<Block>, a: int, v: int)
    requires Shape(m, bs, fs) && !OnList(fs, a)
    ensures Shape(Apply(m, SetNext(a, v)), bs, fs) && LinksOnly(m, Apply(m, SetNext(a, v)))
  {
    var m' := Apply(m, SetNext(a, v));
    LinkKeepsChain(m, SetNext(a, v), bs);
    forall b | b in fs ensures m'.Next(b.addr) == m.Next(b.addr) {
      var i :| 0 <= i < |fs| && fs[i] == b;
    }
    ListFrame(m, m', m.head, 0, fs);
  }

  /** A store into an allocation header shows neither in the chain nor in the list. */
  lemma PayloadKeepsShape(m: Segment, bs: seq<Block>, fs: seq<Block>, s: Store)
    requires Shape(m, bs, fs) && (s.SetBlock? || s.SetRequested?)
    ensures Shape(Apply(m, s), bs, fs) && Apply(m, s).headers == m.headers
  {
    var m' := Apply(m, s);
    ChainFrame(m, m', m.first, m.End(), bs);
    ListFrame(m, m', m.head, 0, fs);
  }

  /** A store of a size or a flag at an address that starts no block of the chain. */
  lemma OutsideKeepsShape(m: Segment, bs: seq<Block>, fs: seq<Block>, s: Store)
    requires Shape(m, bs, fs) && (s.SetSize? || s.SetFree?)
    requires forall b :: b in bs ==> b.addr != s.a
    ensures Shape(Apply(m, s), bs, fs)
  {
    var m' := Apply(m, s);
    ChainFrame(m, m', m.first, m.End(), bs);
    ListFrame(m, m', m.head, 0, fs);
  }

  /** Sizes and flags inside the middle part may be rewritten if the middle still fits. */
  lemma MiddleShape(m: Segment, pre: seq<Block>, was: seq<Block>, mid: seq<Block>, post: seq<Block>,
                    fs: seq<Block>, s: Store)
    requires Shape(m, pre + was + post, fs) && (s.SetSize? || s.SetFree?)
    requires After(m.first, pre) <= s.a < After(After(m.first, pre), was)
    requires Chain(Apply(m, s), After(m.first, pre), After(After(m.first, pre), was), mid)
    ensures Shape(Apply(m, s), pre + mid + post, fs)
  {
    hide Chain, List;
    var m' := Apply(m, s);
    ChainParts(m, m.first, m.End(), pre, was, post);
    ChainReplace(m, m', m.first, m.End(), pre, was, mid, post);
    ListFrame(m, m', m.head, 0, fs);
  }

  // ---------------------------------------------------------------- free-list phases

  /** `remove_free_block`. */
  ghost function RemoveStores(fs: seq<Block>, t: Block): seq<Store>
    requires t in fs
  {
    var i := IndexOf(fs, t);
    [Link(fs[..i], HeadAddr(fs[i + 1..])), SetNext(t.addr, 0)]
  }

  /** The two stores at the end of `insert_free_block`. */
  ghost function InsertStores(fs: seq<Block>, b: Block): seq<Store> {
    var k := InsertPos(fs, b);
    [SetNext(b.addr, HeadAddr(fs[k..])), Link(fs[..k], b.addr)]
  }

  lemma {:induction false} TwoStores(m: Segment, s: Store, t: Store, allowed: set<View>)
    ensures ApplyAll(m, [s, t]) == Apply(Apply(m, s), t)
    ensures Recoverable(m, allowed) && Recoverable(Apply(m, s), allowed) ==> Always(m, [s, t], allowed)
  {
    assert [s, t][1..] == [t] && [t][1..] == [];
    ApplyOne(Apply(m, s), t);
  }

  /** The first store of a removal takes the block off the list. */
  lemma UnlinkShape(m: Segment, bs: seq<Block>, fs: seq<Block>, t: Block)
    requires Shape(m, bs, fs) && t in fs
    ensures var m1 := Apply(m, RemoveStores(fs, t)[0]);
            Shape(m1, bs, Without(fs, t)) && LinksOnly(m, m1)
    ensures !OnList(Without(fs, t), t.addr)
  {
    hide Chain, List;
    var i := IndexOf(fs, t);
    var xs, ys := fs[..i], fs[i + 1..];
    assert fs == xs + ([t] + ys);
    ListRemove(m, xs, t, ys);
    assert Without(fs, t) == xs + ys;
    LinkKeepsChain(m, RemoveStores(fs, t)[0], bs);
  }

  lemma RemovePhase(m: Segment, bs: seq<Block>, fs: seq<Block>, t: Block, allowed: set<View>)
    requires Shape(m, bs, fs) && t in fs && t in bs && t.free
    requires Recoverable(m, allowed)
    ensures var m' := ApplyAll(m, RemoveStores(fs, t));
            Always(m, RemoveStores(fs, t), allowed) && Shape(m', bs, Without(fs, t)) && LinksOnly(m, m')
    ensures !OnList(Without(fs, t), t.addr)
  {
    var ss := RemoveStores(fs, t);
    var m1 := Apply(m, ss[0]);
    UnlinkShape(m, bs, fs, t);
    assert Torn(View(bs, Without(fs, t)));
    ToleratedRecovers(m1, View(bs, Without(fs, t)), allowed);
    NextKeepsShape(m1, bs, Without(fs, t), t.addr, 0);
    TwoStores(m, ss[0], ss[1], allowed);
  }

  lemma InsertShapeAt(m: Segment, bs: seq<Block>, xs: seq<Block>, ys: seq<Block>, b: Block)
    requires Shape(m, bs, xs + ys) && !OnList(xs + ys, b.addr) && b.addr != 0
    ensures var m1 := Apply(m, SetNext(b.addr, HeadAddr(ys))); Shape(m1, bs, xs + ys) && LinksOnly(m, m1)
    ensures var m2 := Apply(Apply(m, SetNext(b.addr, HeadAddr(ys))), Link(xs, b.addr));
            Shape(m2, bs, xs + ([b] + ys)) && LinksOnly(m, m2)
  {
    var m1 := Apply(m, SetNext(b.addr, HeadAddr(ys)));
    NextKeepsShape(m, bs, xs + ys, b.addr, HeadAddr(ys));
    forall x | x in xs || x in ys ensures x.addr != b.addr {
      assert x in xs + ys;
      var j :| 0 <= j < |xs + ys| && (xs + ys)[j] == x;
    }
    ListInsert(m1, xs, b, ys);
    LinkKeepsChain(m1, Link(xs, b.addr), bs);
  }

  lemma InsertShape(m: Segment, bs: seq<Block>, fs: seq<Block>, b: Block)
    requires Shape(m, bs, fs) && !OnList(fs, b.addr) && b.addr != 0
    ensures var m1 := Apply(m, InsertStores(fs, b)[0]); Shape(m1, bs, fs) && LinksOnly(m, m1)
    ensures var m2 := Apply(Apply(m, InsertStores(fs, b)[0]), InsertStores(fs, b)[1]);
            Shape(m2, bs, Inserted(fs, b)) && LinksOnly(m, m2)
  {
    var k := InsertPos(fs, b);
    assert fs == fs[..k] + fs[k..];
    assert Inserted(fs, b) == fs[..k] + ([b] + fs[k..]);
    InsertShapeAt(m, bs, fs[..k], fs[k..], b);
  }

  lemma InsertPhase(m: Segment, bs: seq<Block>, fs: seq<Block>, b: Block, allowed: set<View>)
    requires Shape(m, bs, fs) && b in bs && b.free && !OnList(fs, b.addr) && b.addr != 0
    ensures var m' := ApplyAll(m, InsertStores(fs, b));
            Always(m, InsertStores(fs, b), allowed) && Shape(m', bs, Inserted(fs, b)) && LinksOnly(m, m')
  {
    var ss := InsertStores(fs, b);
    InsertShape(m, bs, fs, b);
    assert Torn(View(bs, fs));
    ToleratedRecovers(m, View(bs, fs), allowed);
    ToleratedRecovers(Apply(m, ss[0]), View(bs, fs), allowed);
    TwoStores(m, ss[0], ss[1], allowed);
  }

  // ---------------------------------------------------------------- splitting

  /** `split_allocated_block` on a block of `size` bytes at `a`, with the free list `fs`. */
  ghost function SplitStores(fs: seq<Block>, a: int, size: int, used: int): seq<Store> {
    var rest := size - used;
    if rest < MIN_BLOCK then []
    else HeaderStores(a, size, used) + InsertStores(fs, Block(a + used, rest, true))
  }

  /** The stores that write the new header and cut the old block. */
  ghost function HeaderStores(a: int, size: int, used: int): seq<Store> {
    [SetSize(a + used, Wrap(size - used)), SetFree(a + used, true), SetNext(a + used, 0), SetSize(a, Wrap(used))]
  }

  ghost function SplitBlocks(b: Block, used: int): seq<Block> {
    if b.size - used < MIN_BLOCK then [b]
    else [b.(size := used), Block(b.addr + used, b.size - used, true)]
  }

  ghost function SplitFrees(fs: seq<Block>, b: Block, used: int): seq<Block> {
    if b.size - used < MIN_BLOCK then fs
    else Inserted(fs, Block(b.addr + used, b.size - used, true))
  }

  lemma {:induction false} FourStores(m: Segment, s: Store, t: Store, u: Store, v: Store, allowed: set<View>)
    ensures ApplyAll(m, [s, t, u, v]) == Apply(Apply(Apply(Apply(m, s), t), u), v)
    ensures Recoverable(m, allowed) && Recoverable(Apply(m, s), allowed)
            && Recoverable(Apply(Apply(m, s), t), allowed)
            && Recoverable(Apply(Apply(Apply(m, s), t), u), allowed)
            ==> Always(m, [s, t, u, v], allowed)
  {
    assert [s, t, u, v] == [s, t] + [u, v];
    TwoStores(m, s, t, allowed);
    TwoStores(ApplyAll(m, [s, t]), u, v, allowed);
    ApplyConcat(m, [s, t], [u, v]);
    if Always(m, [s, t], allowed) && Always(ApplyAll(m, [s, t]), [u, v], allowed) {
      AlwaysConcat(m, [s, t], [u, v], allowed);
    }
  }

  /** An address strictly inside a block starts no block of the chain. */
  lemma InsideBlock(m: Segment, a: int, end: int, pre: seq<Block>, b: Block, post: seq<Block>, x: int)
    requires Chain(m, a, end, pre + [b] + post) && b.addr < x < b.End()
    ensures After(a, pre) == b.addr && After(b.addr, [b]) == b.End()
    ensures forall c :: c in pre + [b] + post ==> c.addr != x
  {
    ChainParts(m, a, end, pre, [b], post);
    assert [b][1..] == [];
  }

  /** The free list names blocks of the chain only. */
  ghost predicate Within(bs: seq<Block>, fs: seq<Block>) {
    forall i :: 0 <= i < |fs| ==> fs[i] in bs
  }

  /** The new header is prepared inside the old block, and then shown by one store. */
  lemma SplitHeader(m: Segment, pre: seq<Block>, b: Block, post: seq<Block>, fs: seq<Block>, used: int,
                    allowed: set<View>)
    requires Shape(m, pre + [b] + post, fs) && Tolerated(View(pre + [b] + post, fs), allowed)
    requires Within(pre + [b] + post, fs)
    requires HEADER_SIZE <= used && used % ALIGNMENT == 0 && b.size - used >= MIN_BLOCK
    ensures var ss := HeaderStores(b.addr, b.size, used);
            var m' := ApplyAll(m, ss);
            && Always(m, ss, allowed)
            && Shape(m', pre + SplitBlocks(b, used) + post, fs)
            && m'.allocations == m.allocations
            && m'.base == m.base && m'.first == m.first && m'.size == m.size
    ensures !OnList(fs, b.addr + used)
  {
    hide List, Tolerated;
    var bs, x := pre + [b] + post, b.addr + used;
    InsideBlock(m, m.first, m.End(), pre, b, post, x);
    PrepareHeader(m, bs, fs, x, b.size - used, SetSize(b.addr, Wrap(used)), allowed);
    var m3 := Apply(Apply(Apply(m, SetSize(x, Wrap(b.size - used))), SetFree(x, true)), SetNext(x, 0));
    assert b == BlockAt(m3, b.addr) && b.size % ALIGNMENT == 0 by {
      ChainParts(m3, m3.first, m3.End(), pre, [b], post);
    }
    SplitChain(m3, b, used);
    MiddleShape(m3, pre, [b], SplitBlocks(b, used), post, fs, SetSize(b.addr, Wrap(used)));
  }

  /** Stores at an address that starts no block of the chain stay invisible. */
  lemma PrepareHeader(m: Segment, bs: seq<Block>, fs: seq<Block>, x: int, rest: int, last: Store,
                      allowed: set<View>)
    requires Shape(m, bs, fs) && Tolerated(View(bs, fs), allowed)
    requires Within(bs, fs) && forall c :: c in bs ==> c.addr != x
    ensures !OnList(fs, x)
    ensures var s0, s1, s2 := SetSize(x, Wrap(rest)), SetFree(x, true), SetNext(x, 0);
            var m3 := Apply(Apply(Apply(m, s0), s1), s2);
            && Shape(m3, bs, fs) && Always(m, [s0, s1, s2, last], allowed)
            && ApplyAll(m, [s0, s1, s2, last]) == Apply(m3, last)
  {
    var s0, s1, s2 := SetSize(x, Wrap(rest)), SetFree(x, true), SetNext(x, 0);
    var m1 := Apply(m, s0);
    var m2 := Apply(m1, s1);
    var m3 := Apply(m2, s2);
    OutsideKeepsShape(m, bs, fs, s0);
    OutsideKeepsShape(m1, bs, fs, s1);
    NextKeepsShape(m2, bs, fs, x, 0);
    ToleratedRecovers(m, View(bs, fs), allowed);
    ToleratedRecovers(m1, View(bs, fs), allowed);
    ToleratedRecovers(m2, View(bs, fs), allowed);
    ToleratedRecovers(m3, View(bs, fs), allowed);
    FourStores(m, s0, s1, s2, last, allowed);
  }

  lemma SplitChain(m: Segment, b: Block, used: int)
    requires b == BlockAt(m, b.addr) && b.size % ALIGNMENT == 0
    requires HEADER_SIZE <= used && used % ALIGNMENT == 0 && b.size - used >= MIN_BLOCK
    requires m.Size(b.addr + used) == b.size - used && m.Free(b.addr + used)
    ensures Chain(Apply(m, SetSize(b.addr, Wrap(used))), b.addr, b.End(), SplitBlocks(b, used))
  {
    var m' := Apply(m, SetSize(b.addr, Wrap(used)));
    var mid := SplitBlocks(b, used);
    assert mid[1..] == [mid[1]] && mid[1..][1..] == [];
    assert Chain(m', b.End(), b.End(), []);
    assert Chain(m', b.addr + used, b.End(), mid[1..]);
  }

  lemma SplitPhase(m: Segment, pre: seq<Block>, b: Block, post: seq<Block>, fs: seq<Block>, used: int,
                   allowed: set<View>)
    requires Shape(m, pre + [b] + post, fs) && Tolerated(View(pre + [b] + post, fs), allowed)
    requires Within(pre + [b] + post, fs)
    requires HEADER_SIZE <= used <= b.size && used % ALIGNMENT == 0
    ensures var ss := SplitStores(fs, b.addr, b.size, used);
            var m' := ApplyAll(m, ss);
            && Always(m, ss, allowed)
            && Shape(m', pre + SplitBlocks(b, used) + post, SplitFrees(fs, b, used))
            && m'.allocations == m.allocations
            && m'.base == m.base && m'.first == m.first && m'.size == m.size
  {
    hide Chain, List, InsertPos, InsertStores, Recoverable;
    if b.size - used >= MIN_BLOCK {
      var x := Block(b.addr + used, b.size - used, true);
      var ss, bs' := HeaderStores(b.addr, b.size, used), pre + SplitBlocks(b, used) + post;
      SplitHeader(m, pre, b, post, fs, used, allowed);
      assert m.first <= b.addr by { ChainParts(m, m.first, m.End(), pre, [b], post); }
      assert x in bs' by { assert SplitBlocks(b, used)[1] == x; }
      InsertPhase(ApplyAll(m, ss), bs', fs, x, allowed);
      AlwaysConcat(m, ss, InsertStores(fs, x), allowed);
      assert SplitStores(fs, b.addr, b.size, used) == ss + InsertStores(fs, x);
    }
  }
}
