/** The two walks over the headers: the physical chain reads sizes and free
    flags only, the free list reads links only. */
module Chains {
  import opened Segments

  /** One block of the heap: where it starts, how many bytes, and whether it is free. */
  datatype Block = Block(addr: int, size: int, free: bool)
  {
    function End(): int { addr + size }
  }

  // ---------------------------------------------------------------- chain

  /** The blocks `bs` lie one after another from `a` to `end`, as the headers say. */
  ghost predicate Chain(m: Segment, a: int, end: int, bs: seq<Block>)
    decreases |bs|
  {
    if bs == [] then a == end
    else
      && bs[0] == Block(a, m.Size(a), m.Free(a))
      && HEADER_SIZE <= bs[0].size
      && bs[0].size % ALIGNMENT == 0
      && Chain(m, a + bs[0].size, end, bs[1..])
  }

  /** The address reached from `a` behind the blocks `bs`. */
  ghost function After(a: int, bs: seq<Block>): int
    decreases |bs|
  {
    if bs == [] then a else After(a + bs[0].size, bs[1..])
  }

  lemma {:induction false} ChainSplit(m: Segment, a: int, end: int, xs: seq<Block>, ys: seq<Block>)
    ensures Chain(m, a, end, xs + ys) <==> Chain(m, a, After(a, xs), xs) && Chain(m, After(a, xs), end, ys)
    decreases |xs|
  {
    if xs == [] {
      assert xs + ys == ys;
    } else {
      assert (xs + ys)[0] == xs[0] && (xs + ys)[1..] == xs[1..] + ys;
      ChainSplit(m, a + xs[0].size, end, xs[1..], ys);
    }
  }

  lemma {:induction false} AfterConcat(a: int, xs: seq<Block>, ys: seq<Block>)
    ensures After(a, xs + ys) == After(After(a, xs), ys)
    decreases |xs|
  {
    if xs == [] {
      assert xs + ys == ys;
    } else {
      assert (xs + ys)[0] == xs[0] && (xs + ys)[1..] == xs[1..] + ys;
      AfterConcat(a + xs[0].size, xs[1..], ys);
    }
  }

  lemma {:induction false} ChainBounds(m: Segment, a: int, end: int, bs: seq<Block>)
    requires Chain(m, a, end, bs)
    ensures a <= end && end == After(a, bs)
    ensures HEADER_SIZE * |bs| <= end - a
    ensures forall b :: b in bs ==> a <= b.addr && HEADER_SIZE <= b.size && b.End() <= end
    ensures forall b :: b in bs ==> b == Block(b.addr, m.Size(b.addr), m.Free(b.addr))
    decreases |bs|
  {
    if bs != [] {
      ChainBounds(m, a + bs[0].size, end, bs[1..]);
      assert bs == [bs[0]] + bs[1..];
    }
  }

  /** Every block of a chain that starts aligned is aligned, and so is its size. */
  lemma {:induction false} ChainAligned(m: Segment, a: int, end: int, bs: seq<Block>)
    requires Chain(m, a, end, bs) && a % ALIGNMENT == 0
    ensures end % ALIGNMENT == 0
    ensures forall b :: b in bs ==> b.addr % ALIGNMENT == 0 && b.size % ALIGNMENT == 0
    decreases |bs|
  {
    if bs != [] {
      var b := bs[0];
      assert (a + b.size) % ALIGNMENT == 0;
      ChainAligned(m, a + b.size, end, bs[1..]);
      assert bs == [b] + bs[1..];
    }
  }

  /** The headers determine the chain. */
  lemma {:induction false} ChainUnique(m: Segment, a: int, end: int, xs: seq<Block>, ys: seq<Block>)
    requires Chain(m, a, end, xs) && Chain(m, a, end, ys)
    ensures xs == ys
    decreases |xs|
  {
    ChainBounds(m, a, end, xs);
    ChainBounds(m, a, end, ys);
    if xs != [] && ys != [] {
      ChainUnique(m, a + xs[0].size, end, xs[1..], ys[1..]);
      assert xs == [xs[0]] + xs[1..] && ys == [ys[0]] + ys[1..];
    }
  }

  /** `m'` has the sizes and flags of `m` at the blocks `bs`. */
  ghost predicate SameBlocks(m: Segment, m': Segment, bs: seq<Block>) {
    forall b :: b in bs ==> m'.Size(b.addr) == m.Size(b.addr) && m'.Free(b.addr) == m.Free(b.addr)
  }

  lemma {:induction false} ChainFrame(m: Segment, m': Segment, a: int, end: int, bs: seq<Block>)
    requires Chain(m, a, end, bs) && SameBlocks(m, m', bs)
    ensures Chain(m', a, end, bs)
    decreases |bs|
  {
    if bs != [] {
      ChainFrame(m, m', a + bs[0].size, end, bs[1..]);
    }
  }

  /** In `pre + mid + post` the parts lie in disjoint address ranges. */
  lemma ChainParts(m: Segment, a: int, end: int, pre: seq<Block>, mid: seq<Block>, post: seq<Block>)
    requires Chain(m, a, end, pre + mid + post)
    ensures Chain(m, a, After(a, pre), pre)
    ensures Chain(m, After(a, pre), After(After(a, pre), mid), mid)
    ensures Chain(m, After(After(a, pre), mid), end, post)
    ensures a <= After(a, pre) <= After(After(a, pre), mid) <= end
    ensures forall b :: b in pre ==> a <= b.addr && b.addr + HEADER_SIZE <= b.End() <= After(a, pre)
    ensures forall b :: b in mid ==>
              After(a, pre) <= b.addr && b.addr + HEADER_SIZE <= b.End() <= After(After(a, pre), mid)
    ensures forall b :: b in post ==> After(After(a, pre), mid) <= b.addr && b.addr + HEADER_SIZE <= b.End() <= end
  {
    ChainSplit(m, a, end, pre + mid, post);
    AfterConcat(a, pre, mid);
    ChainSplit(m, a, After(a, pre + mid), pre, mid);
    ChainBounds(m, a, After(a, pre), pre);
    ChainBounds(m, After(a, pre), After(After(a, pre), mid), mid);
    ChainBounds(m, After(After(a, pre), mid), end, post);
  }

  /** The blocks `old` between `pre` and `post` may be rewritten in place as `mid`. */
  lemma ChainReplace(m: Segment, m': Segment, a: int, end: int,
                     pre: seq<Block>, cut: seq<Block>, mid: seq<Block>, post: seq<Block>)
    requires Chain(m, a, end, pre + cut + post)
    requires SameBlocks(m, m', pre) && SameBlocks(m, m', post)
    requires Chain(m', After(a, pre), After(After(a, pre), cut), mid)
    ensures Chain(m', a, end, pre + mid + post)
  {
    ChainParts(m, a, end, pre, cut, post);
    ChainFrame(m, m', a, After(a, pre), pre);
    ChainFrame(m, m', After(After(a, pre), cut), end, post);
    ChainBounds(m', After(a, pre), After(After(a, pre), cut), mid);
    ChainSplit(m', a, After(a, pre + mid), pre, mid);
    AfterConcat(a, pre, mid);
    ChainSplit(m', a, end, pre + mid, post);
  }

  /** Two blocks of one chain that start at the same address are the same block. */
  lemma {:induction false} ChainAddrs(m: Segment, a: int, end: int, bs: seq<Block>)
    requires Chain(m, a, end, bs)
    ensures forall i, j :: 0 <= i < j < |bs| ==> bs[i].End() <= bs[j].addr
    ensures forall b, c :: b in bs && c in bs && b.addr == c.addr ==> b == c
    decreases |bs|
  {
    if bs != [] {
      var rest := bs[1..];
      ChainAddrs(m, a + bs[0].size, end, rest);
      ChainBounds(m, a, end, bs);
      ChainBounds(m, a + bs[0].size, end, rest);
      forall i, j | 0 <= i < j < |bs| ensures bs[i].End() <= bs[j].addr {
        assert bs[j] == rest[j - 1] && rest[j - 1] in rest;
        if i > 0 { assert bs[i] == rest[i - 1]; }
      }
      OrderedAddrs(bs);
    }
  }

  lemma OrderedAddrs(bs: seq<Block>)
    requires forall i, j :: 0 <= i < j < |bs| ==> bs[i].End() <= bs[j].addr
    requires forall b :: b in bs ==> HEADER_SIZE <= b.size
    ensures forall b, c :: b in bs && c in bs && b.addr == c.addr ==> b == c
  {
    forall b, c | b in bs && c in bs && b.addr == c.addr ensures b == c {
      var i :| 0 <= i < |bs| && bs[i] == b;
      var j :| 0 <= j < |bs| && bs[j] == c;
      assert i < j ==> b.End() <= c.addr;
      assert j < i ==> c.End() <= b.addr;
    }
  }

  // ---------------------------------------------------------------- free list

  ghost function HeadAddr(fs: seq<Block>): int {
    if fs == [] then 0 else fs[0].addr
  }

  /** Following the links from `p` visits exactly the addresses of `fs` and arrives at `q`. */
  ghost predicate List(m: Segment, p: int, q: int, fs: seq<Block>)
    decreases |fs|
  {
    if fs == [] then p == q
    else p != 0 && fs[0].addr == p && List(m, m.Next(p), q, fs[1..])
  }

  lemma ListHead(m: Segment, p: int, fs: seq<Block>)
    requires List(m, p, 0, fs)
    ensures p == HeadAddr(fs)
  {
  }

  lemma {:induction false} ListConcat(m: Segment, p: int, r: int, q: int, xs: seq<Block>, ys: seq<Block>)
    requires List(m, p, r, xs) && List(m, r, q, ys)
    ensures List(m, p, q, xs + ys)
    decreases |xs|
  {
    if xs == [] {
      assert xs + ys == ys;
    } else {
      assert (xs + ys)[0] == xs[0] && (xs + ys)[1..] == xs[1..] + ys;
      ListConcat(m, m.Next(p), r, q, xs[1..], ys);
    }
  }

  lemma {:induction false} ListSplit(m: Segment, p: int, xs: seq<Block>, ys: seq<Block>)
    requires List(m, p, 0, xs + ys)
    ensures List(m, p, HeadAddr(ys), xs) && List(m, HeadAddr(ys), 0, ys)
    decreases |xs|
  {
    if xs == [] {
      assert xs + ys == ys;
    } else {
      assert (xs + ys)[0] == xs[0] && (xs + ys)[1..] == xs[1..] + ys;
      ListSplit(m, m.Next(p), xs[1..], ys);
    }
  }

  ghost predicate SameLinks(m: Segment, m': Segment, fs: seq<Block>) {
    forall b :: b in fs ==> m'.Next(b.addr) == m.Next(b.addr)
  }

  lemma {:induction false} ListFrame(m: Segment, m': Segment, p: int, q: int, fs: seq<Block>)
    requires List(m, p, q, fs) && SameLinks(m, m', fs)
    ensures List(m', p, q, fs)
    decreases |fs|
  {
    if fs != [] {
      ListFrame(m, m', m.Next(p), q, fs[1..]);
    }
  }

  /** A walk from `p` that has seen `xs` is a prefix of the complete walk `ys`. */
  lemma {:induction false} ListPrefix(m: Segment, p: int, q: int, xs: seq<Block>, ys: seq<Block>)
    requires List(m, p, q, xs) && List(m, p, 0, ys)
    ensures |xs| <= |ys| && List(m, q, 0, ys[|xs|..])
    ensures forall i :: 0 <= i < |xs| ==> xs[i].addr == ys[i].addr
    decreases |xs|
  {
    if xs == [] {
      assert ys[0..] == ys;
    } else {
      ListPrefix(m, m.Next(p), q, xs[1..], ys[1..]);
      assert ys[1..][|xs[1..]|..] == ys[|xs|..];
      forall i | 0 <= i < |xs| ensures xs[i].addr == ys[i].addr {
        if i > 0 { assert xs[i] == xs[1..][i - 1] && ys[i] == ys[1..][i - 1]; }
      }
    }
  }

  /** The links determine the list, address by address. */
  lemma ListUnique(m: Segment, p: int, xs: seq<Block>, ys: seq<Block>)
    requires List(m, p, 0, xs) && List(m, p, 0, ys)
    ensures |xs| == |ys|
    ensures forall i :: 0 <= i < |xs| ==> xs[i].addr == ys[i].addr
  {
    ListPrefix(m, p, 0, xs, ys);
  }

  ghost predicate DistinctAddrs(fs: seq<Block>) {
    forall i, j :: 0 <= i < j < |fs| ==> fs[i].addr != fs[j].addr
  }

  /** A list that ends is acyclic: no address occurs twice on it. */
  lemma ListAcyclic(m: Segment, p: int, fs: seq<Block>)
    requires List(m, p, 0, fs)
    ensures DistinctAddrs(fs)
  {
    hide List;
    forall i, j | 0 <= i < j < |fs| ensures fs[i].addr != fs[j].addr {
      ListRest(m, p, fs, i);
      ListRest(m, p, fs, j);
      if fs[i].addr == fs[j].addr {
        ListUnique(m, fs[i].addr, fs[i..], fs[j..]);
      }
    }
  }

  /** The rest of a list is the list from there. */
  lemma ListRest(m: Segment, p: int, fs: seq<Block>, i: nat)
    requires List(m, p, 0, fs) && i < |fs|
    ensures List(m, fs[i].addr, 0, fs[i..])
  {
    hide List;
    assert fs == fs[..i] + fs[i..];
    ListSplit(m, p, fs[..i], fs[i..]);
  }

  /** The store that makes the element in front of `xs`'s successor point to `r`. */
  ghost function Link(xs: seq<Block>, r: int): Store {
    if xs == [] then SetHead(r) else SetNext(xs[|xs| - 1].addr, r)
  }

  /** Redirecting the last link of `xs` keeps the walk over `xs` and ends it at `r`. */
  lemma {:induction false} ListRetarget(m: Segment, p: int, q: int, r: int, xs: seq<Block>)
    requires xs != [] && List(m, p, q, xs) && DistinctAddrs(xs)
    ensures List(Apply(m, Link(xs, r)), p, r, xs)
    decreases |xs|
  {
    var m' := Apply(m, Link(xs, r));
    if |xs| == 1 {
      assert xs[1..] == [];
    } else {
      assert xs[1..][|xs| - 2] == xs[|xs| - 1];
      assert Link(xs[1..], r) == Link(xs, r);
      assert forall i, j :: 0 <= i < j < |xs[1..]| ==> xs[1..][i] == xs[i + 1] && xs[1..][j] == xs[j + 1];
      ListRetarget(m, m.Next(p), q, r, xs[1..]);
      assert xs[0].addr != xs[|xs| - 1].addr;
      assert m'.Next(p) == m.Next(p);
    }
  }

  /** From head: cut whatever follows `xs` and continue at `r` with `ys`. */
  lemma Relink(m: Segment, q: int, r: int, xs: seq<Block>, ys: seq<Block>)
    requires List(m, m.head, q, xs) && List(m, r, 0, ys) && DistinctAddrs(xs + ys)
    ensures var m' := Apply(m, Link(xs, r)); List(m', m'.head, 0, xs + ys)
  {
    var m' := Apply(m, Link(xs, r));
    if xs == [] {
      ListFrame(m, m', r, 0, ys);
      assert xs + ys == ys;
    } else {
      assert forall i :: 0 <= i < |xs| ==> (xs + ys)[i] == xs[i];
      ListRetarget(m, m.head, q, r, xs);
      forall b | b in ys ensures b.addr != xs[|xs| - 1].addr {
        var j :| 0 <= j < |ys| && ys[j] == b;
        assert (xs + ys)[|xs| + j] == b && (xs + ys)[|xs| - 1] == xs[|xs| - 1];
      }
      ListFrame(m, m', r, 0, ys);
      ListConcat(m', m'.head, r, 0, xs, ys);
    }
  }

  lemma DistinctRemove(xs: seq<Block>, t: Block, ys: seq<Block>)
    requires DistinctAddrs(xs + ([t] + ys))
    ensures DistinctAddrs(xs + ys)
    ensures forall b :: b in xs || b in ys ==> b.addr != t.addr
  {
    var r, w := xs + ys, xs + ([t] + ys);
    assert forall j :: 0 <= j < |r| ==> r[j] == w[if j < |xs| then j else j + 1];
    assert w[|xs|] == t;
    assert forall j :: 0 <= j < |xs| ==> w[j] == xs[j];
    assert forall j :: 0 <= j < |ys| ==> w[|xs| + 1 + j] == ys[j];
  }

  lemma DistinctInsert(xs: seq<Block>, t: Block, ys: seq<Block>)
    requires DistinctAddrs(xs + ys)
    requires forall b :: b in xs || b in ys ==> b.addr != t.addr
    ensures DistinctAddrs(xs + ([t] + ys))
  {
    var r, w := xs + ys, xs + ([t] + ys);
    assert forall j :: 0 <= j < |xs| ==> w[j] == xs[j] && w[j] == r[j];
    assert forall j :: |xs| < j < |w| ==> w[j] == ys[j - |xs| - 1] && w[j] == r[j - 1];
  }

  /** Linking past `t` takes exactly `t` off the list. */
  lemma ListRemove(m: Segment, xs: seq<Block>, t: Block, ys: seq<Block>)
    requires List(m, m.head, 0, xs + ([t] + ys))
    ensures var m' := Apply(m, Link(xs, HeadAddr(ys))); List(m', m'.head, 0, xs + ys)
    ensures forall b :: b in xs || b in ys ==> b.addr != t.addr
  {
    ListAcyclic(m, m.head, xs + ([t] + ys));
    DistinctRemove(xs, t, ys);
    ListSplit(m, m.head, xs, [t] + ys);
    assert ([t] + ys)[1..] == ys;
    ListSplit(m, t.addr, [t], ys);
    Relink(m, t.addr, HeadAddr(ys), xs, ys);
  }

  /** Linking to `b`, which already points to the rest, puts exactly `b` on the list. */
  lemma ListInsert(m: Segment, xs: seq<Block>, b: Block, ys: seq<Block>)
    requires List(m, m.head, 0, xs + ys) && b.addr != 0 && m.Next(b.addr) == HeadAddr(ys)
    requires forall x :: x in xs || x in ys ==> x.addr != b.addr
    ensures var m' := Apply(m, Link(xs, b.addr)); List(m', m'.head, 0, xs + ([b] + ys))
  {
    ListAcyclic(m, m.head, xs + ys);
    DistinctInsert(xs, b, ys);
    ListSplit(m, m.head, xs, ys);
    assert ([b] + ys)[1..] == ys;
    Relink(m, HeadAddr(ys), b.addr, xs, [b] + ys);
  }
}
