/** The heap invariant: blocks tile the segment, the free list is the sorted
    sequence of the free blocks, and no two neighbours are both free. */
module Heaps {
  import opened Segments
  import opened Chains
  import opened Sanity

  /** The order of the free list: by size, then by address. */
  predicate Before(x: Block, y: Block) {
    x.size < y.size || (x.size == y.size && x.addr < y.addr)
  }

  ghost predicate Sorted(fs: seq<Block>) {
    forall i, j :: 0 <= i < j < |fs| ==> Before(fs[i], fs[j])
  }

  ghost predicate Coalesced(bs: seq<Block>) {
    forall i, j :: 0 <= i < j < |bs| && j == i + 1 ==> !(bs[i].free && bs[j].free)
  }

  ghost predicate WellFormed(bs: seq<Block>, fs: seq<Block>) {
    Exact(bs, fs) && Sorted(fs) && Coalesced(bs) && bs != []
  }

  /** The headers show the chain `bs` and the free list `fs`. */
  ghost predicate Shape(m: Segment, bs: seq<Block>, fs: seq<Block>) {
    && m.Mapped() && m.size != 0
    && Chain(m, m.first, m.End(), bs)
    && List(m, m.head, 0, fs)
  }

  /** The full heap invariant. */
  ghost predicate Heap(m: Segment, bs: seq<Block>, fs: seq<Block>) {
    Shape(m, bs, fs) && WellFormed(bs, fs)
  }

  /** A reachable heap passes the self-check, so none of its cut-offs fires. */
  lemma HeapIsSane(m: Segment, bs: seq<Block>, fs: seq<Block>)
    requires Heap(m, bs, fs)
    ensures Sane(m)
  {
    assert SaneWith(m, bs, fs);
  }

  // ---------------------------------------------------------------- sorted lists

  /** Where `insert_free_block` stops searching. */
  function InsertPos(fs: seq<Block>, b: Block): (k: nat)
    ensures k <= |fs|
    ensures forall i :: 0 <= i < k ==> Before(fs[i], b)
    ensures k < |fs| ==> !Before(fs[k], b)
  {
    if fs == [] || !Before(fs[0], b) then 0 else 1 + InsertPos(fs[1..], b)
  }

  function Inserted(fs: seq<Block>, b: Block): seq<Block> {
    var k := InsertPos(fs, b);
    fs[..k] + [b] + fs[k..]
  }

  function IndexOf(fs: seq<Block>, b: Block): (i: nat)
    requires b in fs
    ensures i < |fs| && fs[i] == b && b !in fs[..i]
  {
    if fs[0] == b then 0 else 1 + IndexOf(fs[1..], b)
  }

  function Without(fs: seq<Block>, b: Block): seq<Block>
    requires b in fs
  {
    var i := IndexOf(fs, b);
    fs[..i] + fs[i + 1..]
  }

  lemma InsertedMembers(fs: seq<Block>, b: Block)
    ensures forall x :: x in Inserted(fs, b) <==> x in fs || x == b
  {
    hide InsertPos, Before;
    var k := InsertPos(fs, b);
    SplicedMembers(fs[..k], b, fs[k..]);
    assert fs == fs[..k] + fs[k..];
  }

  lemma SplicedMembers(xs: seq<Block>, b: Block, ys: seq<Block>)
    ensures forall x :: x in xs + [b] + ys <==> x in xs + ys || x == b
  {
  }

  /** Everything behind the place of insertion comes after the new block. */
  lemma BehindInserted(fs: seq<Block>, b: Block, j: nat)
    requires Sorted(fs) && (forall x :: x in fs ==> x.addr != b.addr) && InsertPos(fs, b) <= j < |fs|
    ensures Before(b, fs[j])
  {
    hide InsertPos;
    var k := InsertPos(fs, b);
    assert fs[k] in fs && !Before(fs[k], b);
    assert k < j ==> Before(fs[k], fs[j]);
  }

  lemma InsertedSorted(fs: seq<Block>, b: Block)
    requires Sorted(fs) && forall x :: x in fs ==> x.addr != b.addr
    ensures Sorted(Inserted(fs, b))
    ensures forall x :: x in Inserted(fs, b) <==> x in fs || x == b
  {
    hide InsertPos, Before;
    InsertedMembers(fs, b);
    var k := InsertPos(fs, b);
    var r := Inserted(fs, b);
    forall i, j | 0 <= i < j < |r| ensures Before(r[i], r[j]) {
      if i == k {
        BehindInserted(fs, b, j - 1);
      } else if j != k {
        assert r[i] == fs[if i < k then i else i - 1] && r[j] == fs[if j < k then j else j - 1];
      }
    }
  }

  lemma WithoutSorted(fs: seq<Block>, b: Block)
    requires Sorted(fs) && b in fs
    ensures Sorted(Without(fs, b))
    ensures forall x :: x in Without(fs, b) <==> x in fs && x != b
  {
    var i := IndexOf(fs, b);
    assert fs == fs[..i] + [b] + fs[i + 1..];
    forall j | i < j < |fs| ensures fs[j] != b {
      assert Before(fs[i], fs[j]);
    }
  }

  lemma HeadOnce(xs: seq<Block>)
    requires Sorted(xs) && xs != []
    ensures forall b :: b in xs[1..] <==> b in xs && b != xs[0]
  {
    forall i | 0 < i < |xs| ensures xs[i] != xs[0] {
      assert Before(xs[0], xs[i]);
    }
    assert xs == [xs[0]] + xs[1..];
  }

  lemma SameEmpty(xs: seq<Block>, ys: seq<Block>)
    requires forall b :: b in xs <==> b in ys
    ensures xs == [] <==> ys == []
  {
    if xs != [] { assert xs[0] in ys; }
    if ys != [] { assert ys[0] in xs; }
  }

  /** A strictly sorted list is determined by its elements. */
  lemma {:induction false} SortedUnique(xs: seq<Block>, ys: seq<Block>)
    requires Sorted(xs) && Sorted(ys)
    requires forall b :: b in xs <==> b in ys
    ensures xs == ys
    decreases |xs|
  {
    SameEmpty(xs, ys);
    if xs != [] {
      assert xs[0] in ys && ys != [] && ys[0] in xs;
      assert xs[0] == ys[0] by {
        var i :| 0 <= i < |ys| && ys[i] == xs[0];
        var j :| 0 <= j < |xs| && xs[j] == ys[0];
        assert i > 0 ==> Before(ys[0], ys[i]);
        assert j > 0 ==> Before(xs[0], xs[j]);
      }
      HeadOnce(xs);
      HeadOnce(ys);
      SortedUnique(xs[1..], ys[1..]);
      assert xs == [xs[0]] + xs[1..] && ys == [ys[0]] + ys[1..];
    }
  }

  // ---------------------------------------------------------------- neighbours

  ghost predicate EndsFree(bs: seq<Block>) { bs != [] && bs[|bs| - 1].free }

  ghost predicate StartsFree(bs: seq<Block>) { bs != [] && bs[0].free }

  lemma CoalescedJoin(xs: seq<Block>, ys: seq<Block>)
    ensures Coalesced(xs + ys) <==>
            Coalesced(xs) && Coalesced(ys) && !(EndsFree(xs) && StartsFree(ys))
  {
    var r := xs + ys;
    if Coalesced(r) {
      forall i, j | 0 <= i < j < |xs| && j == i + 1 ensures !(xs[i].free && xs[j].free) {
        assert r[i] == xs[i] && r[j] == xs[j];
      }
      forall i, j | 0 <= i < j < |ys| && j == i + 1 ensures !(ys[i].free && ys[j].free) {
        assert r[|xs| + i] == ys[i] && r[|xs| + j] == ys[j];
      }
      if xs != [] && ys != [] {
        assert r[|xs| - 1] == xs[|xs| - 1] && r[|xs|] == ys[0];
      }
    }
  }

  /** Around the middle part, neighbours are described by its first and last block. */
  lemma CoalescedParts(pre: seq<Block>, mid: seq<Block>, post: seq<Block>)
    requires mid != []
    ensures Coalesced(pre + mid + post) <==>
            && Coalesced(pre) && Coalesced(mid) && Coalesced(post)
            && !(EndsFree(pre) && mid[0].free)
            && !(mid[|mid| - 1].free && StartsFree(post))
  {
    CoalescedJoin(pre + mid, post);
    CoalescedJoin(pre, mid);
    assert (pre + mid)[|pre + mid| - 1] == mid[|mid| - 1];
  }
}
