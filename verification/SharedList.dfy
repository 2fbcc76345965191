/** `SharedMemoryList`: a circular doubly linked list around a sentinel, with a cache of nodes. */
module SharedLists {
  import opened Orders
  import opened Links
  import opened NodePools
  import opened ListSpec

  /** The fields of the node memory at one moment. */
  datatype Image<T> = Image(prev: Field, next: Field, value: map<int, T>, owned: set<int>, anchors: set<int>)

  ghost predicate MemoryOk<T>(m: Image<T>) {
    m.owned !! m.anchors && 0 !in m.owned && 0 !in m.anchors
  }

  /** The nodes of a list, in the memory. */
  ghost predicate RingIn<T>(m: Image<T>, sentinel: int, items: seq<int>) {
    && Ring(m.next, m.prev, sentinel, items) && Apart(sentinel, items)
    && Nodes(items) <= m.owned && sentinel in m.anchors && Covers(m.value, items)
  }

  /** The nodes of a cache, in the memory. */
  ghost predicate CacheIn<T>(m: Image<T>, free: int, cached: seq<int>) {
    Stack(m.prev, free, cached) && NoRepeats(cached) && Nodes(cached) <= m.owned
  }

  /** Outside the given nodes, nothing that was in use has changed. */
  ghost predicate Outside<T>(m: Image<T>, m': Image<T>, nodes: set<int>) {
    && m'.anchors == m.anchors && m.owned - nodes <= m'.owned
    && SameOn(m.prev, m'.prev, m.owned + m.anchors - nodes)
    && SameOn(m.next, m'.next, m.owned + m.anchors - nodes)
    && (forall x :: x in m.owned - nodes && x in m.value ==> x in m'.value && m'.value[x] == m.value[x])
  }

  lemma CacheKept<T>(m: Image<T>, m': Image<T>, nodes: set<int>, free: int, cached: seq<int>)
    requires CacheIn(m, free, cached) && Outside(m, m', nodes) && nodes !! Nodes(cached)
    ensures CacheIn(m', free, cached)
  {
    hide Stack, NoRepeats;
    StackFrame(m.prev, m'.prev, free, cached);
  }

  lemma RingKept<T>(m: Image<T>, m': Image<T>, nodes: set<int>, h: int, items: seq<int>)
    requires RingIn(m, h, items) && Outside(m, m', nodes) && nodes !! Span(h, items)
    ensures RingIn(m', h, items)
    ensures forall i :: 0 <= i < |items| ==> m'.value[items[i]] == m.value[items[i]]
  {
    hide Ring, Apart;
    RingFrame(m.next, m.prev, m'.next, m'.prev, h, items);
    forall i | 0 <= i < |items| ensures items[i] in m'.value && m'.value[items[i]] == m.value[items[i]] {
      var x := items[i];
      assert x in Nodes(items) && x in m.value;
    }
  }

  lemma RingFacts<T>(m: Image<T>, h: int, s: seq<int>)
    requires RingIn(m, h, s)
    ensures Nodes(s) <= m.owned && h in m.anchors && Covers(m.value, s) && Apart(h, s)
  {
  }

  /** The run of nodes of a list, and the links of its anchor. */
  lemma RingParts<T>(m: Image<T>, h: int, s: seq<int>)
    requires RingIn(m, h, s)
    ensures Inner(m.next, m.prev, s) && h in m.next && m.next[h] == First(h, s) && h in m.prev
            && m.prev[h] == Last(h, s)
  {
    RingInner(m.next, m.prev, h, s);
    RingAt(m.next, m.prev, h, s, 0);
  }

  /** The links of the `i`-th stop. */
  lemma RingLinks<T>(m: Image<T>, h: int, s: seq<int>, i: nat)
    requires RingIn(m, h, s) && i <= |s|
    ensures Stop(h, s, i) in m.next && m.next[Stop(h, s, i)] == Stop(h, s, i + 1) && Stop(h, s, i) in m.prev
  {
    RingAt(m.next, m.prev, h, s, i);
  }

  lemma CacheFacts<T>(m: Image<T>, free: int, cached: seq<int>)
    requires CacheIn(m, free, cached)
    ensures Nodes(cached) <= m.owned
  {
  }

  // ---------------------------------------------------------------- steps on the memory

  /** Linking a new node in front of the `k`-th. */
  lemma LinkedIn(nx: Field, pv: Field, h: int, s: seq<int>, k: nat, x: int)
    requires Ring(nx, pv, h, s) && Apart(h, s) && k <= |s| && x != h && x !in s
    ensures var p, n := Stop(h, s, k), Stop(h, s, k + 1);
            && n in pv && pv[n] == p
            && Ring(nx[x := n][p := x], pv[x := p][n := x], h, InsertAt(s, k, x))
            && Apart(h, InsertAt(s, k, x)) && Nodes(InsertAt(s, k, x)) == Nodes(s) + {x}
  {
    var a, b := s[..k], s[k..];
    var p, n := Stop(h, s, k), Stop(h, s, k + 1);
    assert s == a + b;
    assert Edge(nx, pv, p, n);
    assert p == Last(h, a) && n == First(h, b);
    assert Nodes([x]) == {x};
    ApartJoin(h, a, [x], b);
    PasteRun(nx, pv, h, a, [x], b);
    ApartParts(h, a, [x], b);
    ApartParts(h, a, [], b);
    assert a + [] + b == s;
    assert p != x;
    assert nx[x := n][p := x] == nx[p := x][x := n];
  }

  /** Unlinking the `k`-th node. */
  lemma LinkedOut(nx: Field, pv: Field, h: int, s: seq<int>, k: nat)
    requires Ring(nx, pv, h, s) && Apart(h, s) && k < |s|
    ensures var x, p, n := s[k], Stop(h, s, k), Stop(h, s, k + 2);
            && x in nx && nx[x] == n && x in pv && pv[x] == p
            && Ring(nx[p := n][x := x], pv[n := p][x := x], h, RemoveAt(s, k))
            && Apart(h, RemoveAt(s, k)) && Nodes(RemoveAt(s, k)) == Nodes(s) - {x}
            && p != x && n != x && p in Span(h, s) && n in Span(h, s)
  {
    var x, p, n, a, b := s[k], Stop(h, s, k), Stop(h, s, k + 2), s[..k], s[k + 1..];
    assert s == a + [x] + b;
    RingAt(nx, pv, h, s, k + 1);
    assert p == Last(h, a) && n == First(h, b);
    ApartParts(h, a, [x], b);
    CutRun(nx, pv, h, a, [x], b);
    assert Nodes([x]) == {x};
    assert x !in Span(h, a + b);
    StopIn(h, s, k);
    StopIn(h, s, k + 2);
    RingFrame(nx[p := n], pv[n := p], nx[p := n][x := x], pv[n := p][x := x], h, a + b);
    assert RemoveAt(s, k) == a + b;
    ApartParts(h, a, [], b);
    assert a + [] + b == a + b;
    assert p in Span(h, a + b) && n in Span(h, a + b);
  }

  lemma OutsideMore<T>(m: Image<T>, m': Image<T>, a: set<int>, b: set<int>)
    requires Outside(m, m', a) && a <= b
    ensures Outside(m, m', b)
  {
  }

  lemma FirstWordOnly<T>(m: Image<T>, x: int, w: int)
    ensures Outside(m, m.(prev := m.prev[x := w]), {x})
  {
  }

  /** Two changes, one after the other. */
  lemma AnchorReset<T>(m: Image<T>, h: int)
    ensures Outside(m, m.(prev := m.prev[h := h], next := m.next[h := h]), {h})
  {
  }

  lemma OutsideBoth<T>(m: Image<T>, m1: Image<T>, m2: Image<T>, a: set<int>, b: set<int>, nodes: set<int>)
    requires Outside(m, m1, a) && Outside(m1, m2, b) && m.owned <= m1.owned
    requires a * (m.owned + m.anchors) <= nodes && b * (m.owned + m.anchors) <= nodes
    ensures Outside(m, m2, nodes)
  {
    var kept := m.owned + m.anchors - nodes;
    assert forall x :: x in kept ==> x !in a && x !in b;
    assert kept <= m.owned + m.anchors - a && kept <= m1.owned + m1.anchors - b;
    assert m.owned - nodes <= m.owned - a && m.owned - nodes <= m1.owned - b;
  }

  /** The memory with a node linked in, as a list sees it. */
  lemma LinkedImage<T>(m: Image<T>, h: int, s: seq<int>, k: nat, x: int)
    requires RingIn(m, h, s) && MemoryOk(m) && k <= |s| && x !in Span(h, s) && x in m.owned && x in m.value
    ensures var p, n := Stop(h, s, k), Stop(h, s, k + 1);
            var m' := m.(prev := m.prev[x := p][n := x], next := m.next[x := n][p := x]);
            && n in m.prev && m.prev[n] == p && p in Span(h, s) && n in Span(h, s)
            && RingIn(m', h, InsertAt(s, k, x)) && Outside(m, m', Span(h, s) + {x})
            && Nodes(InsertAt(s, k, x)) == Nodes(s) + {x} && |InsertAt(s, k, x)| == |s| + 1
  {
    hide Ring, Apart;
    LinkedIn(m.next, m.prev, h, s, k, x);
    StopIn(h, s, k);
    StopIn(h, s, k + 1);
    InsertCovers(m.value, s, k, x);
  }

  /** The memory with a node linked out, as a list sees it. */
  lemma UnlinkedImage<T>(m: Image<T>, h: int, s: seq<int>, k: nat)
    requires RingIn(m, h, s) && MemoryOk(m) && k < |s|
    ensures var x, p, n := s[k], Stop(h, s, k), Stop(h, s, k + 2);
            var m' := m.(prev := m.prev[n := p][x := x], next := m.next[p := n][x := x]);
            && x in m.next && m.next[x] == n && x in m.prev && m.prev[x] == p
            && RingIn(m', h, RemoveAt(s, k)) && Outside(m, m', Span(h, s)) && x in Nodes(s)
            && Nodes(RemoveAt(s, k)) == Nodes(s) - {x} && |RemoveAt(s, k)| == |s| - 1
            && Stop(h, RemoveAt(s, k), k + 1) == n
  {
    assert Stop(h, RemoveAt(s, k), k + 1) == Stop(h, s, k + 2);
    hide Ring, Apart, Stop;
    LinkedOut(m.next, m.prev, h, s, k);
    CoversPart(m.value, s, RemoveAt(s, k));
    assert s[k] in s;
  }

  /** Closing the gap around the run from `i` up to `j`. */
  lemma CutLinks(nx: Field, pv: Field, h: int, s: seq<int>, i: nat, j: nat)
    requires Ring(nx, pv, h, s) && Apart(h, s) && i < j <= |s|
    ensures var b, e := Stop(h, s, i), Stop(h, s, j + 1);
            var nx', pv' := nx[b := e], pv[e := b];
            && s[i] in pv && pv[s[i]] == b && e in pv && pv[e] == s[j - 1]
            && Ring(nx', pv', h, CutOut(s, i, j)) && Apart(h, CutOut(s, i, j)) && Inner(nx', pv', s[i..j])
              && Apart(h, s[i..j])
            && Nodes(CutOut(s, i, j)) == Nodes(s) - Nodes(s[i..j]) && Nodes(s[i..j]) <= Nodes(s)
  {
    var x, r, y := s[..i], s[i..j], s[j..];
    assert s == x + r + y;
    RingAt(nx, pv, h, s, i + 1);
    RingAt(nx, pv, h, s, if j == |s| then 0 else j + 1);
    assert Stop(h, s, i) == Last(h, x) && Stop(h, s, j + 1) == First(h, y);
    CutRun(nx, pv, h, x, r, y);
    ApartParts(h, x, r, y);
    NodesSplit(x, y);
  }

  /** The memory after the two stores that close the gap around a run of nodes. */
  lemma CutImage<T>(m: Image<T>, h: int, s: seq<int>, i: nat, j: nat)
    requires RingIn(m, h, s) && MemoryOk(m) && i < j <= |s|
    ensures var b, e := Stop(h, s, i), Stop(h, s, j + 1);
            var m' := m.(next := m.next[b := e], prev := m.prev[e := b]);
            && s[i] in m.prev && m.prev[s[i]] == b && e in m.prev && m.prev[e] == s[j - 1]
            && RingIn(m', h, CutOut(s, i, j)) && Inner(m'.next, m'.prev, s[i..j])
            && Outside(m, m', Span(h, s)) && Apart(h, s[i..j])
            && Nodes(CutOut(s, i, j)) == Nodes(s) - Nodes(s[i..j]) && Nodes(s[i..j]) <= Nodes(s)
  {
    hide Ring, Inner, Apart, Stop, CutOut, Covers;
    CutLinks(m.next, m.prev, h, s, i, j);
    StopIn(h, s, i);
    StopIn(h, s, j + 1);
    CoversPart(m.value, s, CutOut(s, i, j));
  }

  /** Linking a run of nodes in. */
  lemma PasteLinks(nx: Field, pv: Field, h: int, s: seq<int>, k: nat, r: seq<int>)
    requires Ring(nx, pv, h, s) && Apart(h, s) && k <= |s| && r != [] && Inner(nx, pv, r) && Apart(h, r)
             && Nodes(s) !! Nodes(r)
    ensures var b, e := Stop(h, s, k), Stop(h, s, k + 1);
            && e in pv && pv[e] == b && Apart(h, SpliceAt(s, k, r))
            && Ring(nx[b := r[0]][r[|r| - 1] := e], pv[r[0] := b][e := r[|r| - 1]], h, SpliceAt(s, k, r))
            && Nodes(SpliceAt(s, k, r)) == Nodes(s) + Nodes(r) && r[0] in Nodes(r) && r[|r| - 1] in Nodes(r)
  {
    var x, y := s[..k], s[k..];
    assert s == x + y;
    assert Edge(nx, pv, Stop(h, s, k), Stop(h, s, k + 1));
    assert Stop(h, s, k) == Last(h, x) && Stop(h, s, k + 1) == First(h, y);
    ApartJoin(h, x, r, y);
    ApartParts(h, x, r, y);
    PasteRun(nx, pv, h, x, r, y);
    NodesSplit(x, y);
  }

  /** The memory after the four stores that link a run of nodes in. */
  lemma PasteImage<T>(m: Image<T>, h: int, s: seq<int>, k: nat, r: seq<int>)
    requires RingIn(m, h, s) && MemoryOk(m) && k <= |s| && r != [] && Inner(m.next, m.prev, r)
    requires Apart(h, r) && Nodes(s) !! Nodes(r) && Nodes(r) <= m.owned && Covers(m.value, r)
    ensures var b, e := Stop(h, s, k), Stop(h, s, k + 1);
            var m' := m.(next := m.next[b := r[0]][r[|r| - 1] := e], prev := m.prev[r[0] := b][e := r[|r| - 1]]);
            && e in m.prev && m.prev[e] == b
            && RingIn(m', h, SpliceAt(s, k, r)) && Outside(m, m', Span(h, s) + Nodes(r))
            && Nodes(SpliceAt(s, k, r)) == Nodes(s) + Nodes(r)
  {
    hide Ring, Inner, Apart, Stop, SpliceAt, Covers;
    PasteLinks(m.next, m.prev, h, s, k, r);
    StopIn(h, s, k);
    StopIn(h, s, k + 1);
    SpliceCovers(m.value, s, k, r);
  }

  lemma SpliceCovers<T>(v: map<int, T>, s: seq<int>, k: nat, r: seq<int>)
    requires Covers(v, s) && Covers(v, r) && k <= |s|
    ensures Covers(v, SpliceAt(s, k, r))
  {
  }

  /** Hanging a run of nodes onto an anchor. */
  /** Edge by edge a ring. */
  lemma EdgesMakeRing(nx: Field, pv: Field, h: int, s: seq<int>)
    requires s != [] && Edge(nx, pv, h, s[0]) && Edge(nx, pv, s[|s| - 1], h)
    requires forall j :: 0 < j < |s| ==> Edge(nx, pv, s[j - 1], s[j])
    ensures Ring(nx, pv, h, s)
  {
    forall j | 0 <= j <= |s| ensures Edge(nx, pv, Stop(h, s, j), Stop(h, s, j + 1)) {
      assert 0 < j < |s| ==> Edge(nx, pv, s[j - 1], s[j]);
    }
  }

  /** The links that make the run `s` the list of the anchor `h`. */
  ghost function Hung<T>(m: Image<T>, h: int, s: seq<int>): Image<T> {
    var f, l := First(h, s), Last(h, s);
    m.(next := m.next[h := f][l := h], prev := m.prev[h := l][f := h])
  }

  lemma HungImage<T>(m: Image<T>, h: int, s: seq<int>)
    requires MemoryOk(m) && h in m.anchors && Inner(m.next, m.prev, s) && Apart(h, s)
    requires Nodes(s) <= m.owned && Covers(m.value, s)
    ensures RingIn(Hung(m, h, s), h, s) && Outside(m, Hung(m, h, s), Span(h, s)) && MemoryOk(Hung(m, h, s))
  {
    var f, l := First(h, s), Last(h, s);
    var nx, pv := m.next[h := f][l := h], m.prev[h := l][f := h];
    forall i | 0 <= i <= |s| ensures Edge(nx, pv, Stop(h, s, i), Stop(h, s, i + 1)) {
      assert 0 < i < |s| ==> Edge(m.next, m.prev, s[i - 1], s[i]);
    }
    assert s != [] ==> f in s && l in s;
  }

  lemma HungTwice<T>(m: Image<T>, g: int, s: seq<int>, h: int, t: seq<int>)
    ensures var f, l, f', l' := First(g, s), Last(g, s), First(h, t), Last(h, t);
            Hung(Hung(m, g, s), h, t) ==
            m.(next := m.next[g := f][l := g][h := f'][l' := h], prev := m.prev[g := l][f := g][h := l'][f' := h])
  {
  }

  /** Two lists in one memory have nothing in common. */
  ghost predicate TwoRings<T>(m: Image<T>, g: int, s: seq<int>, h: int, t: seq<int>) {
    MemoryOk(m) && RingIn(m, g, s) && RingIn(m, h, t) && Span(g, s) !! Span(h, t)
  }

  /** Two lists after both runs are hung on the other anchor. */
  lemma ExchangedRings<T>(m: Image<T>, g: int, s: seq<int>, h: int, t: seq<int>)
    requires TwoRings(m, g, s, h, t)
    ensures var m1 := Hung(m, g, t);
            var m2 := Hung(m1, h, s);
            && Outside(m, m1, Span(g, t)) && Outside(m1, m2, Span(h, s)) && MemoryOk(m1) && MemoryOk(m2)
            && RingIn(m2, g, t) && RingIn(m2, h, s) && Outside(m, m2, Span(g, t) + Span(h, s))
  {
    hide Ring, Inner, Apart, NoRepeats, RingIn, Outside, Covers, Hung;
    RingParts(m, g, s);
    RingParts(m, h, t);
    RingFacts(m, g, s);
    RingFacts(m, h, t);
    RunApart(h, g, m, t);
    HungImage(m, g, t);
    var m1 := Hung(m, g, t);
    assert m1.owned == m.owned && m1.anchors == m.anchors && m1.value == m.value by { HungKeeps(m, g, t); }
    InnerKept(m, m1, Span(g, t), s);
    RunApart(g, h, m1, s);
    HungImage(m1, h, s);
    RingKept(m1, Hung(m1, h, s), Span(h, s), g, t);
    OutsideBoth(m, m1, Hung(m1, h, s), Span(g, t), Span(h, s), Span(g, t) + Span(h, s));
  }

  lemma HungKeeps<T>(m: Image<T>, h: int, s: seq<int>)
    ensures Hung(m, h, s).owned == m.owned && Hung(m, h, s).anchors == m.anchors && Hung(m, h, s).value == m.value
  {
  }

  /** A cache apart from both lists stays. */
  lemma ExchangedCache<T>(m: Image<T>, g: int, s: seq<int>, h: int, t: seq<int>, free: int, cached: seq<int>)
    requires TwoRings(m, g, s, h, t) && CacheIn(m, free, cached)
    requires Nodes(cached) !! Nodes(s) && Nodes(cached) !! Nodes(t)
    ensures CacheIn(Hung(Hung(m, g, t), h, s), free, cached)
  {
    hide Ring, Inner, Apart, NoRepeats, Stack, RingIn, CacheIn, Outside, Covers, Hung;
    ExchangedRings(m, g, s, h, t);
    RingFacts(m, g, s);
    RingFacts(m, h, t);
    CacheFacts(m, free, cached);
    var m1 := Hung(m, g, t);
    CacheKept(m, m1, Span(g, t), free, cached);
    CacheKept(m1, Hung(m1, h, s), Span(h, s), free, cached);
  }

  lemma RingInner(nx: Field, pv: Field, h: int, s: seq<int>)
    requires Ring(nx, pv, h, s)
    ensures Inner(nx, pv, s)
  {
    forall i, j | 0 <= i < j < |s| && j == i + 1 ensures Edge(nx, pv, s[i], s[j]) {
      assert Edge(nx, pv, Stop(h, s, j), Stop(h, s, j + 1));
    }
  }

  lemma InnerKept<T>(m: Image<T>, m': Image<T>, nodes: set<int>, s: seq<int>)
    requires Inner(m.next, m.prev, s) && Outside(m, m', nodes) && Nodes(s) <= m.owned && Nodes(s) !! nodes
    ensures Inner(m'.next, m'.prev, s)
  {
    forall i, j | 0 <= i < j < |s| && j == i + 1 ensures Edge(m'.next, m'.prev, s[i], s[j]) {
      assert Edge(m.next, m.prev, s[i], s[j]);
      assert s[i] in Nodes(s) && s[j] in Nodes(s);
    }
  }

  lemma NodesSplit(s: seq<int>, t: seq<int>)
    ensures Nodes(s + t) == Nodes(s) + Nodes(t)
  {
  }

  /** A sequence of some of the nodes is covered by the values, too. */
  lemma CoversPart<T>(v: map<int, T>, s: seq<int>, t: seq<int>)
    requires Covers(v, s) && Nodes(t) <= Nodes(s)
    ensures Covers(v, t)
  {
    forall i | 0 <= i < |t| ensures t[i] in v {
      assert t[i] in Nodes(t);
      var j :| 0 <= j < |s| && s[j] == t[i];
    }
  }

  class SharedList<T> {
    const mem: NodeMemory<T>
    const sentinel: int
    var pool: NodePool<T>
    var size: nat
    /** The nodes from front to back. */
    ghost var items: seq<int>

    ghost function Img(): Image<T>
      reads mem
    {
      Image(mem.prev, mem.next, mem.value, mem.owned, mem.anchors)
    }

    ghost predicate Valid()
      reads this, mem, pool
    {
      && pool.mem == mem && size == |items| && pool.cachedCount == |pool.cached|
      && MemoryOk(Img()) && RingIn(Img(), sentinel, items)
      && CacheIn(Img(), pool.freeNodes, pool.cached) && Nodes(items) !! Nodes(pool.cached)
    }

    /** The sentinel, the nodes of the list and the nodes of its cache. */
    ghost function Footprint(): set<int>
      reads this, pool
    {
      Span(sentinel, items) + Nodes(pool.cached)
    }

    /** Every node allocated for this list is in the list or in its cache. */
    ghost predicate Balanced()
      reads this, pool
    {
      pool.allocations == size + pool.cachedCount
    }

    /** Lists of one memory whose nodes are different. */
    ghost predicate Separate(other: SharedList<T>)
      reads this, pool, other, other.pool
    {
      other != this && other.mem == mem && other.pool != pool && Footprint() !! other.Footprint()
    }

    constructor (mem: NodeMemory<T>, sentinel: int)
      requires mem.Valid() && sentinel != 0 && sentinel !in mem.owned && sentinel !in mem.anchors
      modifies mem
      ensures Valid() && this.mem == mem && this.sentinel == sentinel && items == [] && Balanced() && fresh(pool)
    {
      this.mem := mem;
      this.sentinel := sentinel;
      pool := new NodePool(mem);
      size, items := 0, [];
      new;
      mem.anchors := mem.anchors + {sentinel};
      mem.prev, mem.next := mem.prev[sentinel := sentinel], mem.next[sentinel := sentinel];
      EmptyRing(mem.next, mem.prev, sentinel);
      assert mem.next[sentinel := sentinel] == mem.next && mem.prev[sentinel := sentinel] == mem.prev;
    }

    /** `emplace`: a new node in front of `pos`, which is the `k`-th node or the end. */
    method Emplace(pos: int, v: T, at: int, ghost k: nat) returns (node: int)
      requires Valid() && k <= |items| && pos == Stop(sentinel, items, k + 1)
      requires at != 0 && at !in mem.owned && at !in mem.anchors
      modifies this, mem, pool
      ensures Valid() && pool == old(pool) && items == InsertAt(old(items), k, node)
      ensures mem.value == old(mem.value)[node := v] && node !in old(items)
      ensures node == (if old(pool.cached) == [] then at else old(pool.cached)[0])
      ensures pool.cached == (if old(pool.cached) == [] then [] else old(pool.cached)[1..])
      ensures Outside(old(Img()), Img(), old(Footprint())) && Footprint() <= old(Footprint()) + {at}
      ensures old(Balanced()) ==> Balanced()
    {
      hide Ring, Apart, Stack, NoRepeats, InsertAt, Stop, RingIn, CacheIn, Outside, Covers;
      ghost var m, s := Img(), items;
      node := CreateNode(v, at);
      ghost var m1 := Img();
      LinkedImage(m1, sentinel, s, k, node);
      var next := pos;
      var prev := mem.prev[next];
      mem.prev := mem.prev[node := prev];
      mem.next := mem.next[node := next];
      mem.next := mem.next[prev := node];
      mem.prev := mem.prev[next := node];
      size := size + 1;
      items := InsertAt(items, k, node);
      CacheKept(m1, Img(), Span(sentinel, s) + {node}, pool.freeNodes, pool.cached);
      OutsideBoth(m, m1, Img(), {node}, Span(sentinel, s) + {node}, old(Footprint()));
    }

    /** `create_node`: the new node is neither in the list nor in the cache. */
    method CreateNode(v: T, at: int) returns (node: int)
      requires Valid() && at != 0 && at !in mem.owned && at !in mem.anchors
      modifies mem, pool
      ensures Valid() && node in mem.owned && node in mem.value && node !in Span(sentinel, items)
              && node !in Nodes(pool.cached)
      ensures Span(sentinel, items) !! Nodes(pool.cached) && Nodes(items) <= mem.owned && sentinel in mem.anchors
      ensures mem.value == old(mem.value)[node := v]
      ensures node == (if old(pool.cached) == [] then at else old(pool.cached)[0])
      ensures pool.cached == (if old(pool.cached) == [] then [] else old(pool.cached)[1..])
      ensures Outside(old(Img()), Img(), {node}) && (node in old(Footprint()) || node == at)
      ensures Nodes(pool.cached) <= Nodes(old(pool.cached)) && MemoryOk(Img()) && node !in old(items)
      ensures old(mem.owned) <= mem.owned && (node in old(mem.owned) ==> node in old(Footprint()))
      ensures old(Balanced()) ==> pool.allocations == size + 1 + pool.cachedCount
    {
      hide Ring, Apart, Stack, NoRepeats, Stop;
      ghost var m, cs := Img(), pool.cached;
      node := pool.Create(v, at, false, true);
      assert Nodes(pool.cached) <= Nodes(cs) && node !in Span(sentinel, items) by {
        assert forall x :: x in pool.cached ==> x in Nodes(cs);
        assert node == at || node in Nodes(cs);
      }
      RingKept(m, Img(), {node}, sentinel, items);
    }

    /** `erase` at an iterator: the node goes to the cache, and what followed it is returned. */
    method Erase(pos: int, ghost k: nat) returns (next: int)
      requires Valid() && k <= |items| && pos == Stop(sentinel, items, k + 1)
      modifies this, mem, pool
      ensures Valid() && pool == old(pool) && mem.value == old(mem.value) && mem.owned == old(mem.owned)
      ensures k == |old(items)| ==> items == old(items) && next == sentinel && pool.cached == old(pool.cached)
      ensures k < |old(items)| ==> items == RemoveAt(old(items), k) && pool.cached == [pos] + old(pool.cached)
      ensures k < |old(items)| ==> next == Stop(sentinel, items, k + 1)
      ensures Outside(old(Img()), Img(), old(Footprint())) && Footprint() == old(Footprint())
      ensures old(Balanced()) ==> Balanced()
    {
      hide Ring, Apart, Stack, NoRepeats;
      assert pos == sentinel <==> k == |items| by { AtEnd(sentinel, items, k); }
      if pos == sentinel {
        return sentinel;
      }
      hide RemoveAt, Stop, Outside, Covers;
      ghost var m, s, cs := Img(), items, pool.cached;
      UnlinkedImage(m, sentinel, s, k);
      next := mem.next[pos];
      var prev := mem.prev[pos];
      mem.next := mem.next[prev := next];
      mem.prev := mem.prev[next := prev];
      mem.prev := mem.prev[pos := pos];
      mem.next := mem.next[pos := pos];
      ghost var m1 := Img();
      CacheKept(m, m1, Span(sentinel, s), pool.freeNodes, cs);
      items := RemoveAt(s, k);
      pool.Destroy(pos);
      size := size - 1;
      FirstWordOnly(m1, pos, mem.prev[pos]);
      RingKept(m1, Img(), {pos}, sentinel, items);
      OutsideBoth(m, m1, Img(), Span(sentinel, s), {pos}, old(Footprint()));
      NodesSplit([pos], cs);
      assert Nodes([pos]) == {pos};
    }

    /** `erase` of a range. */
    method EraseRange(first: int, last: int, ghost i: nat, ghost j: nat) returns (r: int)
      requires Valid() && i <= j <= |items|
      requires first == Stop(sentinel, items, i + 1) && last == Stop(sentinel, items, j + 1)
      modifies this, mem, pool
      ensures Valid() && pool == old(pool) && items == old(items)[..i] + old(items)[j..] && r == last
      ensures mem.value == old(mem.value) && mem.owned == old(mem.owned)
      ensures Outside(old(Img()), Img(), old(Footprint())) && Footprint() == old(Footprint())
      ensures old(Balanced()) ==> Balanced()
    {
      hide Ring, Stack, NoRepeats, CacheIn, Stop;
      var current := first;
      ghost var left := j - i;
      ghost var m := Img();
      assert old(items) == old(items)[..i] + old(items)[j - left..];
      while current != last
        invariant Valid() && pool == old(pool) && 0 <= left <= j - i
        invariant items == old(items)[..i] + old(items)[j - left..]
        invariant current == Stop(sentinel, items, i + 1)
        invariant mem.value == old(mem.value) && mem.owned == old(mem.owned)
        invariant Outside(m, Img(), old(Footprint())) && Footprint() == old(Footprint())
        invariant old(Balanced()) ==> Balanced()
        decreases left
      {
        StopThere(sentinel, old(items), i, j, left);
        assert RemoveAt(items, i) == old(items)[..i] + old(items)[j - left + 1..];
        current := Erase(current, i);
        left := left - 1;
      }
      StopThere(sentinel, old(items), i, j, left);
      return last;
    }

    /** `transfer_range_before`: unlink the run `[i, j)` of the other list (or of this one) and link it
        in behind `k` of the nodes that stay. */
    method TransferRangeBefore(position: int, other: SharedList<T>, first: int, lastExclusive: int, count: nat,
                               ghost k: nat, ghost i: nat, ghost j: nat)
      requires Valid() && other.Valid() && (this == other || Separate(other))
      requires i < j <= |other.items| && count == j - i
      requires first == other.items[i] && lastExclusive == Stop(other.sentinel, other.items, j + 1)
      requires var stay := if this == other then CutOut(items, i, j) else items;
               k <= |stay| && position == Stop(sentinel, stay, k + 1)
      modifies this, other, mem
      ensures Valid() && other.Valid() && pool == old(pool) && other.pool == old(other.pool)
      ensures this == other ==> items == SpliceAt(CutOut(old(items), i, j), k, old(items)[i..j])
      ensures this != other ==> items == SpliceAt(old(items), k, old(other.items)[i..j])
      ensures this != other ==> other.items == CutOut(old(other.items), i, j) && Separate(other)
      ensures mem.value == old(mem.value) && mem.owned == old(mem.owned)
      ensures Outside(old(Img()), Img(), old(Footprint()) + old(other.Footprint()))
    {
      hide Ring, Apart, Stack, NoRepeats, Inner, Stop, CutOut, SpliceAt, Covers, RingIn, CacheIn, Outside;
      RingFacts(Img(), sentinel, items);
      RingFacts(Img(), other.sentinel, other.items);
      CacheFacts(Img(), pool.freeNodes, pool.cached);
      CacheFacts(Img(), other.pool.freeNodes, other.pool.cached);
      ghost var m, s, t, run := Img(), items, other.items, other.items[i..j];
      CutImage(m, other.sentinel, t, i, j);
      CutSizes(t, i, j);
      CoversRun(m.value, t, i, j);
      var beforeFirst := mem.prev[first];
      var last := mem.prev[lastExclusive];
      mem.next := mem.next[beforeFirst := lastExclusive];
      mem.prev := mem.prev[lastExclusive := beforeFirst];
      ghost var m1, stay := Img(), if this == other then CutOut(t, i, j) else s;
      if this != other { RingKept(m, m1, Span(other.sentinel, t), sentinel, s); }
      RunApart(other.sentinel, sentinel, m1, run);
      PasteImage(m1, sentinel, stay, k, run);
      SpliceSizes(stay, k, run);
      var beforePosition := mem.prev[position];
      mem.next := mem.next[beforePosition := first];
      mem.prev := mem.prev[first := beforePosition];
      mem.next := mem.next[last := position];
      mem.prev := mem.prev[position := last];
      if this != other {
        size := size + count;
        other.size := other.size - count;
        other.items := CutOut(t, i, j);
        RingKept(m1, Img(), Span(sentinel, stay) + Nodes(run), other.sentinel, other.items);
      }
      items := SpliceAt(stay, k, run);
      CacheKept(m, m1, Span(other.sentinel, t), pool.freeNodes, pool.cached);
      CacheKept(m1, Img(), Span(sentinel, stay) + Nodes(run), pool.freeNodes, pool.cached);
      CacheKept(m, m1, Span(other.sentinel, t), other.pool.freeNodes, other.pool.cached);
      CacheKept(m1, Img(), Span(sentinel, stay) + Nodes(run), other.pool.freeNodes, other.pool.cached);
      OutsideBoth(m, m1, Img(), Span(other.sentinel, t), Span(sentinel, stay) + Nodes(run),
                  old(Footprint()) + old(other.Footprint()));
    }

    /** `count_range`. */
    method CountRange(first: int, last: int, ghost i: nat, ghost j: nat) returns (count: nat)
      requires Valid() && i <= j <= |items|
      requires first == Stop(sentinel, items, i + 1) && last == Stop(sentinel, items, j + 1)
      ensures count == j - i
    {
      count := 0;
      var current := first;
      while current != last
        invariant count <= j - i && current == Stop(sentinel, items, i + count + 1)
        decreases j - i - count
      {
        RingAt(mem.next, mem.prev, sentinel, items, i + count + 1);
        current := mem.next[current];
        count := count + 1;
      }
      if count < j - i { StopsApart(sentinel, items, i + count, j); }
    }

    /** `is_node_in_range`. */
    method IsNodeInRange(target: int, first: int, last: int, ghost i: nat, ghost j: nat) returns (r: bool)
      requires Valid() && i <= j <= |items|
      requires first == Stop(sentinel, items, i + 1) && last == Stop(sentinel, items, j + 1)
      ensures r <==> target in items[i..j]
    {
      ghost var n := 0;
      var current := first;
      while current != last
        invariant 0 <= n <= j - i && current == Stop(sentinel, items, i + n + 1)
        invariant target !in items[i..i + n]
        decreases j - i - n
      {
        RingAt(mem.next, mem.prev, sentinel, items, i + n + 1);
        assert items[i..j][n] == items[i + n];
        if current == target {
          return true;
        }
        assert items[i..i + n + 1] == items[i..i + n] + [items[i + n]];
        current := mem.next[current];
        n := n + 1;
      }
      if n < j - i { StopsApart(sentinel, items, i + n, j); }
      return false;
    }

    /** `splice` of a whole list. */
    method Splice(pos: int, other: SharedList<T>, ghost k: nat)
      requires Valid() && other.Valid() && (this == other || Separate(other))
      requires k <= |items| && pos == Stop(sentinel, items, k + 1)
      modifies this, other, mem
      ensures Valid() && other.Valid() && pool == old(pool) && other.pool == old(other.pool)
      ensures this == other ==> items == old(items)
      ensures this != other ==>
                && items == SpliceAt(old(items), k, old(other.items)) && other.items == []
                && Separate(other)
      ensures mem.value == old(mem.value) && mem.owned == old(mem.owned)
      ensures Outside(old(Img()), Img(), old(Footprint()) + old(other.Footprint()))
    {
      if this == other || other.size == 0 {
        return;
      }
      ghost var n := |other.items|;
      RingAt(mem.next, mem.prev, other.sentinel, other.items, 0);
      assert other.items[0..n] == other.items;
      TransferRangeBefore(pos, other, mem.next[other.sentinel], other.sentinel, other.size, k, 0, n);
    }

    /** `splice` of one node. */
    method SpliceOne(pos: int, other: SharedList<T>, node: int, ghost k: nat, ghost i: nat)
      requires Valid() && other.Valid() && (this == other || Separate(other))
      requires k <= |items| && pos == Stop(sentinel, items, k + 1)
      requires i <= |other.items| && node == Stop(other.sentinel, other.items, i + 1)
      modifies this, other, mem
      ensures Valid() && other.Valid() && pool == old(pool) && other.pool == old(other.pool)
      ensures i == |old(other.items)| ==> items == old(items) && other.items == old(other.items)
      ensures i < |old(other.items)| && this == other ==> items == Moved(old(items), k, i, i + 1)
      ensures i < |old(other.items)| && this != other ==>
                items == InsertAt(old(items), k, node) && other.items == RemoveAt(old(other.items), i)
                  && Separate(other)
      ensures mem.value == old(mem.value) && mem.owned == old(mem.owned)
      ensures Outside(old(Img()), Img(), old(Footprint()) + old(other.Footprint()))
    {
      hide Ring, Apart, Stack, NoRepeats, CutOut, SpliceAt, InsertAt, RemoveAt, Moved, MovedTo, RingIn, CacheIn,
           Outside, Covers;
      RingFacts(Img(), other.sentinel, other.items);
      AtEnd(other.sentinel, other.items, i);
      if node == other.sentinel {
        NoChange(Img(), Footprint() + other.Footprint());
        return;
      }
      RingLinks(Img(), other.sentinel, other.items, i + 1);
      OneNode(items, k, other.items, i);
      if this == other {
        SamePlaceMoved(sentinel, items, k, i, i + 1);
        if pos == node || pos == mem.next[node] {
          NoChange(Img(), Footprint() + other.Footprint());
          return;
        }
        OnlyOne(items, i, pos);
        StopMoved(sentinel, items, k, i, i + 1);
      }
      PlainMove(k, i, i + 1);
      TransferRangeBefore(pos, other, node, mem.next[node], 1, MovedTo(this == other, k, i, i + 1), i, i + 1);
      MovedIs(old(items), k, i, i + 1);
    }

    /** `splice` of a range: exactly `[first, last)` moves, in order; inside one list a position in the
        range leaves everything as it is. */
    method SpliceRange(pos: int, other: SharedList<T>, first: int, last: int, ghost k: nat, ghost i: nat, ghost j: nat)
      requires Valid() && other.Valid() && (this == other || Separate(other))
      requires k <= |items| && pos == Stop(sentinel, items, k + 1) && i <= j <= |other.items|
      requires first == Stop(other.sentinel, other.items, i + 1) && last == Stop(other.sentinel, other.items, j + 1)
      modifies this, other, mem
      ensures Valid() && other.Valid() && pool == old(pool) && other.pool == old(other.pool)
      ensures this == other ==> items == Moved(old(items), k, i, j)
      ensures this != other ==> items == SpliceAt(old(items), k, old(other.items)[i..j])
      ensures this != other ==> other.items == CutOut(old(other.items), i, j) && Separate(other)
      ensures mem.value == old(mem.value) && mem.owned == old(mem.owned)
      ensures Outside(old(Img()), Img(), old(Footprint()) + old(other.Footprint()))
    {
      RangeEnds(other.sentinel, other.items, i, j);
      if first == last {
        if this == other { NothingMoved(items, k, i); }
        assert CutOut(other.items, i, j) == other.items && SpliceAt(items, k, []) == items;
        return;
      }
      if this == other {
        var inRange := IsNodeInRange(pos, first, last, i, j);
        SamePlaceMoved(sentinel, items, k, i, j);
        if pos == first || pos == last || inRange {
          return;
        }
        StopMoved(sentinel, items, k, i, j);
      }
      var count := other.CountRange(first, last, i, j);
      TransferRangeBefore(pos, other, first, last, count, MovedTo(this == other, k, i, j), i, j);
    }

    /** The walk from `begin()` to `end()`. */
    method Forward() returns (nodes: seq<int>)
      requires Valid()
      ensures nodes == items
    {
      nodes := [];
      RingAt(mem.next, mem.prev, sentinel, items, 0);
      var current := mem.next[sentinel];
      while current != sentinel
        invariant |nodes| <= |items| && nodes == items[..|nodes|] && current == Stop(sentinel, items, |nodes| + 1)
        decreases |items| - |nodes|
      {
        RingAt(mem.next, mem.prev, sentinel, items, |nodes| + 1);
        nodes := nodes + [current];
        current := mem.next[current];
      }
      AtEnd(sentinel, items, |nodes|);
    }

    /** The walk from `rbegin()` to `rend()`. */
    method Backward() returns (nodes: seq<int>)
      requires Valid()
      ensures nodes == Reversed(items)
    {
      nodes := [];
      ghost var r := Reversed(items);
      RingReversed(mem.next, mem.prev, sentinel, items);
      ReversedNodes(items);
      RingAt(mem.prev, mem.next, sentinel, r, 0);
      var current := mem.prev[sentinel];
      while current != sentinel
        invariant |nodes| <= |r| && nodes == r[..|nodes|] && current == Stop(sentinel, r, |nodes| + 1)
        decreases |r| - |nodes|
      {
        RingAt(mem.prev, mem.next, sentinel, r, |nodes| + 1);
        nodes := nodes + [current];
        current := mem.prev[current];
      }
      AtEnd(sentinel, r, |nodes|);
    }

    /** `reverse`: swap the two links of every node and of the sentinel. */
    method Reverse()
      requires Valid()
      modifies this, mem
      ensures Valid() && pool == old(pool) && items == Reversed(old(items)) && mem.value == old(mem.value)
              && mem.owned == old(mem.owned)
      ensures Outside(old(Img()), Img(), old(Footprint())) && Footprint() == old(Footprint())
    {
      ghost var m, s, k := Img(), items, 0;
      ReversedNodes(s);
      if size < 2 {
        assert Reversed(s) == s;
        return;
      }
      assert Apart(sentinel, Reversed(s));
      hide Ring, Apart, Stack, NoRepeats, Stop;
      var current, first := sentinel, true;
      assert current == Stop(sentinel, s, 0) by { StartStop(sentinel, s); }
      NothingSwapped(m.next, m.prev, sentinel, s);
      while first || current != sentinel
        invariant pool == old(pool) && items == s && size == |s|
        invariant mem.value == m.value && mem.owned == m.owned && mem.anchors == m.anchors
        invariant 0 <= k <= |s| + 1 && current == Stop(sentinel, s, k) && (first <==> k == 0)
        invariant Swapped(m.next, m.prev, mem.next, mem.prev, sentinel, s, k)
        decreases |s| + 1 - k
      {
        if k > 0 { StopBack(sentinel, s, k); }
        RingAt(m.next, m.prev, sentinel, s, k);
        SwapOne(m.next, m.prev, mem.next, mem.prev, sentinel, s, k);
        var oldNext := mem.next[current];
        mem.next, mem.prev := mem.next[current := mem.prev[current]], mem.prev[current := mem.next[current]];
        current := oldNext;
        first := false;
        k := k + 1;
      }
      if k <= |s| { StopBack(sentinel, s, k); }
      items := Reversed(s);
      SwappedRing(m.next, m.prev, mem.next, mem.prev, sentinel, s);
      CoversPart(mem.value, s, items);
      CacheKept(m, Img(), Span(sentinel, s), pool.freeNodes, pool.cached);
    }

    /** `unique`. */
    method Unique(eq: (T, T) -> bool)
      requires Valid()
      modifies this, mem, pool
      ensures Valid() && pool == old(pool) && mem.value == old(mem.value) && mem.owned == old(mem.owned)
      ensures items == Uniqued(eq, mem.value, old(items))
      ensures Outside(old(Img()), Img(), old(Footprint())) && Footprint() == old(Footprint())
      ensures old(Balanced()) ==> Balanced()
    {
      hide Ring, Stack, NoRepeats, CacheIn, Outside, Dedup, Covers;
      ghost var m, s := Img(), items;
      assert Outside(m, Img(), old(Footprint())) by { NoChange(m, old(Footprint())); }
      if size < 2 {
        UniqueShort(eq, m.value, s);
        return;
      }
      UniqueStart(eq, m.value, s);
      RingAt(mem.next, mem.prev, sentinel, items, 0);
      RingAt(mem.next, mem.prev, sentinel, items, 1);
      var current := mem.next[sentinel];
      var next := mem.next[current];
      ghost var done: seq<int>, rest := [items[0]], items[1..];
      while next != sentinel
        invariant Valid() && pool == old(pool) && mem.value == m.value && mem.owned == m.owned
        invariant items == done + rest && done != [] && current == done[|done| - 1]
                  && next == Stop(sentinel, items, |done| + 1)
        invariant Covers(m.value, rest) && current in m.value
        invariant done + Dedup(eq, m.value, current, rest) == Uniqued(eq, m.value, s)
        invariant Outside(m, Img(), old(Footprint())) && Footprint() == old(Footprint())
        invariant old(Balanced()) ==> Balanced()
        decreases |rest|
      {
        AtEnd(sentinel, items, |done|);
        assert next == rest[0] && items[|done|] == rest[0];
        ghost var m1 := Img();
        DedupStep(eq, m.value, current, rest);
        if eq(mem.value[current], mem.value[next]) {
          assert RemoveAt(items, |done|) == done + rest[1..];
          next := Erase(next, |done|);
          OutsideBoth(m, m1, Img(), old(Footprint()), old(Footprint()), old(Footprint()));
        } else {
          RingAt(mem.next, mem.prev, sentinel, items, |done| + 1);
          current := next;
          next := mem.next[next];
          done := done + [current];
        }
        rest := rest[1..];
      }
      AtEnd(sentinel, items, |done|);
      assert rest == [];
      DedupStep(eq, m.value, current, rest);
    }

    /** `remove_if`. */
    method RemoveIf(drop: T -> bool)
      requires Valid()
      modifies this, mem, pool
      ensures Valid() && pool == old(pool) && mem.value == old(mem.value) && mem.owned == old(mem.owned)
      ensures items == Filter(Kept(drop, mem.value), old(items))
      ensures Outside(old(Img()), Img(), old(Footprint())) && Footprint() == old(Footprint())
      ensures old(Balanced()) ==> Balanced()
    {
      hide Ring, Stack, NoRepeats, CacheIn, Outside, Filter, Kept, Covers, RemoveAt;
      ghost var m, s := Img(), items;
      ghost var keep := Kept(drop, m.value);
      assert Outside(m, Img(), old(Footprint())) by { NoChange(m, old(Footprint())); }
      RingAt(mem.next, mem.prev, sentinel, items, 0);
      var current := mem.next[sentinel];
      ghost var done: seq<int>, rest := [], items;
      while current != sentinel
        invariant Valid() && pool == old(pool) && mem.value == m.value && mem.owned == m.owned
        invariant items == done + rest && current == Stop(sentinel, items, |done| + 1) && Covers(m.value, rest)
        invariant done + Filter(keep, rest) == Filter(keep, s)
        invariant Outside(m, Img(), old(Footprint())) && Footprint() == old(Footprint())
        invariant old(Balanced()) ==> Balanced()
        decreases |rest|
      {
        AtEnd(sentinel, items, |done|);
        assert rest != [] && current == rest[0];
        ghost var m1 := Img();
        KeepStep(drop, m.value, done, rest);
        if drop(mem.value[current]) {
          current := Erase(current, |done|);
          OutsideBoth(m, m1, Img(), old(Footprint()), old(Footprint()), old(Footprint()));
        } else {
          RingAt(mem.next, mem.prev, sentinel, items, |done| + 1);
          done := done + [current];
          current := mem.next[current];
        }
        rest := rest[1..];
      }
      AtEnd(sentinel, items, |done|);
      assert rest == [];
      assert Filter(keep, rest) == [] by { FilterNone(keep); }
    }

    /** `relink_nodes_in_order`. */
    method RelinkNodesInOrder(nodes: seq<int>)
      requires Apart(sentinel, nodes)
      modifies mem`prev, mem`next
      ensures Ring(mem.next, mem.prev, sentinel, nodes)
      ensures SameOutside(old(mem.next), mem.next, Span(sentinel, nodes))
              && SameOutside(old(mem.prev), mem.prev, Span(sentinel, nodes))
    {
      if nodes == [] {
        EmptyRing(mem.next, mem.prev, sentinel);
        mem.prev, mem.next := mem.prev[sentinel := sentinel], mem.next[sentinel := sentinel];
        return;
      }
      RelinkSome(nodes);
    }

    /** The stores for at least one node. */
    method RelinkSome(nodes: seq<int>)
      requires Apart(sentinel, nodes) && nodes != []
      modifies mem`prev, mem`next
      ensures Ring(mem.next, mem.prev, sentinel, nodes)
      ensures SameOutside(old(mem.next), mem.next, Span(sentinel, nodes))
              && SameOutside(old(mem.prev), mem.prev, Span(sentinel, nodes))
    {
      var n := |nodes|;
      mem.next := mem.next[sentinel := nodes[0]];
      mem.prev := mem.prev[sentinel := nodes[n - 1]];
      mem.prev := mem.prev[nodes[0] := sentinel];
      mem.next := mem.next[nodes[n - 1] := sentinel];
      var i := 1;
      while i < n
        invariant 1 <= i <= n
        invariant Edge(mem.next, mem.prev, sentinel, nodes[0]) && Edge(mem.next, mem.prev, nodes[n - 1], sentinel)
        invariant forall j :: 0 < j < i ==> Edge(mem.next, mem.prev, nodes[j - 1], nodes[j])
        invariant SameOutside(old(mem.next), mem.next, Span(sentinel, nodes))
                  && SameOutside(old(mem.prev), mem.prev, Span(sentinel, nodes))
      {
        assert nodes[i - 1] in Nodes(nodes) && nodes[i] in Nodes(nodes);
        mem.next := mem.next[nodes[i - 1] := nodes[i]];
        mem.prev := mem.prev[nodes[i] := nodes[i - 1]];
        i := i + 1;
      }
      EdgesMakeRing(mem.next, mem.prev, sentinel, nodes);
    }

    /** `sort`, with `std::stable_sort` on the collected nodes. */
    method Sort(less: (T, T) -> bool)
      requires Valid()
      modifies this, mem
      ensures Valid() && pool == old(pool) && mem.value == old(mem.value) && mem.owned == old(mem.owned)
      ensures items == StableSorted(less, mem.value, old(items))
      ensures Outside(old(Img()), Img(), old(Footprint())) && Footprint() == old(Footprint())
    {
      hide Ring, Apart, Stack, NoRepeats, RingIn, CacheIn, Outside, Covers, StableSorted;
      ghost var m, s := Img(), items;
      RingFacts(m, sentinel, s);
      if size < 2 {
        SortedShort(less, mem.value, s);
        NoChange(m, Footprint());
        return;
      }
      CacheFacts(m, pool.freeNodes, pool.cached);
      var nodes := Forward();
      nodes := StableSorted(less, mem.value, nodes);
      SortedNodes(less, m.value, s);
      SortedApart(sentinel, s, nodes);
      RelinkNodesInOrder(nodes);
      items := nodes;
      RelinkedImage(m, Img(), sentinel, nodes);
      CacheKept(m, Img(), Span(sentinel, s), pool.freeNodes, pool.cached);
      OutsideMore(m, Img(), Span(sentinel, s), old(Footprint()));
    }

    /** `merge`: all nodes of both lists in one stable order, this list's first among equals. */
    method Merge(other: SharedList<T>, less: (T, T) -> bool)
      requires Valid() && other.Valid() && (this == other || Separate(other))
      modifies this, other, mem
      ensures Valid() && other.Valid() && pool == old(pool) && other.pool == old(other.pool)
      ensures mem.value == old(mem.value) && mem.owned == old(mem.owned)
      ensures this == other || old(other.items) == [] ==> items == old(items) && other.items == old(other.items)
      ensures this != other && old(other.items) != [] ==> Covers(mem.value, old(items) + old(other.items))
      ensures this != other && old(other.items) != [] ==>
                items == StableSorted(less, mem.value, old(items) + old(other.items)) && other.items == []
                  && Separate(other)
      ensures Outside(old(Img()), Img(), old(Footprint()) + old(other.Footprint()))
    {
      ghost var m, s, t := Img(), items, other.items;
      if this == other || other.size == 0 {
        return;
      }
      hide Ring, Stack, NoRepeats, CacheIn, Outside, Covers, StableSorted;
      JoinApart(sentinel, other.sentinel, m, s, t);
      NodesSplit(s, t);
      var nodes := Forward();
      var others := other.Forward();
      nodes := StableSorted(less, mem.value, nodes + others);
      SortedNodes(less, m.value, s + t);
      SortedApart(sentinel, s + t, nodes);
      TakeOver(other, nodes);
    }

    /** The end of `merge`: this list gets all nodes in the given order, the other none. */
    method TakeOver(other: SharedList<T>, nodes: seq<int>)
      requires Valid() && other.Valid() && Separate(other) && Apart(sentinel, nodes) && Covers(mem.value, nodes)
      requires Nodes(nodes) == Nodes(items) + Nodes(other.items)
      modifies this, other, mem
      ensures Valid() && other.Valid() && pool == old(pool) && other.pool == old(other.pool) && Separate(other)
      ensures mem.value == old(mem.value) && mem.owned == old(mem.owned) && items == nodes && other.items == []
      ensures Outside(old(Img()), Img(), old(Footprint()) + old(other.Footprint()))
    {
      hide Ring, Apart, Stack, NoRepeats, RingIn, CacheIn, Outside, Covers;
      ghost var m := Img();
      RingFacts(m, sentinel, items);
      RingFacts(m, other.sentinel, other.items);
      CacheFacts(m, pool.freeNodes, pool.cached);
      CacheFacts(m, other.pool.freeNodes, other.pool.cached);
      RelinkNodesInOrder(nodes);
      size := |nodes|;
      items := nodes;
      RelinkedImage(m, Img(), sentinel, nodes);
      CacheKept(m, Img(), Span(sentinel, nodes), pool.freeNodes, pool.cached);
      CacheKept(m, Img(), Span(sentinel, nodes), other.pool.freeNodes, other.pool.cached);
      ghost var m1 := Img();
      other.BecomeEmpty();
      RingKept(m1, Img(), {other.sentinel}, sentinel, nodes);
      CacheKept(m1, Img(), {other.sentinel}, pool.freeNodes, pool.cached);
      OutsideBoth(m, m1, Img(), Span(sentinel, nodes), {other.sentinel}, old(Footprint()) + old(other.Footprint()));
    }

    /** `reset_sentinel` and a size of zero, when the nodes belong to somebody else. */
    method BecomeEmpty()
      requires MemoryOk(Img()) && sentinel in mem.anchors && pool.mem == mem && pool.cachedCount == |pool.cached|
      requires CacheIn(Img(), pool.freeNodes, pool.cached)
      modifies this`size, this`items, mem`prev, mem`next
      ensures Valid() && items == [] && Outside(old(Img()), Img(), {sentinel})
    {
      hide Ring, Stack, NoRepeats, CacheIn, Outside;
      ghost var m := Img();
      CacheFacts(m, pool.freeNodes, pool.cached);
      mem.prev, mem.next := mem.prev[sentinel := sentinel], mem.next[sentinel := sentinel];
      size, items := 0, [];
      EmptiedImage(m, sentinel);
      CacheKept(m, Img(), {sentinel}, pool.freeNodes, pool.cached);
    }

    /** The stores that make a run of nodes the nodes of this list. */
    method HangOn(empty: bool, first: int, last: int, ghost s: seq<int>)
      requires empty <==> s == []
      requires !empty ==> first == s[0] && last == s[|s| - 1]
      modifies mem`prev, mem`next
      ensures var f, l := First(sentinel, s), Last(sentinel, s);
              && mem.next == old(mem.next)[sentinel := f][l := sentinel]
              && mem.prev == old(mem.prev)[sentinel := l][f := sentinel]
    {
      if empty {
        mem.prev, mem.next := mem.prev[sentinel := sentinel], mem.next[sentinel := sentinel];
      } else {
        mem.next := mem.next[sentinel := first];
        mem.prev := mem.prev[sentinel := last];
        mem.prev := mem.prev[first := sentinel];
        mem.next := mem.next[last := sentinel];
      }
    }

    /** `swap`: the lists exchange their nodes, caches and sizes. */
    method Swap(other: SharedList<T>)
      requires Valid() && other.Valid() && (this == other || Separate(other))
      modifies this, other, mem
      ensures Valid() && other.Valid() && items == old(other.items) && other.items == old(items)
      ensures pool == old(other.pool) && other.pool == old(pool) && (this != other ==> Separate(other))
      ensures mem.value == old(mem.value) && mem.owned == old(mem.owned)
      ensures Outside(old(Img()), Img(), old(Footprint()) + old(other.Footprint()))
      ensures old(Balanced()) && old(other.Balanced()) ==> Balanced() && other.Balanced()
    {
      if this == other {
        NoChange(Img(), Footprint() + Footprint());
      } else {
        Exchange(other);
      }
    }

    /** `swap` of two lists. */
    method Exchange(other: SharedList<T>)
      requires Valid() && other.Valid() && Separate(other)
      modifies this, other, mem
      ensures Valid() && other.Valid() && items == old(other.items) && other.items == old(items)
      ensures pool == old(other.pool) && other.pool == old(pool) && Separate(other)
      ensures mem.value == old(mem.value) && mem.owned == old(mem.owned)
      ensures Outside(old(Img()), Img(), old(Footprint()) + old(other.Footprint()))
      ensures old(Balanced()) && old(other.Balanced()) ==> Balanced() && other.Balanced()
    {
      hide Ring, Inner, Apart, NoRepeats, Stack, RingIn, CacheIn, Outside, Covers, Hung;
      ghost var m, s, t := Img(), items, other.items;
      RingParts(m, sentinel, s);
      RingParts(m, other.sentinel, t);
      ExchangedRings(m, sentinel, s, other.sentinel, t);
      RingFacts(m, sentinel, s);
      RingFacts(m, other.sentinel, t);
      CacheFacts(m, pool.freeNodes, pool.cached);
      CacheFacts(m, other.pool.freeNodes, other.pool.cached);
      ghost var m2 := Hung(Hung(m, sentinel, t), other.sentinel, s);
      ExchangedCache(m, sentinel, s, other.sentinel, t, pool.freeNodes, pool.cached);
      ExchangedCache(m, sentinel, s, other.sentinel, t, other.pool.freeNodes, other.pool.cached);
      var thisEmpty, otherEmpty := size == 0, other.size == 0;
      pool, other.pool := other.pool, pool;
      var thisFirst, thisLast := mem.next[sentinel], mem.prev[sentinel];
      var otherFirst, otherLast := mem.next[other.sentinel], mem.prev[other.sentinel];
      HangOn(otherEmpty, otherFirst, otherLast, t);
      other.HangOn(thisEmpty, thisFirst, thisLast, s);
      assert Img() == m2 by { HungTwice(m, sentinel, t, other.sentinel, s); }
      size, other.size := other.size, size;
      items, other.items := t, s;
      assert Outside(m, m2, old(Footprint()) + old(other.Footprint())) by {
        OutsideMore(m, m2, Span(sentinel, t) + Span(other.sentinel, s), old(Footprint()) + old(other.Footprint()));
      }
    }

    /** `clear`. */
    method Clear()
      requires Valid()
      modifies this, mem, pool
      ensures Valid() && pool == old(pool) && items == [] && mem.value == old(mem.value) && mem.owned == old(mem.owned)
      ensures Outside(old(Img()), Img(), old(Footprint())) && Footprint() == old(Footprint())
      ensures old(Balanced()) ==> Balanced()
    {
      hide Ring, Apart, Stack, NoRepeats, Outside;
      ghost var m := Img();
      DestroyAll();
      ghost var m1 := Img();
      mem.prev, mem.next := mem.prev[sentinel := sentinel], mem.next[sentinel := sentinel];
      size, items := 0, [];
      EmptyRing(m1.next, m1.prev, sentinel);
      assert Apart(sentinel, []) by { EmptyApart(sentinel); }
      assert Outside(m1, Img(), {sentinel}) by { AnchorReset(m1, sentinel); }
      CacheKept(m1, Img(), {sentinel}, pool.freeNodes, pool.cached);
      OutsideBoth(m, m1, Img(), Nodes(old(items)), {sentinel}, old(Footprint()));
    }

    /** The loop of `clear`: the successor is read before the node is cached. */
    method DestroyAll()
      requires Valid()
      modifies mem`prev, pool
      ensures pool.Valid() && Nodes(pool.cached) == Nodes(old(pool.cached)) + Nodes(items)
      ensures |pool.cached| == |old(pool.cached)| + |items| && pool.allocations == old(pool.allocations)
      ensures Outside(old(Img()), Img(), Nodes(items))
    {
      hide Ring, Apart, Stack, NoRepeats;
      ghost var m, s, cs, k := Img(), items, pool.cached, 0;
      RingAt(mem.next, mem.prev, sentinel, s, 0);
      var current := mem.next[sentinel];
      AtEnd(sentinel, s, 0);
      while current != sentinel
        invariant 0 <= k <= |s| && current == Stop(sentinel, s, k + 1) && (current == sentinel <==> k == |s|)
        invariant pool.Valid() && Nodes(pool.cached) == Nodes(cs) + Nodes(s[..k]) && |pool.cached| == |cs| + k
        invariant Outside(m, Img(), Nodes(s[..k])) && pool.allocations == old(pool.allocations)
        decreases |s| - k
      {
        RingAt(m.next, m.prev, sentinel, s, k + 1);
        NodeAt(sentinel, s, k);
        var next := mem.next[current];
        pool.Destroy(current);
        current := next;
        k := k + 1;
        AtEnd(sentinel, s, k);
        assert s[..k] == s[..k - 1] + [s[k - 1]];
        NodesSplit(s[..k - 1], [s[k - 1]]);
        assert Nodes([s[k - 1]]) == {s[k - 1]};
      }
      assert s[..k] == s;
    }

    /** `shrink_to_fit`: every cached node is given back exactly once. */
    method ShrinkToFit()
      requires Valid()
      modifies this, mem, pool
      ensures Valid() && pool == old(pool) && items == old(items) && mem.value == old(mem.value) && pool.cached == []
      ensures mem.owned == old(mem.owned) - Nodes(old(pool.cached))
      ensures mem.returned == old(mem.returned) + Reversed(old(pool.cached))
      ensures Outside(old(Img()), Img(), old(Footprint())) && Footprint() == Span(sentinel, items)
      ensures old(Balanced()) ==> Balanced() && pool.allocations == size
    {
      hide Ring, Apart, Stack, NoRepeats;
      ghost var m, cs := Img(), pool.cached;
      pool.ShrinkToFit();
      assert Outside(m, Img(), Nodes(cs));
      RingKept(m, Img(), Nodes(cs), sentinel, items);
    }
  }

  lemma InsertCovers<T>(v: map<int, T>, s: seq<int>, k: nat, x: int)
    requires Covers(v, s) && k <= |s| && x in v
    ensures Covers(v, InsertAt(s, k, x)) && |InsertAt(s, k, x)| == |s| + 1
  {
  }

  lemma CutSizes(s: seq<int>, i: nat, j: nat)
    requires i <= j <= |s|
    ensures |CutOut(s, i, j)| == |s| - (j - i) && |s[i..j]| == j - i
    ensures i < j ==> s[i..j][0] == s[i] && s[i..j][j - i - 1] == s[j - 1]
  {
  }

  lemma SpliceSizes(s: seq<int>, k: nat, r: seq<int>)
    requires k <= |s|
    ensures |SpliceAt(s, k, r)| == |s| + |r|
  {
  }

  lemma CoversRun<T>(v: map<int, T>, s: seq<int>, i: nat, j: nat)
    requires Covers(v, s) && i <= j <= |s|
    ensures Covers(v, s[i..j])
  {
  }

  /** Nodes in use are never an anchor. */
  lemma RunApart<T>(g: int, h: int, m: Image<T>, r: seq<int>)
    requires MemoryOk(m) && h in m.anchors && Nodes(r) <= m.owned && Apart(g, r)
    ensures Apart(h, r)
  {
    assert forall x :: x in r ==> x in Nodes(r);
  }

  /** The position `k` among the nodes that stay. */
  ghost function MovedTo(same: bool, k: nat, i: nat, j: nat): nat
    requires i <= j
  {
    if !same || k <= i then k else if k < j then i else k - (j - i)
  }

  /** Moving `[i, j)` in front of the `k`-th node of the same list. */
  ghost function Moved(s: seq<int>, k: nat, i: nat, j: nat): seq<int>
    requires i <= j <= |s| && k <= |s|
  {
    SpliceAt(CutOut(s, i, j), MovedTo(true, k, i, j), s[i..j])
  }

  lemma MovedIs(s: seq<int>, k: nat, i: nat, j: nat)
    ensures i <= j <= |s| && k <= |s| && MovedTo(true, k, i, j) <= |CutOut(s, i, j)| ==>
              Moved(s, k, i, j) == SpliceAt(CutOut(s, i, j), MovedTo(true, k, i, j), s[i..j])
  {
  }

  lemma PlainMove(k: nat, i: nat, j: nat)
    requires i <= j
    ensures MovedTo(false, k, i, j) == k
  {
  }

  /** A run of one node. */
  lemma OneNode(s: seq<int>, k: nat, t: seq<int>, i: nat)
    requires k <= |s| && i < |t|
    ensures t[i..i + 1] == [t[i]] && CutOut(t, i, i + 1) == RemoveAt(t, i)
            && SpliceAt(s, k, [t[i]]) == InsertAt(s, k, t[i])
  {
  }

  lemma OnlyOne(s: seq<int>, i: nat, x: int)
    requires i < |s|
    ensures x in s[i..i + 1] ==> x == s[i]
  {
  }

  lemma NothingMoved(s: seq<int>, k: nat, i: nat)
    requires k <= |s| && i <= |s|
    ensures Moved(s, k, i, i) == s
  {
    assert CutOut(s, i, i) == s;
  }

  /** A position at or inside the run leaves it where it is. */
  lemma SamePlaceMoved(h: int, s: seq<int>, k: nat, i: nat, j: nat)
    requires Apart(h, s) && k <= |s| && i < j <= |s|
    ensures var p := Stop(h, s, k + 1);
            p == s[i] || p == Stop(h, s, j + 1) || p in s[i..j] <==> i <= k <= j
    ensures i <= k <= j ==> Moved(s, k, i, j) == s
  {
    var p := Stop(h, s, k + 1);
    if i <= k <= j {
      assert CutOut(s, i, j) == s[..i] + s[j..];
      if k < j { assert s[i..j][k - i] == p; }
    }
    if p in s[i..j] {
      var n :| 0 <= n < j - i && s[i..j][n] == p;
      if k != i + n { StopsApart(h, s, k, i + n); }
    }
    if p == s[i] && k != i { StopsApart(h, s, k, i); }
    if p == Stop(h, s, j + 1) && k != j { StopsApart(h, s, k, j); }
  }

  /** The node at position `k` is the same among those that stay. */
  lemma StopMoved(h: int, s: seq<int>, k: nat, i: nat, j: nat)
    requires k <= |s| && i <= j <= |s| && !(i <= k < j)
    ensures MovedTo(true, k, i, j) <= |CutOut(s, i, j)|
    ensures Stop(h, CutOut(s, i, j), MovedTo(true, k, i, j) + 1) == Stop(h, s, k + 1)
  {
  }

  lemma RangeEnds(h: int, s: seq<int>, i: nat, j: nat)
    requires Apart(h, s) && i <= j <= |s|
    ensures Stop(h, s, i + 1) == Stop(h, s, j + 1) <==> i == j
  {
    if i < j { StopsApart(h, s, i, j); }
  }

  /** What `remove_if` leaves. */
  ghost function Kept<T>(p: T -> bool, v: map<int, T>): int -> bool {
    x => x in v && !p(v[x])
  }

  lemma FilterStep<T>(p: T -> bool, v: map<int, T>, s: seq<int>)
    requires s != [] && Covers(v, s)
    ensures Filter(Kept(p, v), s) == (if p(v[s[0]]) then [] else [s[0]]) + Filter(Kept(p, v), s[1..])
  {
  }

  lemma CoversTail<T>(v: map<int, T>, s: seq<int>)
    requires Covers(v, s) && s != []
    ensures s[0] in v && Covers(v, s[1..])
  {
  }

  /** One more node is looked at: it stays behind `done` or goes. */
  lemma KeepStep<T>(drop: T -> bool, v: map<int, T>, done: seq<int>, rest: seq<int>)
    requires rest != [] && Covers(v, rest)
    ensures rest[0] in v && Covers(v, rest[1..])
    ensures RemoveAt(done + rest, |done|) == done + rest[1..] && done + rest == (done + [rest[0]]) + rest[1..]
    ensures drop(v[rest[0]]) ==> done + Filter(Kept(drop, v), rest) == done + Filter(Kept(drop, v), rest[1..])
    ensures !drop(v[rest[0]]) ==>
              done + Filter(Kept(drop, v), rest) == (done + [rest[0]]) + Filter(Kept(drop, v), rest[1..])
  {
    hide Filter, Kept, Covers;
    FilterStep(drop, v, rest);
    CoversTail(v, rest);
    MoveOver(done, rest);
  }

  lemma MoveOver(done: seq<int>, rest: seq<int>)
    requires rest != []
    ensures RemoveAt(done + rest, |done|) == done + rest[1..] && done + rest == (done + [rest[0]]) + rest[1..]
  {
    assert rest == [rest[0]] + rest[1..];
    assert (done + rest)[..|done|] == done && (done + rest)[|done| + 1..] == rest[1..];
  }

  lemma FilterNone(p: int -> bool)
    ensures Filter(p, []) == []
  {
  }

  lemma NoChange<T>(m: Image<T>, nodes: set<int>)
    ensures Outside(m, m, nodes)
  {
  }

  lemma StartStop(h: int, s: seq<int>)
    ensures Stop(h, s, 0) == h && Stop(h, s, |s| + 1) == h
  {
  }

  lemma StopBack(h: int, s: seq<int>, k: nat)
    requires Apart(h, s) && 0 < k <= |s| + 1
    ensures Stop(h, s, k) == h <==> k == |s| + 1
  {
  }

  /** The links of the first `k` stops are swapped, all others are as they were. */
  ghost predicate Swapped(nx: Field, pv: Field, nx': Field, pv': Field, h: int, s: seq<int>, k: nat) {
    && nx'.Keys == nx.Keys && pv'.Keys == pv.Keys
    && (forall i :: 0 <= i < k && i <= |s| ==>
          var x := Stop(h, s, i); x in nx && x in pv && nx'[x] == pv[x] && pv'[x] == nx[x])
    && (forall i :: k <= i <= |s| ==>
          var x := Stop(h, s, i); x in nx && x in pv && nx'[x] == nx[x] && pv'[x] == pv[x])
    && SameOutside(nx, nx', Span(h, s)) && SameOutside(pv, pv', Span(h, s))
  }

  ghost predicate SameOutside(f: Field, f': Field, xs: set<int>) {
    forall x :: x in f && x !in xs ==> x in f' && f'[x] == f[x]
  }

  lemma NothingSwapped(nx: Field, pv: Field, h: int, s: seq<int>)
    requires Ring(nx, pv, h, s)
    ensures Swapped(nx, pv, nx, pv, h, s, 0)
  {
    forall i | 0 <= i <= |s| ensures Stop(h, s, i) in nx && Stop(h, s, i) in pv {
      RingAt(nx, pv, h, s, i);
    }
  }

  lemma SwapOne(nx: Field, pv: Field, nx': Field, pv': Field, h: int, s: seq<int>, k: nat)
    requires Apart(h, s) && Swapped(nx, pv, nx', pv', h, s, k) && k <= |s|
    ensures var x := Stop(h, s, k);
            x in nx' && x in pv' && nx'[x] == nx[x] && Swapped(nx, pv, nx'[x := pv'[x]], pv'[x := nx'[x]], h, s, k + 1)
  {
    var x := Stop(h, s, k);
    StopIn(h, s, k);
    forall i | 0 <= i <= |s| && i != k ensures Stop(h, s, i) != x {
      StopsApart(h, s, i, k);
    }
  }

  lemma SwappedRing(nx: Field, pv: Field, nx': Field, pv': Field, h: int, s: seq<int>)
    requires Ring(nx, pv, h, s) && Swapped(nx, pv, nx', pv', h, s, |s| + 1)
    ensures Ring(nx', pv', h, Reversed(s))
  {
    var r := Reversed(s);
    forall i | 0 <= i <= |r| ensures Edge(nx', pv', Stop(h, r, i), Stop(h, r, i + 1)) {
      RingAt(nx, pv, h, s, |s| - i);
      var j := if i == 0 then 0 else |s| + 1 - i;
      RingAt(nx, pv, h, s, j);
      assert Stop(h, r, i) == Stop(h, s, j) && Stop(h, r, i + 1) == Stop(h, s, |s| - i);
    }
  }

  /** A rearrangement of different nodes is a sequence of different nodes. */
  lemma SortedApart(h: int, s: seq<int>, r: seq<int>)
    requires Apart(h, s) && multiset(r) == multiset(s)
    ensures Apart(h, r)
  {
    OncePerNode(s);
    forall x | x in r ensures x in s && x != h {
      assert x in multiset(r);
    }
    forall i, j | 0 <= i < j < |r| ensures r[i] != r[j] {
      assert r[i] in multiset(r) && multiset(s)[r[i]] == 1;
      if r[i] == r[j] { Twice(r, i, j); }
    }
  }

  lemma Twice(r: seq<int>, i: nat, j: nat)
    requires i < j < |r| && r[i] == r[j]
    ensures multiset(r)[r[i]] >= 2
  {
    assert r == r[..i] + [r[i]] + r[i + 1..j] + [r[j]] + r[j + 1..];
  }

  lemma {:induction false} OncePerNode(s: seq<int>)
    requires NoRepeats(s)
    ensures forall x :: x in s ==> multiset(s)[x] == 1
    decreases |s|
  {
    if s != [] {
      OncePerNode(s[1..]);
      assert s == [s[0]] + s[1..];
      forall x | x in s[1..] ensures x != s[0] {
        var i :| 0 <= i < |s[1..]| && s[1..][i] == x;
        assert s[i + 1] == x;
      }
    }
  }

  lemma SortedShort<T>(less: (T, T) -> bool, v: map<int, T>, s: seq<int>)
    requires Covers(v, s) && |s| < 2
    ensures StableSorted(less, v, s) == s
  {
    if s != [] { assert s[1..] == []; }
  }

  lemma SortedSize<T>(less: (T, T) -> bool, v: map<int, T>, s: seq<int>)
    requires Covers(v, s)
    ensures |StableSorted(less, v, s)| == |s|
  {
    var r := StableSorted(less, v, s);
    assert |multiset(r)| == |r| && |multiset(s)| == |s|;
  }

  lemma JoinApart<T>(h: int, h': int, m: Image<T>, s: seq<int>, t: seq<int>)
    requires MemoryOk(m) && RingIn(m, h, s) && RingIn(m, h', t) && Nodes(s) !! Nodes(t)
    ensures Apart(h, s + t) && Covers(m.value, s + t)
  {
    var r := s + t;
    forall x | x in t ensures x != h { assert x in Nodes(t); }
    forall i, j | 0 <= i < j < |r| ensures r[i] != r[j] {
      if i < |s| && |s| <= j {
        assert r[i] in Nodes(s) && r[j] in Nodes(t);
      } else if |s| <= i {
        assert r[i] == t[i - |s|] && r[j] == t[j - |s|];
      }
    }
  }

  lemma SortedNodes<T>(less: (T, T) -> bool, v: map<int, T>, s: seq<int>)
    requires Covers(v, s)
    ensures var r := StableSorted(less, v, s);
            Nodes(r) == Nodes(s) && multiset(r) == multiset(s) && |r| == |s| && Covers(v, r)
  {
    SortedSize(less, v, s);
  }

  /** The memory after its links were rewritten in a new order. */
  lemma RelinkedImage<T>(m: Image<T>, m': Image<T>, h: int, r: seq<int>)
    requires Apart(h, r) && Nodes(r) <= m.owned && h in m.anchors && Covers(m.value, r) && Ring(m'.next, m'.prev, h, r)
    requires m'.owned == m.owned && m'.anchors == m.anchors && m'.value == m.value
    requires SameOutside(m.next, m'.next, Span(h, r)) && SameOutside(m.prev, m'.prev, Span(h, r))
    ensures RingIn(m', h, r) && Outside(m, m', Span(h, r))
  {
  }

  lemma EmptiedImage<T>(m: Image<T>, h: int)
    requires h in m.anchors
    ensures var m' := m.(prev := m.prev[h := h], next := m.next[h := h]); RingIn(m', h, []) && Outside(m, m', {h})
  {
    EmptyRing(m.next, m.prev, h);
  }

  lemma AtEnd(h: int, s: seq<int>, k: nat)
    requires Apart(h, s) && k <= |s|
    ensures Stop(h, s, k + 1) == h <==> k == |s|
  {
  }

  lemma EmptyApart(h: int)
    ensures Apart(h, [])
  {
  }

  /** The node at a stop, and that it does not occur before. */
  lemma NodeAt(h: int, s: seq<int>, k: nat)
    requires Apart(h, s) && k < |s|
    ensures Stop(h, s, k + 1) == s[k] && s[k] in Nodes(s) && s[k] !in Nodes(s[..k])
  {
    assert s[k] in s;
    assert forall i :: 0 <= i < k ==> s[..k][i] == s[i];
  }

  /** Where the range begins when `left` of its nodes are left. */
  lemma StopThere(h: int, s: seq<int>, i: nat, j: nat, left: nat)
    requires Apart(h, s) && i <= j <= |s| && left <= j - i
    ensures var r := s[..i] + s[j - left..]; Stop(h, r, i + 1) == Stop(h, s, j + 1) <==> left == 0
  {
    var r := s[..i] + s[j - left..];
    if left > 0 {
      assert r[i] == s[j - left];
      StopsApart(h, s, j - left, j);
    }
  }
}
