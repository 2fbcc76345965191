/** `SharedMemoryHashTable`: every node is on two doubly linked lists, the chain of its bucket and
    the list that gives the iteration order. */
module HashTables {
  import opened Links
  import opened NodePools

  /** Null is the anchor of both kinds of list: its links are the list's head and tail. */
  ghost predicate Listed(nx: Field, pv: Field, head: int, tail: int, s: seq<int>) {
    Ring(nx[0 := head], pv[0 := tail], 0, s) && Apart(0, s)
  }

  /** A bucket chain has a head but no tail. */
  ghost predicate Chained(nx: Field, pv: Field, top: int, s: seq<int>) {
    Listed(nx, pv, top, Last(0, s), s)
  }

  function Index<K>(hash: K -> nat, k: K, n: nat): (b: nat)
    ensures n > 0 ==> b < n
  {
    if n == 0 then 0 else hash(k) % n
  }

  /** Each node is in exactly one chain, that of its hash modulo the number of buckets. */
  ghost predicate BucketsIn<K>(hash: K -> nat, key: map<int, K>, nx: Field, pv: Field, tops: seq<int>,
                               chains: seq<seq<int>>, items: seq<int>) {
    && |chains| == |tops|
    && (forall b :: 0 <= b < |tops| ==> Chained(nx, pv, tops[b], chains[b]))
    && (forall b, x :: 0 <= b < |tops| && x in chains[b] ==> x in items && x in key && Index(hash, key[x], |tops|) == b)
    && (forall x :: x in items ==> x in key && |tops| > 0 && x in chains[Index(hash, key[x], |tops|)])
  }

  /** How many buckets a request for `requested` gets: 8 by default, and enough for the nodes there are. */
  function BucketsFor(requested: nat, size: nat): (n: nat)
    ensures n > 0 && size <= n
    ensures 0 < size <= requested ==> n == requested
    ensures 0 < requested < size ==> n == size
    ensures size == 0 ==> n == if requested > 8 then requested else 8
    ensures requested == 0 ==> n == if size > 8 then size else 8
  {
    var r := if requested == 0 then 8 else requested;
    var least := if size == 0 then 8 else size;
    if r < least then least else r
  }

  /** Hash and equality fit together. */
  ghost predicate EqualityOk<K(!new)>(hash: K -> nat, eq: (K, K) -> bool) {
    && (forall a :: eq(a, a))
    && (forall a, b :: eq(a, b) ==> eq(b, a) && hash(a) == hash(b))
    && (forall a, b, c :: eq(a, b) && eq(b, c) ==> eq(a, c))
  }

  /** No two nodes have equal keys. */
  ghost predicate DistinctKeys<K>(eq: (K, K) -> bool, key: map<int, K>, items: seq<int>) {
    forall x, y :: x in items && y in items && x in key && y in key && eq(key[x], key[y]) ==> x == y
  }

  // ---------------------------------------------------------------- one list

  lemma ListedFrame(nx: Field, pv: Field, nx': Field, pv': Field, head: int, tail: int, s: seq<int>)
    requires Listed(nx, pv, head, tail, s) && SameOn(nx, nx', Nodes(s)) && SameOn(pv, pv', Nodes(s))
    ensures Listed(nx', pv', head, tail, s)
  {
    hide Ring, Apart;
    RingFrame(nx[0 := head], pv[0 := tail], nx'[0 := head], pv'[0 := tail], 0, s);
  }

  lemma ListedEmpty(nx: Field, pv: Field)
    ensures Listed(nx, pv, 0, 0, [])
  {
    EmptyRing(nx, pv, 0);
  }

  /** The ends of a list, and the neighbours of its `k`-th node. */
  lemma ListedAt(nx: Field, pv: Field, head: int, tail: int, s: seq<int>, k: nat)
    requires Listed(nx, pv, head, tail, s) && k < |s|
    ensures s[k] != 0 && s[k] in nx && s[k] in pv && nx[s[k]] == Stop(0, s, k + 2) && pv[s[k]] == Stop(0, s, k)
  {
    assert s[k] in s;
    RingAt(nx[0 := head], pv[0 := tail], 0, s, k + 1);
  }

  lemma ListedEnds(nx: Field, pv: Field, head: int, tail: int, s: seq<int>)
    requires Listed(nx, pv, head, tail, s)
    ensures head == First(0, s) && tail == Last(0, s) && (head == 0 <==> s == []) && (tail == 0 <==> s == [])
  {
    RingAt(nx[0 := head], pv[0 := tail], 0, s, 0);
    assert s != [] ==> s[0] in s && s[|s| - 1] in s;
  }

  /** The stores that put `x` in front of a list. */
  lemma PushedFront(nx: Field, pv: Field, head: int, tail: int, s: seq<int>, x: int)
    requires Listed(nx, pv, head, tail, s) && x != 0 && x !in s
    ensures var nx' := nx[x := head];
            var pv' := if head == 0 then pv[x := 0] else pv[x := 0][head := x];
            Listed(nx', pv', x, if s == [] then x else tail, [x] + s)
  {
    ListedEnds(nx, pv, head, tail, s);
    var f, g := nx[0 := head], pv[0 := tail];
    assert [] + s == s && [] + [x] + s == [x] + s;
    assert Nodes([x]) == {x};
    ApartJoin(0, [], [x], s);
    PasteRun(f, g, 0, [], [x], s);
    var nx', pv' := nx[x := head], if head == 0 then pv[x := 0] else pv[x := 0][head := x];
    assert nx'[0 := x] == f[0 := x][x := head];
    assert pv'[0 := if s == [] then x else tail] == g[x := 0][First(0, s) := x];
  }

  /** The stores that put `x` behind a list. */
  lemma PushedBack(nx: Field, pv: Field, head: int, tail: int, s: seq<int>, x: int)
    requires Listed(nx, pv, head, tail, s) && x != 0 && x !in s
    ensures var nx' := if tail == 0 then nx[x := 0] else nx[x := 0][tail := x];
            Listed(nx', pv[x := tail], if s == [] then x else head, x, s + [x])
  {
    ListedEnds(nx, pv, head, tail, s);
    var f, g := nx[0 := head], pv[0 := tail];
    assert s + [] == s && s + [x] + [] == s + [x];
    assert Nodes([x]) == {x};
    ApartJoin(0, s, [x], []);
    PasteRun(f, g, 0, s, [x], []);
    var nx' := if tail == 0 then nx[x := 0] else nx[x := 0][tail := x];
    assert nx'[0 := if s == [] then x else head] == f[Last(0, s) := x][x := 0];
    assert pv[x := tail][0 := x] == g[x := tail][0 := x];
  }

  /** Links with the `k`-th node taken out, as `unlink_bucket` and `unlink_iteration` leave them. */
  ghost function NextWithout(nx: Field, s: seq<int>, k: nat): Field
    requires k < |s|
  {
    if k == 0 then nx else nx[s[k - 1] := Stop(0, s, k + 2)]
  }

  ghost function PrevWithout(pv: Field, s: seq<int>, k: nat): Field
    requires k < |s|
  {
    if k + 1 == |s| then pv else pv[s[k + 1] := Stop(0, s, k)]
  }

  lemma TakenOut(nx: Field, pv: Field, head: int, tail: int, s: seq<int>, k: nat)
    requires Listed(nx, pv, head, tail, s) && k < |s|
    ensures var s' := s[..k] + s[k + 1..];
            && s[k] !in s'
            && Listed(NextWithout(nx, s, k), PrevWithout(pv, s, k),
                      if k == 0 then Stop(0, s, 2) else head, if k + 1 == |s| then Stop(0, s, k) else tail, s')
  {
    var a, x, b := s[..k], s[k], s[k + 1..];
    assert s == a + [x] + b;
    var f, g := nx[0 := head], pv[0 := tail];
    CutRun(f, g, 0, a, [x], b);
    ApartParts(0, a, [x], b);
    assert x in Nodes([x]);
    assert k > 0 ==> s[k - 1] in s;
    assert k + 1 < |s| ==> s[k + 1] in s;
    assert Last(0, a) == Stop(0, s, k) && First(0, b) == Stop(0, s, k + 2);
    assert NextWithout(nx, s, k)[0 := if k == 0 then Stop(0, s, 2) else head] == f[Last(0, a) := First(0, b)];
    assert PrevWithout(pv, s, k)[0 := if k + 1 == |s| then Stop(0, s, k) else tail] == g[First(0, b) := Last(0, a)];
  }

  // ---------------------------------------------------------------- all buckets

  lemma ChainNodes<K>(hash: K -> nat, key: map<int, K>, nx: Field, pv: Field, tops: seq<int>, chains: seq<seq<int>>,
                      items: seq<int>, b: nat, c: nat)
    requires BucketsIn(hash, key, nx, pv, tops, chains, items) && b < |tops| && c < |tops| && b != c
    ensures Nodes(chains[b]) !! Nodes(chains[c]) && Nodes(chains[c]) <= Nodes(items)
  {
    hide Chained, Index;
    forall x | x in chains[b] ensures x !in chains[c] {
      assert Index(hash, key[x], |tops|) == b;
    }
    forall x | x in chains[c] ensures x in Nodes(items) {
      assert x in items;
    }
  }

  lemma BucketsFrame<K>(hash: K -> nat, key: map<int, K>, nx: Field, pv: Field, nx': Field, pv': Field,
                        tops: seq<int>, chains: seq<seq<int>>, items: seq<int>)
    requires BucketsIn(hash, key, nx, pv, tops, chains, items) && SameOn(nx, nx', Nodes(items))
             && SameOn(pv, pv', Nodes(items))
    ensures BucketsIn(hash, key, nx', pv', tops, chains, items)
  {
    hide Listed, Index;
    forall b | 0 <= b < |tops| ensures Chained(nx', pv', tops[b], chains[b]) {
      assert forall x :: x in chains[b] ==> x in Nodes(items);
      assert Nodes(chains[b]) <= Nodes(items);
      ListedFrame(nx, pv, nx', pv', tops[b], Last(0, chains[b]), chains[b]);
    }
  }

  /** Putting a node in front of its bucket's chain. */
  lemma BucketAdded<K>(hash: K -> nat, key: map<int, K>, nx: Field, pv: Field, tops: seq<int>,
                       chains: seq<seq<int>>, items: seq<int>, x: int)
    requires BucketsIn(hash, key, nx, pv, tops, chains, items) && x != 0 && x in key && x !in items && |tops| > 0
    ensures var b := Index(hash, key[x], |tops|);
            var pv' := if tops[b] == 0 then pv[x := 0] else pv[x := 0][tops[b] := x];
            BucketsIn(hash, key, nx[x := tops[b]], pv', tops[b := x], chains[b := [x] + chains[b]], items + [x])
  {
    hide Listed, Index;
    var b := Index(hash, key[x], |tops|);
    var top, s := tops[b], chains[b];
    var nx', pv' := nx[x := top], if top == 0 then pv[x := 0] else pv[x := 0][top := x];
    assert x !in s;
    ListedEnds(nx, pv, top, Last(0, s), s);
    PushedFront(nx, pv, top, Last(0, s), s, x);
    assert Last(0, [x] + s) == if s == [] then x else Last(0, s);
    forall c | 0 <= c < |tops| && c != b ensures Chained(nx', pv', tops[c], chains[c]) {
      ChainNodes(hash, key, nx, pv, tops, chains, items, b, c);
      assert x !in Nodes(chains[c]) && (s != [] ==> top in Nodes(s));
      ListedFrame(nx, pv, nx', pv', tops[c], Last(0, chains[c]), chains[c]);
    }
  }

  /** Taking a node out of its bucket's chain. */
  lemma BucketTaken<K>(hash: K -> nat, key: map<int, K>, nx: Field, pv: Field, tops: seq<int>,
                       chains: seq<seq<int>>, items: seq<int>, b: nat, k: nat, items': seq<int>)
    requires BucketsIn(hash, key, nx, pv, tops, chains, items) && b < |tops| && k < |chains[b]|
    requires forall y :: y in items' <==> y in items && y != chains[b][k]
    ensures var s := chains[b];
            BucketsIn(hash, key, NextWithout(nx, s, k), PrevWithout(pv, s, k),
                      if k == 0 then tops[b := Stop(0, s, 2)] else tops, chains[b := s[..k] + s[k + 1..]], items')
  {
    hide Listed, Index, Stop, NextWithout, PrevWithout;
    var s := chains[b];
    var x, s', nx', pv' := s[k], s[..k] + s[k + 1..], NextWithout(nx, s, k), PrevWithout(pv, s, k);
    TakenOut(nx, pv, tops[b], Last(0, s), s, k);
    LastWithout(s, k);
    LessOne(s, k);
    forall c | 0 <= c < |tops| && c != b ensures Chained(nx', pv', tops[c], chains[c]) {
      ChainNodes(hash, key, nx, pv, tops, chains, items, b, c);
      WithoutFrame(nx, pv, s, k, Nodes(chains[c]));
      ListedFrame(nx, pv, nx', pv', tops[c], Last(0, chains[c]), chains[c]);
    }
  }

  lemma LessOne(s: seq<int>, k: nat)
    requires k < |s|
    ensures forall y :: y in s <==> y in s[..k] + s[k + 1..] || y == s[k]
  {
    assert s == s[..k] + [s[k]] + s[k + 1..];
  }

  /** Links of nodes that are not in the chain stay. */
  lemma WithoutFrame(nx: Field, pv: Field, s: seq<int>, k: nat, nodes: set<int>)
    requires k < |s| && nodes !! Nodes(s)
    ensures forall y :: y in nodes && y in nx ==> y in NextWithout(nx, s, k) && NextWithout(nx, s, k)[y] == nx[y]
    ensures forall y :: y in nodes && y in pv ==> y in PrevWithout(pv, s, k) && PrevWithout(pv, s, k)[y] == pv[y]
  {
    NeighboursIn(s, k);
  }

  lemma NeighboursIn(s: seq<int>, k: nat)
    requires k < |s|
    ensures k > 0 ==> s[k - 1] in Nodes(s)
    ensures k + 1 < |s| ==> s[k + 1] in Nodes(s)
  {
  }

  lemma LastWithout(s: seq<int>, k: nat)
    requires k < |s|
    ensures Last(0, s[..k] + s[k + 1..]) == if k + 1 == |s| then Stop(0, s, k) else Last(0, s)
  {
  }

  lemma EmptyBuckets<K>(hash: K -> nat, key: map<int, K>, nx: Field, pv: Field, tops: seq<int>)
    requires forall b :: 0 <= b < |tops| ==> tops[b] == 0
    ensures BucketsIn(hash, key, nx, pv, tops, seq(|tops|, _ => []), [])
  {
    ListedEmpty(nx, pv);
  }

  // ---------------------------------------------------------------- nodes and cache in one memory

  /** Apart from the given nodes the field is as before. */
  ghost predicate OnlyAt(f: Field, f': Field, nodes: set<int>) {
    forall x :: x in f && x !in nodes ==> x in f' && f'[x] == f[x]
  }

  /** A cache apart from the nodes that were touched is still there. */
  lemma CacheApart(f: Field, f': Field, nodes: set<int>, top: int, cached: seq<int>)
    requires Stack(f, top, cached) && OnlyAt(f, f', nodes) && nodes !! Nodes(cached)
    ensures Stack(f', top, cached)
  {
    forall x | x in Nodes(cached) ensures x in f && x in f' && f'[x] == f[x] {
      var i :| 0 <= i < |cached| && cached[i] == x;
    }
    StackFrame(f, f', top, cached);
  }

  lemma OnlyAtMore(f: Field, g: Field, h: Field, s: seq<int>, j: nat)
    requires OnlyAt(f, g, Nodes(s)) && j < |s| && OnlyAt(g, h, Nodes(s[..j]) + {s[j]})
    ensures OnlyAt(f, h, Nodes(s))
  {
    assert forall x :: x in Nodes(s[..j]) + {s[j]} ==> x in Nodes(s);
  }

  /** A bucket is empty or starts with a node of the table. */
  lemma TopsIn<K>(hash: K -> nat, key: map<int, K>, nx: Field, pv: Field, tops: seq<int>, chains: seq<seq<int>>,
                  items: seq<int>)
    requires BucketsIn(hash, key, nx, pv, tops, chains, items)
    ensures forall b :: 0 <= b < |tops| && tops[b] != 0 ==> tops[b] in Nodes(items)
  {
    forall b | 0 <= b < |tops| && tops[b] != 0 ensures tops[b] in Nodes(items) {
      ListedEnds(nx, pv, tops[b], Last(0, chains[b]), chains[b]);
      assert tops[b] in chains[b];
    }
  }

  /** The nodes of the table have links. */
  lemma LinkedPrev<K>(hash: K -> nat, key: map<int, K>, nx: Field, pv: Field, tops: seq<int>, chains: seq<seq<int>>,
                      items: seq<int>)
    requires BucketsIn(hash, key, nx, pv, tops, chains, items)
    ensures forall x :: x in Nodes(items) ==> x in pv && x in nx
  {
    forall x | x in Nodes(items) ensures x in pv && x in nx {
      assert x in items;
      var b := Index(hash, key[x], |tops|);
      var k :| 0 <= k < |chains[b]| && chains[b][k] == x;
      ListedAt(nx, pv, tops[b], Last(0, chains[b]), chains[b], k);
    }
  }

  /** A node that has left the cache joins the table. */
  lemma NodesGrown(s: seq<int>, x: int, cached: seq<int>, was: seq<int>)
    requires Nodes(s) !! Nodes(was) && x !in cached && (cached == [] || (was != [] && cached == was[1..]))
    ensures Nodes(s + [x]) == Nodes(s) + {x} && Nodes(s + [x]) !! Nodes(cached)
  {
    assert forall y :: y in cached ==> y in Nodes(was);
  }

  /** A node that has left the table joins the cache. */
  lemma NodesShrunk(s: seq<int>, x: int, rest: seq<int>, cached: seq<int>)
    requires Nodes(s) !! Nodes(cached) && forall y :: y in rest <==> y in s && y != x
    ensures Nodes(rest) <= Nodes(s) && Nodes(rest) !! Nodes([x] + cached)
  {
    assert forall y :: y in [x] + cached ==> y == x || y in Nodes(cached);
    assert forall y :: y in rest ==> y in Nodes(s);
  }

  /** The next node to be recycled is not in the cache yet. */
  lemma NotRecycled(s: seq<int>, j: nat, cached: seq<int>)
    requires j < |s| && s[j] !in s[..j] && Nodes(s) !! Nodes(cached)
    ensures s[j] !in Reversed(s[..j]) + cached && s[j] in Nodes(s)
    ensures [s[j]] + (Reversed(s[..j]) + cached) == Reversed(s[..j + 1]) + cached
  {
    ReversedNodes(s[..j]);
    assert s[j] in Nodes(s) && s[j] !in Nodes(s[..j]);
    assert forall x :: x in Reversed(s[..j]) ==> x in Nodes(Reversed(s[..j]));
    assert forall x :: x in cached ==> x in Nodes(cached);
    assert Reversed(s[..j + 1]) == [s[j]] + Reversed(s[..j]);
  }

  class HashTable<K(!new), V> {
    const hash: K -> nat
    const eq: (K, K) -> bool
    /** The first two words of a node are its links to the neighbours in its bucket. */
    const mem: NodeMemory<(K, V)>
    const pool: NodePool<(K, V)>
    var buckets: array<int>
    var size: nat
    var head: int
    var tail: int
    var iterPrev: Field
    var iterNext: Field
    var key: map<int, K>
    var value: map<int, V>
    /** The nodes in iteration order, and those of every bucket. */
    ghost var items: seq<int>
    ghost var chains: seq<seq<int>>

    ghost predicate Shaped()
      reads this, buckets, mem
    {
      && EqualityOk(hash, eq) && DistinctKeys(eq, key, items)
      && BucketsIn(hash, key, mem.next, mem.prev, buckets[..], chains, items)
      && Listed(iterNext, iterPrev, head, tail, items)
      && size == |items| && size <= buckets.Length && (forall x :: x in items ==> x in value)
    }

    /** Node storage is conserved: what was allocated is in the table or in the cache, and nothing is in both. */
    ghost predicate Pooled()
      reads this, mem, pool
    {
      && pool.mem == mem && pool.Valid()
      && Nodes(items) <= mem.owned && Nodes(items) !! Nodes(pool.cached)
      && pool.allocations == size + pool.cachedCount
    }

    ghost predicate Valid()
      reads this, buckets, mem, pool
    {
      Shaped() && Pooled()
    }

    /** A node with a key equal to `k`. */
    ghost predicate Matches(k: K, x: int)
      reads this
    {
      x in items && x in key && eq(key[x], k)
    }

    constructor (hash: K -> nat, eq: (K, K) -> bool, requested: nat, mem: NodeMemory<(K, V)>)
      requires EqualityOk(hash, eq) && mem.Valid()
      ensures this.mem == mem && fresh(pool) && pool.cached == []
      ensures Valid() && items == [] && fresh(buckets) && this.hash == hash && this.eq == eq
      ensures buckets.Length == if requested == 0 then 8 else requested
    {
      this.hash, this.eq := hash, eq;
      var n := if requested == 0 then 8 else requested;
      buckets := new int[n](_ => 0);
      size, head, tail, key, value := 0, 0, 0, map[], map[];
      iterPrev, iterNext := map[], map[];
      this.mem := mem;
      pool := new NodePool(mem);
      items, chains := [], seq(n, _ => []);
      new;
      EmptyBuckets(hash, key, mem.next, mem.prev, buckets[..]);
      ListedEmpty(iterNext, iterPrev);
    }

    /** A table whose contents were moved away: it has no buckets until the next insertion. */
    constructor MovedFrom(hash: K -> nat, eq: (K, K) -> bool, mem: NodeMemory<(K, V)>)
      requires EqualityOk(hash, eq) && mem.Valid()
      ensures this.mem == mem && fresh(pool) && pool.cached == []
      ensures Valid() && items == [] && fresh(buckets) && buckets.Length == 0 && this.hash == hash && this.eq == eq
    {
      this.hash, this.eq := hash, eq;
      buckets := new int[0];
      size, head, tail, key, value := 0, 0, 0, map[], map[];
      iterPrev, iterNext := map[], map[];
      this.mem := mem;
      pool := new NodePool(mem);
      items, chains := [], [];
      new;
      EmptyBuckets(hash, key, mem.next, mem.prev, buckets[..]);
      ListedEmpty(iterNext, iterPrev);
      assert chains == seq(|buckets[..]|, _ => []);
    }

    /** `find_node`: the walk along one bucket finds what a search of the whole list would find. */
    method FindNode(k: K) returns (r: int)
      requires Shaped()
      ensures r != 0 ==> Matches(k, r)
      ensures r == 0 ==> forall x :: !Matches(k, x)
    {
      hide Listed;
      if buckets.Length == 0 {
        return 0;
      }
      var index := hash(k) % buckets.Length;
      ghost var s, j := chains[index], 0;
      r := buckets[index];
      assert Chained(mem.next, mem.prev, buckets[..][index], s);
      ListedEnds(mem.next, mem.prev, r, Last(0, s), s);
      while r != 0
        invariant 0 <= j <= |s| && r == Stop(0, s, j + 1) && (r == 0 <==> j == |s|)
        invariant forall i :: 0 <= i < j ==> s[i] in key && !eq(key[s[i]], k)
        decreases |s| - j
      {
        ListedAt(mem.next, mem.prev, buckets[index], Last(0, s), s, j);
        assert s[j] in s;
        if eq(key[r], k) {
          return;
        }
        r := mem.next[r];
        j := j + 1;
        if j < |s| { ListedAt(mem.next, mem.prev, buckets[index], Last(0, s), s, j); }
      }
      SearchCovers(k, index);
    }

    /** A matching node is in the chain that is searched. */
    lemma SearchCovers(k: K, index: nat)
      requires Shaped() && buckets.Length > 0 && index == hash(k) % buckets.Length
      ensures forall x :: Matches(k, x) ==> exists i :: 0 <= i < |chains[index]| && chains[index][i] == x
    {
      hide Listed;
      forall x | Matches(k, x) ensures exists i :: 0 <= i < |chains[index]| && chains[index][i] == x {
        assert x in chains[Index(hash, key[x], buckets.Length)];
      }
    }

    /** Put a node in front of the chain of its bucket. */
    method LinkBucket(table: array<int>, node: int, ghost s: seq<int>)
      requires BucketsIn(hash, key, mem.next, mem.prev, table[..], chains, s)
      requires node != 0 && node !in s && node in key && table.Length > 0
      modifies table, mem`prev, mem`next, this`chains
      ensures BucketsIn(hash, key, mem.next, mem.prev, table[..], chains, s + [node])
      ensures OnlyAt(old(mem.prev), mem.prev, Nodes(s) + {node})
    {
      hide BucketsIn;
      ghost var tops, cs := table[..], chains;
      TopsIn(hash, key, mem.next, mem.prev, tops, cs, s);
      BucketCount(hash, key, mem.next, mem.prev, tops, cs, s);
      BucketAdded(hash, key, mem.next, mem.prev, tops, cs, s, node);
      var index := hash(key[node]) % table.Length;
      mem.prev := mem.prev[node := 0];
      mem.next := mem.next[node := table[index]];
      if mem.next[node] != 0 {
        mem.prev := mem.prev[mem.next[node] := node];
      }
      table[index] := node;
      assert table[..] == tops[index := node];
      chains := cs[index := [node] + cs[index]];
    }

    /** `link_new_node`. */
    method LinkNewNode(node: int)
      requires BucketsIn(hash, key, mem.next, mem.prev, buckets[..], chains, items)
               && Listed(iterNext, iterPrev, head, tail, items)
      requires node != 0 && node !in items && node in key && buckets.Length > 0
      modifies mem`prev, mem`next, this`chains, this`iterPrev, this`iterNext, this`head, this`tail, this`items, buckets
      ensures BucketsIn(hash, key, mem.next, mem.prev, buckets[..], chains, items)
              && Listed(iterNext, iterPrev, head, tail, items)
      ensures items == old(items) + [node] && OnlyAt(old(mem.prev), mem.prev, Nodes(old(items)) + {node})
    {
      hide Listed, BucketsIn;
      LinkBucket(buckets, node, items);
      ListedEnds(iterNext, iterPrev, head, tail, items);
      PushedBack(iterNext, iterPrev, head, tail, items, node);
      iterPrev := iterPrev[node := tail];
      iterNext := iterNext[node := 0];
      if tail != 0 {
        iterNext := iterNext[tail := node];
      } else {
        head := node;
      }
      tail := node;
      items := items + [node];
    }

    /** `insert_value`: an absent key is added at the end of the iteration order, in a node from the cache or in
        new storage at `at`; a present one changes nothing, and a constructor that throws no contents. */
    method Insert(k: K, v: V, at: int, throws: bool) returns (r: int, inserted: bool)
      requires Valid() && at != 0 && at !in mem.owned && at !in mem.anchors
      modifies this, buckets, pool, mem
      ensures Valid() && (buckets == old(buckets) || fresh(buckets))
      ensures (r != 0 && !inserted) || |old(items)| < old(buckets.Length) ==> buckets == old(buckets)
      ensures (inserted || r == 0) && |old(items)| == old(buckets.Length) ==>
                buckets.Length == if old(buckets.Length) == 0 then 8 else 2 * old(buckets.Length)
      ensures inserted <==> !throws && forall x :: !old(Matches(k, x))
      ensures r == 0 <==> throws && forall x :: !old(Matches(k, x))
      ensures !inserted ==> items == old(items) && key == old(key) && value == old(value)
      ensures !inserted ==> pool.cached == old(pool.cached) && mem.owned == old(mem.owned)
      ensures !inserted && r != 0 ==> Matches(k, r)
      ensures inserted ==> items == old(items) + [r] && key == old(key)[r := k] && value == old(value)[r := v]
      ensures inserted ==> r == (if old(pool.cached) == [] then at else old(pool.cached)[0])
      ensures inserted ==> pool.cached == (if old(pool.cached) == [] then [] else old(pool.cached)[1..])
      ensures inserted ==> mem.owned == old(mem.owned) + {r}
    {
      hide Listed, BucketsIn, Stack, EqualityOk, DistinctKeys;
      var existing := FindNode(k);
      if existing != 0 {
        return existing, false;
      }
      assert forall x :: x in items && x in key ==> !eq(key[x], k) by {
        forall x | x in items && x in key ensures !eq(key[x], k) {
          assert !Matches(k, x);
        }
      }
      MakeRoom();
      r := AddNode(k, v, at, throws);
      inserted := !throws;
    }

    /** `maybe_rehash_for_insert`. */
    method MakeRoom()
      requires Valid()
      modifies this, mem`prev, mem`next
      ensures Valid() && items == old(items) && key == old(key) && value == old(value) && size == old(size)
      ensures size < buckets.Length && (buckets == old(buckets) || fresh(buckets))
      ensures size < old(buckets.Length) ==> buckets == old(buckets)
      ensures size == old(buckets.Length) ==>
                buckets.Length == if old(buckets.Length) == 0 then 8 else 2 * old(buckets.Length)
    {
      hide Listed, BucketsIn, Stack, EqualityOk, DistinctKeys;
      if size + 1 > buckets.Length {
        Rehash(if buckets.Length == 0 then 8 else 2 * buckets.Length);
      }
    }

    /** A new node for an absent key, at the end of the iteration order. */
    method AddNode(k: K, v: V, at: int, throws: bool) returns (r: int)
      requires Valid() && at != 0 && at !in mem.owned && at !in mem.anchors && size < buckets.Length
      requires forall x :: x in items && x in key ==> !eq(key[x], k)
      modifies this, buckets, pool, mem
      ensures Valid() && buckets == old(buckets)
      ensures r == 0 <==> throws
      ensures r == 0 ==> items == old(items) && key == old(key) && value == old(value)
      ensures r == 0 ==> pool.cached == old(pool.cached) && mem.owned == old(mem.owned)
      ensures r != 0 ==> items == old(items) + [r] && key == old(key)[r := k] && value == old(value)[r := v]
      ensures r != 0 ==> r == (if old(pool.cached) == [] then at else old(pool.cached)[0])
      ensures r != 0 ==> pool.cached == (if old(pool.cached) == [] then [] else old(pool.cached)[1..])
      ensures r != 0 ==> mem.owned == old(mem.owned) + {r}
    {
      hide Listed, BucketsIn, Stack, EqualityOk, DistinctKeys, OnlyAt;
      ghost var s, was := items, pool.cached;
      r := CreateNode(k, v, at, throws);
      if throws {
        return 0;
      }
      ghost var pv := mem.prev;
      NodesGrown(s, r, pool.cached, was);
      Enter(r, k, v);
      CacheApart(pv, mem.prev, Nodes(s + [r]), pool.freeNodes, pool.cached);
    }

    /** The new node gets its pair and joins both of its lists. */
    method Enter(node: int, k: K, v: V)
      requires Shaped() && node != 0 && node !in items && size < buckets.Length
      requires forall x :: x in items && x in key ==> !eq(key[x], k)
      modifies this, buckets, mem`prev, mem`next
      ensures Shaped() && buckets == old(buckets) && size == old(size) + 1
      ensures items == old(items) + [node] && key == old(key)[node := k] && value == old(value)[node := v]
      ensures OnlyAt(old(mem.prev), mem.prev, Nodes(old(items)) + {node})
    {
      hide Listed, BucketsIn, EqualityOk, DistinctKeys, OnlyAt;
      KeyAdded(hash, key, mem.next, mem.prev, buckets[..], chains, items, node, k);
      DistinctAdded(eq, hash, key, items, node, k);
      key, value := key[node := k], value[node := v];
      LinkNewNode(node);
      size := size + 1;
    }

    /** `create_node`: the links of nodes in the table are not touched. */
    method CreateNode(k: K, v: V, at: int, throws: bool) returns (node: int)
      requires Valid() && at != 0 && at !in mem.owned && at !in mem.anchors
      modifies pool, mem
      ensures BucketsIn(hash, key, mem.next, mem.prev, buckets[..], chains, items) && pool.Valid()
      ensures throws ==> node == 0 && pool.cached == old(pool.cached) && mem.owned == old(mem.owned)
      ensures throws ==> pool.allocations == old(pool.allocations)
      ensures !throws ==>
                && node == (if old(pool.cached) == [] then at else old(pool.cached)[0]) && node != 0 && node !in items
                && pool.cached == (if old(pool.cached) == [] then [] else old(pool.cached)[1..]) && node !in pool.cached
                && mem.owned == old(mem.owned) + {node}
                && pool.allocations == old(pool.allocations) + (if old(pool.cached) == [] then 1 else 0)
    {
      hide BucketsIn, Listed, DistinctKeys, EqualityOk, Stack;
      ghost var nx, pv := mem.next, mem.prev;
      LinkedPrev(hash, key, nx, pv, buckets[..], chains, items);
      assert old(pool.cached) != [] ==> old(pool.cached)[0] in Nodes(old(pool.cached));
      node := pool.Create((k, v), at, throws, false);
      BucketsFrame(hash, key, nx, pv, mem.next, mem.prev, buckets[..], chains, items);
    }

    /** `rehash`: neither contents nor iteration order change. */
    method Rehash(requested: nat)
      requires Valid()
      modifies this, mem`prev, mem`next
      ensures Valid() && items == old(items) && key == old(key) && value == old(value) && size == old(size)
      ensures buckets == old(buckets) || fresh(buckets)
      ensures 0 < size <= requested ==> buckets.Length == requested
      ensures 0 < requested < size ==> buckets.Length == size
      ensures size == 0 ==> buckets.Length == if requested > 8 then requested else 8
      ensures requested == 0 ==> buckets.Length == if size > 8 then size else 8
    {
      ghost var pv := mem.prev;
      hide Listed, BucketsIn, EqualityOk, DistinctKeys;
      var n := if requested == 0 then 8 else requested;
      var least := if size == 0 then 8 else size;
      if n < least {
        n := least;
      }
      if n == buckets.Length {
        return;
      }
      var newBuckets := new int[n](_ => 0);
      RelinkAllBuckets(newBuckets);
      buckets := newBuckets;
      CacheApart(pv, mem.prev, Nodes(items), pool.freeNodes, pool.cached);
    }

    /** `relink_all_buckets`. */
    method RelinkAllBuckets(newBuckets: array<int>)
      requires Shaped() && newBuckets.Length > 0 && newBuckets != buckets
      requires forall b :: 0 <= b < newBuckets.Length ==> newBuckets[b] == 0
      modifies newBuckets, mem`prev, mem`next, this`chains
      ensures BucketsIn(hash, key, mem.next, mem.prev, newBuckets[..], chains, items)
      ensures OnlyAt(old(mem.prev), mem.prev, Nodes(items))
    {
      AllKeyed(hash, key, mem.next, mem.prev, buckets[..], chains, items);
      hide Listed, EqualityOk, DistinctKeys, BucketsIn;
      ForgetBuckets();
      EmptyBuckets(hash, key, mem.next, mem.prev, newBuckets[..]);
      chains := seq(newBuckets.Length, _ => []);
      LinkAll(newBuckets);
    }

    /** The first loop: no node is in a bucket. */
    method ForgetBuckets()
      requires Listed(iterNext, iterPrev, head, tail, items)
      modifies mem`prev, mem`next
      ensures OnlyAt(old(mem.prev), mem.prev, Nodes(items))
    {
      hide Listed;
      ghost var s, j := items, 0;
      ListedEnds(iterNext, iterPrev, head, tail, s);
      var node := head;
      while node != 0
        invariant 0 <= j <= |s| && node == Stop(0, s, j + 1) && (node == 0 <==> j == |s|)
        invariant OnlyAt(old(mem.prev), mem.prev, Nodes(s))
        decreases |s| - j
      {
        ListedAt(iterNext, iterPrev, head, tail, s, j);
        mem.prev := mem.prev[node := 0];
        mem.next := mem.next[node := 0];
        node := iterNext[node];
        j := j + 1;
        if j < |s| { ListedAt(iterNext, iterPrev, head, tail, s, j); }
      }
    }

    /** The second loop: every node joins the bucket of its hash. */
    method LinkAll(table: array<int>)
      requires Listed(iterNext, iterPrev, head, tail, items) && KeyedAll(key, items) && table.Length > 0
      requires BucketsIn(hash, key, mem.next, mem.prev, table[..], chains, [])
      modifies table, mem`prev, mem`next, this`chains
      ensures BucketsIn(hash, key, mem.next, mem.prev, table[..], chains, items)
      ensures OnlyAt(old(mem.prev), mem.prev, Nodes(items))
    {
      hide Listed, BucketsIn;
      ghost var s, j := items, 0;
      ListedEnds(iterNext, iterPrev, head, tail, s);
      var node := head;
      assert s[..0] == [];
      while node != 0
        invariant 0 <= j <= |s| && node == Stop(0, s, j + 1) && (node == 0 <==> j == |s|)
        invariant BucketsIn(hash, key, mem.next, mem.prev, table[..], chains, s[..j])
        invariant OnlyAt(old(mem.prev), mem.prev, Nodes(s))
        decreases |s| - j
      {
        ListedAt(iterNext, iterPrev, head, tail, s, j);
        NewNode(iterNext, iterPrev, head, tail, s, j);
        ghost var pv := mem.prev;
        LinkBucket(table, node, s[..j]);
        OnlyAtMore(old(mem.prev), pv, mem.prev, s, j);
        node := iterNext[node];
        j := j + 1;
        if j < |s| { ListedAt(iterNext, iterPrev, head, tail, s, j); }
      }
      assert s[..j] == s;
    }

    /** `unlink_bucket`. */
    method UnlinkBucket(node: int, ghost b: nat, ghost k: nat, ghost rest: seq<int>)
      requires BucketsIn(hash, key, mem.next, mem.prev, buckets[..], chains, items)
      requires node in key && buckets.Length > 0 && b == hash(key[node]) % buckets.Length && b < |chains|
      requires k < |chains[b]| && chains[b][k] == node && forall y :: y in rest <==> y in items && y != node
      modifies mem`prev, mem`next, this`chains, buckets
      ensures BucketsIn(hash, key, mem.next, mem.prev, buckets[..], chains, rest)
      ensures OnlyAt(old(mem.prev), mem.prev, Nodes(items))
    {
      hide Listed;
      ghost var tops, s := buckets[..], chains[b];
      assert forall x :: x in s ==> x in Nodes(items);
      assert k + 1 < |s| ==> s[k + 1] in s;
      assert Chained(mem.next, mem.prev, tops[b], s);
      BucketTaken(hash, key, mem.next, mem.prev, tops, chains, items, b, k, rest);
      hide BucketsIn;
      ListedAt(mem.next, mem.prev, tops[b], Last(0, s), s, k);
      StopZero(mem.next, mem.prev, tops[b], Last(0, s), s, k);
      var index := hash(key[node]) % buckets.Length;
      var prev, next := mem.prev[node], mem.next[node];
      if prev != 0 {
        mem.next := mem.next[prev := next];
      } else {
        buckets[index] := next;
        assert buckets[..] == tops[index := next];
      }
      if next != 0 {
        mem.prev := mem.prev[next := prev];
      }
      chains := chains[b := s[..k] + s[k + 1..]];
    }

    /** `unlink_iteration`. */
    method UnlinkIteration(node: int, ghost i: nat)
      requires Listed(iterNext, iterPrev, head, tail, items) && i < |items| && node == items[i]
      modifies this`iterPrev, this`iterNext, this`head, this`tail
      ensures Listed(iterNext, iterPrev, head, tail, items[..i] + items[i + 1..])
    {
      hide Listed;
      TakenOut(iterNext, iterPrev, head, tail, items, i);
      ListedAt(iterNext, iterPrev, head, tail, items, i);
      StopZero(iterNext, iterPrev, head, tail, items, i);
      var prev, next := iterPrev[node], iterNext[node];
      if prev != 0 {
        iterNext := iterNext[prev := next];
      } else {
        head := next;
      }
      if next != 0 {
        iterPrev := iterPrev[next := prev];
      } else {
        tail := prev;
      }
    }

    /** `erase_node`: exactly this node leaves both of its lists, for the cache. */
    method EraseNode(node: int, ghost i: nat)
      requires Valid() && i < |items| && node == items[i]
      modifies this, buckets, pool, mem`prev, mem`next
      ensures Valid() && buckets == old(buckets) && key == old(key) && value == old(value)
      ensures items == old(items)[..i] + old(items)[i + 1..] && pool.cached == [node] + old(pool.cached)
    {
      hide Listed, DistinctKeys, EqualityOk, BucketsIn;
      ghost var s, rest, pv := items, items[..i] + items[i + 1..], mem.prev;
      WithoutOne(iterNext, iterPrev, head, tail, s, i);
      ghost var b, k := PlaceOf(hash, key, mem.next, mem.prev, buckets[..], chains, s, node);
      FewerDistinct(eq, key, s, rest);
      UnlinkBucket(node, b, k, rest);
      UnlinkIteration(node, i);
      ForgetLinks(node, rest);
      CacheApart(pv, mem.prev, Nodes(s), pool.freeNodes, pool.cached);
      NodesShrunk(s, node, rest, pool.cached);
      Recycle(node, rest);
      size := size - 1;
      items := rest;
    }

    /** `destroy_node` on a node that is on no list: its first word becomes a link of the cache. */
    method Recycle(node: int, ghost rest: seq<int>)
      requires pool.mem == mem && pool.Valid() && node in mem.owned && node !in pool.cached && node != 0
               && node !in rest
      requires BucketsIn(hash, key, mem.next, mem.prev, buckets[..], chains, rest)
      modifies pool, mem`prev
      ensures BucketsIn(hash, key, mem.next, mem.prev, buckets[..], chains, rest)
      ensures pool.Valid() && pool.cached == [node] + old(pool.cached) && pool.allocations == old(pool.allocations)
    {
      hide BucketsIn;
      ghost var pv := mem.prev;
      pool.Destroy(node);
      BucketsFrame(hash, key, mem.next, pv, mem.next, mem.prev, buckets[..], chains, rest);
    }

    /** The four links of a node that is on no list become null. */
    method ForgetLinks(node: int, ghost rest: seq<int>)
      requires node !in rest && Listed(iterNext, iterPrev, head, tail, rest)
      requires BucketsIn(hash, key, mem.next, mem.prev, buckets[..], chains, rest)
      modifies mem`prev, mem`next, this`iterPrev, this`iterNext
      ensures Listed(iterNext, iterPrev, head, tail, rest)
      ensures BucketsIn(hash, key, mem.next, mem.prev, buckets[..], chains, rest)
      ensures OnlyAt(old(mem.prev), mem.prev, {node})
    {
      hide Listed, BucketsIn;
      BucketsFrame(hash, key, mem.next, mem.prev, mem.next[node := 0], mem.prev[node := 0], buckets[..], chains, rest);
      ListedFrame(iterNext, iterPrev, iterNext[node := 0], iterPrev[node := 0], head, tail, rest);
      mem.prev, mem.next := mem.prev[node := 0], mem.next[node := 0];
      iterPrev, iterNext := iterPrev[node := 0], iterNext[node := 0];
    }

    /** `erase` by key. */
    method Erase(k: K) returns (count: nat, ghost i: nat)
      requires Valid()
      modifies this, buckets, pool, mem`prev, mem`next
      ensures Valid() && buckets == old(buckets) && key == old(key) && value == old(value)
      ensures count == 0 <==> forall x :: !old(Matches(k, x))
      ensures count == 0 ==> items == old(items) && pool.cached == old(pool.cached)
      ensures count != 0 ==>
                && count == 1 && i < |old(items)| && old(Matches(k, items[i]))
                && items == old(items)[..i] + old(items)[i + 1..] && pool.cached == [old(items)[i]] + old(pool.cached)
    {
      hide Listed, BucketsIn, DistinctKeys, EqualityOk;
      i := 0;
      var node := FindNode(k);
      if node == 0 {
        assert forall x :: Matches(k, x) == old(Matches(k, x));
        return 0, i;
      }
      assert Matches(k, node);
      i :| 0 <= i < |items| && items[i] == node;
      EraseNode(node, i);
      return 1, i;
    }

    /** `erase` at an iterator: returns what followed the erased node. */
    method EraseAt(node: int, ghost i: nat) returns (next: int)
      requires Valid() && i < |items| && node == items[i]
      modifies this, buckets, pool, mem`prev, mem`next
      ensures Valid() && items == old(items)[..i] + old(items)[i + 1..] && key == old(key) && value == old(value)
      ensures next == (if i < |items| then items[i] else 0) && pool.cached == [node] + old(pool.cached)
    {
      hide BucketsIn, DistinctKeys, EqualityOk;
      ListedAt(iterNext, iterPrev, head, tail, items, i);
      next := iterNext[node];
      EraseNode(node, i);
    }

    /** `clear`: every node goes to the cache, in iteration order. */
    method Clear()
      requires Valid()
      modifies this, buckets, pool, mem`prev
      ensures Valid() && items == [] && buckets == old(buckets)
      ensures pool.cached == Reversed(old(items)) + old(pool.cached) && mem.owned == old(mem.owned)
    {
      DestroyAll();
      head, tail, size := 0, 0, 0;
      items := [];
      ClearBuckets();
      EmptyBuckets(hash, key, mem.next, mem.prev, buckets[..]);
      ListedEmpty(iterNext, iterPrev);
      chains := seq(buckets.Length, _ => []);
    }

    /** The loop of `clear`: the successor is read before the node is recycled. */
    method DestroyAll()
      requires Valid()
      modifies pool, mem`prev
      ensures pool.Valid() && pool.cached == Reversed(items) + old(pool.cached)
      ensures pool.allocations == old(pool.allocations)
    {
      hide Listed, BucketsIn, DistinctKeys, EqualityOk, Stack;
      ghost var s, j := items, 0;
      ListedEnds(iterNext, iterPrev, head, tail, s);
      var current := head;
      assert Reversed(s[..0]) + pool.cached == pool.cached;
      while current != 0
        invariant 0 <= j <= |s| && current == Stop(0, s, j + 1) && (current == 0 <==> j == |s|)
        invariant pool.Valid() && pool.cached == Reversed(s[..j]) + old(pool.cached)
        invariant pool.allocations == old(pool.allocations)
        decreases |s| - j
      {
        ListedAt(iterNext, iterPrev, head, tail, s, j);
        NewNode(iterNext, iterPrev, head, tail, s, j);
        NotRecycled(s, j, old(pool.cached));
        var next := iterNext[current];
        pool.Destroy(current);
        current := next;
        j := j + 1;
        if j < |s| { ListedAt(iterNext, iterPrev, head, tail, s, j); }
      }
      assert s[..j] == s;
    }

    /** `clear_buckets`. */
    method ClearBuckets()
      modifies buckets
      ensures forall b :: 0 <= b < buckets.Length ==> buckets[b] == 0
    {
      var i := 0;
      while i < buckets.Length
        invariant 0 <= i <= buckets.Length && forall b :: 0 <= b < i ==> buckets[b] == 0
      {
        buckets[i] := 0;
        i := i + 1;
      }
    }

    /** `shrink_to_fit`: the cache goes back to the heap; what stays allocated is what the table holds. */
    method ShrinkToFit()
      requires Valid()
      modifies pool, mem`prev, mem`owned, mem`returned
      ensures Valid() && items == old(items) && pool.cached == [] && pool.allocations == size
      ensures mem.owned == old(mem.owned) - Nodes(old(pool.cached))
    {
      hide BucketsIn, Listed, DistinctKeys, EqualityOk;
      ghost var pv, s := mem.prev, items;
      LinkedPrev(hash, key, mem.next, mem.prev, buckets[..], chains, s);
      pool.ShrinkToFit();
      BucketsFrame(hash, key, mem.next, pv, mem.next, mem.prev, buckets[..], chains, s);
    }

    /** Iteration from `begin()` visits every node once, in insertion order. */
    method Traverse() returns (nodes: seq<int>)
      requires Shaped()
      ensures nodes == items
    {
      hide Listed, BucketsIn, DistinctKeys, EqualityOk;
      nodes := [];
      ListedEnds(iterNext, iterPrev, head, tail, items);
      var node := head;
      while node != 0
        invariant |nodes| <= |items| && nodes == items[..|nodes|] && node == Stop(0, items, |nodes| + 1)
        invariant node == 0 <==> |nodes| == |items|
        decreases |items| - |nodes|
      {
        ghost var j := |nodes|;
        ListedAt(iterNext, iterPrev, head, tail, items, j);
        nodes := nodes + [node];
        node := iterNext[node];
        if j + 1 < |items| { ListedAt(iterNext, iterPrev, head, tail, items, j + 1); }
      }
    }
  }

  /** Where a node stands in its chain. */
  lemma PlaceOf<K>(hash: K -> nat, key: map<int, K>, nx: Field, pv: Field, tops: seq<int>, chains: seq<seq<int>>,
                   items: seq<int>, x: int)
    returns (b: nat, k: nat)
    requires BucketsIn(hash, key, nx, pv, tops, chains, items) && x in items
    ensures x in key && |tops| > 0 && |chains| == |tops| && b == hash(key[x]) % |tops| && k < |chains[b]|
            && chains[b][k] == x
  {
    b := Index(hash, key[x], |tops|);
    k :| 0 <= k < |chains[b]| && chains[b][k] == x;
  }

  /** A neighbour is null exactly at the ends. */
  lemma StopZero(nx: Field, pv: Field, head: int, tail: int, s: seq<int>, k: nat)
    requires Listed(nx, pv, head, tail, s) && k < |s|
    ensures Stop(0, s, k) == 0 <==> k == 0
    ensures Stop(0, s, k + 2) == 0 <==> k + 1 == |s|
    ensures k > 0 ==> Stop(0, s, k) == s[k - 1]
    ensures k + 1 < |s| ==> Stop(0, s, k + 2) == s[k + 1]
  {
    assert k > 0 ==> s[k - 1] in s;
    assert k + 1 < |s| ==> s[k + 1] in s;
  }

  lemma WithoutOne(nx: Field, pv: Field, head: int, tail: int, s: seq<int>, i: nat)
    requires Listed(nx, pv, head, tail, s) && i < |s|
    ensures var r := s[..i] + s[i + 1..]; |r| == |s| - 1 && forall y :: y in r <==> y in s && y != s[i]
  {
    var r := s[..i] + s[i + 1..];
    assert s == s[..i] + [s[i]] + s[i + 1..];
    ApartParts(0, s[..i], [s[i]], s[i + 1..]);
    assert Nodes([s[i]]) == {s[i]};
    assert forall y :: y in r <==> y in Nodes(s[..i] + s[i + 1..]);
  }

  lemma FewerDistinct<K>(eq: (K, K) -> bool, key: map<int, K>, s: seq<int>, r: seq<int>)
    requires DistinctKeys(eq, key, s) && forall y :: y in r ==> y in s
    ensures DistinctKeys(eq, key, r)
  {
  }

  /** Every node has a key. */
  ghost predicate KeyedAll<K>(key: map<int, K>, s: seq<int>) {
    forall i :: 0 <= i < |s| ==> s[i] in key
  }

  lemma AllKeyed<K>(hash: K -> nat, key: map<int, K>, nx: Field, pv: Field, tops: seq<int>, chains: seq<seq<int>>,
                    items: seq<int>)
    requires BucketsIn(hash, key, nx, pv, tops, chains, items)
    ensures KeyedAll(key, items)
  {
    hide Chained;
    forall i | 0 <= i < |items| ensures items[i] in key {
      var x := items[i];
      assert x in items;
    }
  }

  lemma BucketCount<K>(hash: K -> nat, key: map<int, K>, nx: Field, pv: Field, tops: seq<int>,
                       chains: seq<seq<int>>, items: seq<int>)
    requires BucketsIn(hash, key, nx, pv, tops, chains, items)
    ensures |chains| == |tops|
  {
  }

  lemma NewNode(nx: Field, pv: Field, head: int, tail: int, s: seq<int>, j: nat)
    requires Listed(nx, pv, head, tail, s) && j < |s|
    ensures s[j] !in s[..j] && s[..j + 1] == s[..j] + [s[j]]
  {
    assert forall i :: 0 <= i < j ==> s[..j][i] == s[i];
  }

  lemma KeyAdded<K>(hash: K -> nat, key: map<int, K>, nx: Field, pv: Field, tops: seq<int>, chains: seq<seq<int>>,
                    items: seq<int>, x: int, k: K)
    requires BucketsIn(hash, key, nx, pv, tops, chains, items) && x !in items
    ensures BucketsIn(hash, key[x := k], nx, pv, tops, chains, items)
  {
    hide Listed;
  }

  lemma DistinctAdded<K(!new)>(eq: (K, K) -> bool, hash: K -> nat, key: map<int, K>, items: seq<int>, x: int, k: K)
    requires EqualityOk(hash, eq) && DistinctKeys(eq, key, items) && x !in items
    requires forall y :: y in items && y in key ==> !eq(key[y], k)
    ensures DistinctKeys(eq, key[x := k], items + [x])
  {
  }
}
