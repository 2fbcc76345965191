/** `SharedMemoryNodePool`: freed nodes are kept on an intrusive list that runs through the first
    word of their storage, until they are reused or given back to the segment's heap. */
module NodePools {
  import opened Links

  /** Node storage in the segment. `prev` is the first word of a node, so it is also the free-list
      link of a cached one. */
  class NodeMemory<T> {
    var prev: Field
    var next: Field
    var value: map<int, T>
    /** Node storage allocated from the segment's heap and not given back. */
    var owned: set<int>
    /** Where containers keep their anchors. */
    var anchors: set<int>
    /** Storage given back to the heap, in order. */
    ghost var returned: seq<int>

    ghost predicate Valid()
      reads this
    {
      owned !! anchors && 0 !in owned && 0 !in anchors
    }

    constructor ()
      ensures Valid() && owned == {} && anchors == {}
    {
      prev, next, value, owned, anchors, returned := map[], map[], map[], {}, {}, [];
    }

    /** The heap hands out storage at `at`, which it never does while that storage is in use. */
    method Allocate(at: int)
      requires Valid() && at != 0 && at !in owned && at !in anchors
      modifies this`owned
      ensures Valid() && owned == old(owned) + {at}
    {
      owned := owned + {at};
    }

    /** Only storage that is in use may be given back. */
    method Deallocate(node: int)
      requires Valid() && node in owned
      modifies this`owned, this`returned
      ensures Valid() && owned == old(owned) - {node} && returned == old(returned) + [node]
    {
      owned := owned - {node};
      returned := returned + [node];
    }
  }

  class NodePool<T> {
    const mem: NodeMemory<T>
    var freeNodes: int
    var cachedCount: nat
    var hits: nat
    var allocations: nat
    ghost var cached: seq<int>

    ghost predicate Valid()
      reads this, mem
    {
      && mem.Valid()
      && Stack(mem.prev, freeNodes, cached) && NoRepeats(cached)
      && (forall x :: x in cached ==> x in mem.owned)
      && cachedCount == |cached|
    }

    constructor (mem: NodeMemory<T>)
      requires mem.Valid()
      ensures Valid() && this.mem == mem && cached == [] && allocations == 0 && hits == 0
    {
      this.mem := mem;
      freeNodes, cachedCount, hits, allocations, cached := 0, 0, 0, 0, [];
    }

    /** `pop_cached_node`. */
    method Pop() returns (node: int)
      requires Valid()
      modifies this
      ensures Valid() && allocations == old(allocations)
      ensures old(cached) == [] ==> node == 0 && cached == [] && hits == old(hits)
      ensures old(cached) != [] ==> node == old(cached)[0] && cached == old(cached)[1..] && hits == old(hits) + 1
      ensures node != 0 ==> node in mem.owned && node !in cached
    {
      node := freeNodes;
      if node == 0 {
        return;
      }
      StackPop(mem.prev, freeNodes, cached);
      freeNodes := mem.prev[node];
      cachedCount := cachedCount - 1;
      hits := hits + 1;
      cached := cached[1..];
    }

    /** `push_cached_node`. */
    method Push(node: int)
      requires Valid() && node in mem.owned && node !in cached
      modifies this, mem`prev
      ensures Valid() && cached == [node] + old(cached)
      ensures mem.prev == old(mem.prev)[node := old(freeNodes)]
      ensures hits == old(hits) && allocations == old(allocations)
    {
      StackPush(mem.prev, freeNodes, cached, node);
      mem.prev := mem.prev[node := freeNodes];
      freeNodes := node;
      cachedCount := cachedCount + 1;
      cached := [node] + cached;
    }

    /** `create`: a cached node if there is one, else new storage at `at`. The constructor links the node to
        itself (`looped`) or to nothing; one that throws gives the storage back to where it came from. */
    method Create(v: T, at: int, throws: bool, looped: bool) returns (node: int)
      requires Valid() && at != 0 && at !in mem.owned && at !in mem.anchors
      modifies this, mem
      ensures Valid() && mem.anchors == old(mem.anchors)
      ensures !throws ==>
                && node == (if old(cached) == [] then at else old(cached)[0])
                && cached == (if old(cached) == [] then [] else old(cached)[1..]) && node !in cached
                && mem.owned == old(mem.owned) + {node}
                && allocations == old(allocations) + (if old(cached) == [] then 1 else 0)
                && hits == old(hits) + (if old(cached) == [] then 0 else 1)
                && var link := if looped then node else 0;
                   mem.prev == old(mem.prev)[node := link] && mem.next == old(mem.next)[node := link]
      ensures !throws ==> mem.value == old(mem.value)[node := v] && mem.returned == old(mem.returned)
      ensures throws ==>
                && node == 0 && cached == old(cached) && mem.owned == old(mem.owned) && allocations == old(allocations)
                && mem.returned == old(mem.returned) + (if old(cached) == [] then [at] else [])
                && mem.next == old(mem.next) && mem.value == old(mem.value)
                && (forall x :: x in old(mem.prev) ==> x in mem.prev && mem.prev[x] == old(mem.prev)[x])
    {
      var storage := Pop();
      var fromCache := storage != 0;
      if !fromCache {
        storage := at;
        mem.Allocate(at);
        allocations := allocations + 1;
      }
      if throws {
        if fromCache {
          Push(storage);
          assert cached == old(cached);
        } else {
          mem.Deallocate(storage);
          allocations := allocations - 1;
        }
        return 0;
      }
      node := storage;
      var link := if looped then node else 0;
      StackFrame(mem.prev, mem.prev[node := link], freeNodes, cached);
      mem.prev, mem.next, mem.value := mem.prev[node := link], mem.next[node := link], mem.value[node := v];
    }

    /** `destroy`. */
    method Destroy(node: int)
      requires Valid() && (node != 0 ==> node in mem.owned && node !in cached)
      modifies this, mem`prev
      ensures Valid() && hits == old(hits) && allocations == old(allocations)
      ensures node == 0 ==> cached == old(cached) && mem.prev == old(mem.prev)
      ensures node != 0 ==> cached == [node] + old(cached) && mem.prev == old(mem.prev)[node := old(freeNodes)]
    {
      if node == 0 {
        return;
      }
      Push(node);
    }

    /** `reverse_free_list`, in place. */
    method ReverseFreeList() returns (top: int)
      requires Valid()
      modifies mem`prev
      ensures Stack(mem.prev, top, Reversed(cached))
      ensures forall x :: x !in cached && x in old(mem.prev) ==> x in mem.prev && mem.prev[x] == old(mem.prev)[x]
    {
      hide Stack, NoRepeats, Reversed;
      var current, previous := freeNodes, 0;
      ghost var k := 0;
      NothingReversed(mem.prev, cached);
      while current != 0
        invariant 0 <= k <= |cached| && Stack(mem.prev, current, cached[k..])
        invariant Stack(mem.prev, previous, Reversed(cached[..k]))
        invariant forall x :: x !in cached && x in old(mem.prev) ==> x in mem.prev && mem.prev[x] == old(mem.prev)[x]
        decreases |cached| - k
      {
        StackTop(mem.prev, current, cached[k..]);
        OneMoreReversed(mem.prev, current, previous, cached, k);
        var next := mem.prev[current];
        mem.prev := mem.prev[current := previous];
        previous := current;
        current := next;
        k := k + 1;
      }
      StackTop(mem.prev, current, cached[k..]);
      assert cached[..k] == cached;
      return previous;
    }

    /** `shrink_to_fit`: every cached node goes back to the heap exactly once. */
    method ShrinkToFit()
      requires Valid()
      modifies this, mem`prev, mem`owned, mem`returned
      ensures Valid() && cached == [] && hits == old(hits)
      ensures mem.owned == old(mem.owned) - Nodes(old(cached))
      ensures mem.returned == old(mem.returned) + Reversed(old(cached))
      ensures allocations == (if old(allocations) < |old(cached)| then 0 else old(allocations) - |old(cached)|)
      ensures forall x :: x !in old(cached) && x in old(mem.prev) ==> x in mem.prev && mem.prev[x] == old(mem.prev)[x]
    {
      hide Stack, NoRepeats, Reversed;
      ghost var all := Reversed(cached);
      ReversedCache(cached, mem.owned);
      var node := ReverseFreeList();
      freeNodes, cachedCount := 0, 0;
      ReturnAll(node, all);
      EmptyStack(mem.prev);
      cached := [];
    }

    /** Give back every node of a detached list, first to last. */
    method ReturnAll(first: int, ghost all: seq<int>)
      requires mem.Valid() && Stack(mem.prev, first, all) && NoRepeats(all) && forall x :: x in all ==> x in mem.owned
      modifies this`allocations, mem`owned, mem`returned
      ensures mem.Valid() && mem.owned == old(mem.owned) - Nodes(all) && mem.returned == old(mem.returned) + all
      ensures allocations == (if old(allocations) < |all| then 0 else old(allocations) - |all|)
    {
      hide Stack;
      var node := first;
      ghost var k := 0;
      assert all[0..] == all;
      while node != 0
        invariant 0 <= k <= |all| && Stack(mem.prev, node, all[k..]) && mem.Valid()
        invariant mem.owned == old(mem.owned) - Nodes(all[..k]) && mem.returned == old(mem.returned) + all[..k]
        invariant allocations == (if old(allocations) < k then 0 else old(allocations) - k)
        decreases |all| - k
      {
        StackTop(mem.prev, node, all[k..]);
        StackPop(mem.prev, node, all[k..]);
        OneMoreNode(all, k);
        var next := mem.prev[node];
        mem.Deallocate(node);
        if allocations > 0 {
          allocations := allocations - 1;
        }
        node := next;
        k := k + 1;
      }
      StackTop(mem.prev, node, all[k..]);
      assert all[..k] == all;
    }
  }

  lemma NothingReversed(f: Field, s: seq<int>)
    ensures s[0..] == s && Stack(f, 0, Reversed(s[..0]))
  {
    assert Reversed(s[..0]) == [];
  }

  /** One node moves from the front of the rest to the front of what is reversed. */
  lemma OneMoreReversed(f: Field, current: int, previous: int, s: seq<int>, k: nat)
    requires NoRepeats(s) && k < |s| && Stack(f, current, s[k..]) && Stack(f, previous, Reversed(s[..k]))
    ensures current == s[k] && current in s && current in f
    ensures var f' := f[current := previous];
            Stack(f', f[current], s[k + 1..]) && Stack(f', current, Reversed(s[..k + 1]))
  {
    hide Stack, Reversed, NoRepeats;
    var f', done, rest := f[current := previous], Reversed(s[..k]), s[k + 1..];
    StackTop(f, current, s[k..]);
    StackPop(f, current, s[k..]);
    assert s[k..][0] == s[k] && s[k..][1..] == rest;
    ReversedParts(s, k);
    StackPush(f, previous, done, current);
    StackFrame(f, f', f[current], rest);
  }

  lemma ReversedParts(s: seq<int>, k: nat)
    requires NoRepeats(s) && k < |s|
    ensures Reversed(s[..k + 1]) == [s[k]] + Reversed(s[..k])
    ensures s[k] !in Reversed(s[..k]) && s[k] !in Nodes(s[k + 1..])
  {
    var done, rest := Reversed(s[..k]), s[k + 1..];
    assert Reversed(s[..k + 1]) == [s[k]] + done;
    forall i | 0 <= i < k ensures done[i] != s[k] {
      assert done[i] == s[k - 1 - i];
    }
    forall i | 0 <= i < |rest| ensures rest[i] != s[k] {
      assert rest[i] == s[k + 1 + i];
    }
  }

  lemma EmptyStack(f: Field)
    ensures Stack(f, 0, []) && NoRepeats([])
  {
  }

  lemma ReversedCache(s: seq<int>, owned: set<int>)
    requires NoRepeats(s) && forall x :: x in s ==> x in owned
    ensures var r := Reversed(s);
            |r| == |s| && Nodes(r) == Nodes(s) && NoRepeats(r) && forall x :: x in r ==> x in owned
  {
    ReversedNodes(s);
    assert forall x :: x in Reversed(s) ==> x in Nodes(Reversed(s));
  }

  lemma OneMoreNode(s: seq<int>, k: nat)
    requires k < |s| && NoRepeats(s)
    ensures s[k..][0] == s[k] && s[k..][1..] == s[k + 1..] && s[..k + 1] == s[..k] + [s[k]]
    ensures Nodes(s[..k + 1]) == Nodes(s[..k]) + {s[k]} && s[k] !in Nodes(s[..k]) && s[k] in s
  {
    assert forall i :: 0 <= i < k ==> s[..k][i] == s[i];
  }
}
