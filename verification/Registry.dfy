/** `NamedObjectRegistry`: 64 bucket chains through the headers of the named objects. */
module Registries {
  import opened Links

  type Name = string

  datatype Status = Constructing | Ready | Destroying

  /** What a header says about its object, apart from the chain link. `ptr` and `nameAt` are
      the addresses of the object's and the name's storage. */
  datatype Entry = Entry(name: Name, ptr: int, nameAt: int, owner: nat, status: Status)

  const BUCKETS: nat := 64

  /** The headers in the registry, by address. */
  type Entries = map<int, Entry>

  ghost predicate UniqueNames(es: Entries) {
    forall x, y :: x in es && y in es && es[x].name == es[y].name ==> x == y
  }

  ghost function ReadyOnes(es: Entries): set<int> { set x | x in es && es[x].status.Ready? }

  /** No entry has this name. */
  ghost predicate Unused(es: Entries, name: Name) {
    forall x :: x in es ==> es[x].name != name
  }

  lemma ReadyInserted(es: Entries, x: int, e: Entry)
    requires x !in es
    ensures |es[x := e]| == |es| + 1
    ensures |ReadyOnes(es[x := e])| == |ReadyOnes(es)| + if e.status.Ready? then 1 else 0
  {
    var es' := es[x := e];
    assert es'.Keys == es.Keys + {x};
    assert ReadyOnes(es') == if e.status.Ready? then ReadyOnes(es) + {x} else ReadyOnes(es);
  }

  lemma ReadyRemoved(es: Entries, x: int)
    requires x in es
    ensures |es - {x}| == |es| - 1
    ensures |ReadyOnes(es - {x})| == |ReadyOnes(es)| - if es[x].status.Ready? then 1 else 0
  {
    var es' := es - {x};
    assert es'.Keys == es.Keys - {x};
    assert ReadyOnes(es') == ReadyOnes(es) - {x};
  }

  lemma ReadyChanged(es: Entries, x: int, e: Entry)
    requires x in es
    ensures |es[x := e]| == |es|
    ensures |ReadyOnes(es[x := e])| ==
            |ReadyOnes(es)| - (if es[x].status.Ready? then 1 else 0) + (if e.status.Ready? then 1 else 0)
  {
    ReadyRemoved(es, x);
    var es' := es - {x};
    ReadyInserted(es', x, e);
    assert es'[x := e] == es[x := e];
  }

  // ---------------------------------------------------------------- bucket chains

  function BucketOf(hash: Name -> nat, e: Entry): (b: nat)
    ensures b < BUCKETS
  {
    hash(e.name) % BUCKETS
  }

  /** Every chain starts at its bucket and holds headers that belong there. */
  ghost predicate ChainsIn(hash: Name -> nat, next: Field, tops: seq<int>, chains: seq<seq<int>>, es: Entries) {
    && |tops| == BUCKETS && |chains| == BUCKETS
    && (forall b :: 0 <= b < BUCKETS ==> Stack(next, tops[b], chains[b]) && NoRepeats(chains[b]))
    && (forall b, x :: 0 <= b < BUCKETS && x in chains[b] ==> x in es && BucketOf(hash, es[x]) == b)
    && (forall x :: x in es ==> x in chains[BucketOf(hash, es[x])])
  }

  lemma ChainInserted(hash: Name -> nat, next: Field, tops: seq<int>, chains: seq<seq<int>>, es: Entries, at: int,
                      e: Entry)
    requires ChainsIn(hash, next, tops, chains, es) && at != 0 && at !in es
    ensures var b := BucketOf(hash, e);
            ChainsIn(hash, next[at := tops[b]], tops[b := at], chains[b := [at] + chains[b]], es[at := e])
  {
    hide BucketOf;
    var b := BucketOf(hash, e);
    var next' := next[at := tops[b]];
    StackPush(next, tops[b], chains[b], at);
    forall c | 0 <= c < BUCKETS && c != b ensures Stack(next', tops[c], chains[c]) {
      StackFrame(next, next', tops[c], chains[c]);
    }
    hide Stack;
  }

  /** The links after `unlink` has taken the header at position `k` of its chain out. */
  ghost function Unlinked(next: Field, s: seq<int>, k: nat): Field
    requires k < |s| && s[k] in next
  {
    (if k == 0 then next else next[s[k - 1] := next[s[k]]])[s[k] := 0]
  }

  lemma ChainCount(hash: Name -> nat, next: Field, tops: seq<int>, chains: seq<seq<int>>, es: Entries)
    requires ChainsIn(hash, next, tops, chains, es)
    ensures |chains| == BUCKETS
  {
  }

  lemma FewerNames(es: Entries, x: int)
    requires UniqueNames(es)
    ensures UniqueNames(es - {x})
  {
  }

  lemma UnlinkedStores(next: Field, s: seq<int>, k: nat)
    requires k < |s| && s[k] in next
    ensures k == 0 ==> Unlinked(next, s, k) == next[s[k] := 0]
    ensures k > 0 ==> Unlinked(next, s, k) == next[s[k - 1] := next[s[k]]][s[k] := 0]
  {
  }

  lemma ChainUnlinked(next: Field, top: int, s: seq<int>, k: nat)
    requires Stack(next, top, s) && NoRepeats(s) && k < |s|
    ensures s[k] in next
    ensures var s' := s[..k] + s[k + 1..];
            Stack(Unlinked(next, s, k), if k == 0 then next[s[k]] else top, s') && NoRepeats(s') && s[k] !in s'
  {
    var x, a, d := s[k], s[..k], s[k + 1..];
    assert s == a + [x] + d;
    StackDrop(next, top, a, x, d);
    assert k > 0 ==> s[k - 1] == Last(0, a);
    hide Stack, NoRepeats;
    assert k == 0 ==> a + d == d;
    StackFrame(if k == 0 then next else next[s[k - 1] := next[x]], Unlinked(next, s, k),
               if k == 0 then next[x] else top, a + d);
  }

  lemma ChainRemoved(hash: Name -> nat, next: Field, tops: seq<int>, chains: seq<seq<int>>, es: Entries, b: nat, k: nat)
    requires ChainsIn(hash, next, tops, chains, es) && b < BUCKETS && k < |chains[b]|
    ensures var s := chains[b];
            var x, s' := s[k], s[..k] + s[k + 1..];
            && x in next && x in es && BucketOf(hash, es[x]) == b
            && ChainsIn(hash, Unlinked(next, s, k), if k == 0 then tops[b := next[x]] else tops, chains[b := s'],
                        es - {x})
  {
    hide BucketOf, Stack, NoRepeats;
    var s := chains[b];
    var x, s' := s[k], s[..k] + s[k + 1..];
    var y := if k > 0 then s[k - 1] else x;
    assert x in chains[b] && y in chains[b] && BucketOf(hash, es[y]) == b;
    ChainUnlinked(next, tops[b], s, k);
    assert forall y :: y in s <==> y in s' || y == x;
    var next' := Unlinked(next, s, k);
    assert BucketOf(hash, es[x]) == b;
    forall c | 0 <= c < BUCKETS && c != b ensures Stack(next', tops[c], chains[c]) {
      assert forall z :: z in chains[c] ==> BucketOf(hash, es[z]) == c;
      assert x !in chains[c] && y !in chains[c];
      StackFrame(next, next', tops[c], chains[c]);
    }
  }

  /** A header is in the chain of its own bucket, and in no other. */
  lemma ChainMember(hash: Name -> nat, next: Field, tops: seq<int>, chains: seq<seq<int>>, es: Entries, x: int, b: nat)
    requires ChainsIn(hash, next, tops, chains, es) && b < BUCKETS && (x in es ==> BucketOf(hash, es[x]) == b)
    ensures x in chains[b] <==> x in es
    ensures x !in es ==> es - {x} == es
  {
    hide Stack, NoRepeats;
    var r := es - {x};
    assert forall y :: y in r ==> r[y] == es[y];
    assert x !in es ==> r.Keys == es.Keys;
  }

  class Registry {
    const hash: Name -> nat
    const buckets: array<int>
    var entries: Entries
    var next: Field
    var readyCount: nat
    var totalCount: nat
    var reservedCount: nat
    /** The headers of every bucket, first to last. */
    ghost var chains: seq<seq<int>>

    ghost predicate Valid()
      reads this, buckets
    {
      && buckets.Length == BUCKETS && ChainsIn(hash, next, buckets[..], chains, entries) && UniqueNames(entries)
      && totalCount == |entries| && readyCount == |ReadyOnes(entries)|
    }

    constructor (hash: Name -> nat)
      ensures Valid() && entries == map[] && this.hash == hash && fresh(buckets) && buckets.Length == 64
    {
      this.hash := hash;
      buckets := new int[BUCKETS](_ => 0);
      entries, next, readyCount, totalCount, reservedCount := map[], map[], 0, 0, 0;
      chains := seq(BUCKETS, _ => []);
    }

    /** The walk along one chain: the first header that satisfies the test, or null. */
    method FindInChain(b: nat, test: Entry -> bool) returns (r: int)
      requires Valid() && b < BUCKETS
      ensures r != 0 ==> r in entries && test(entries[r])
      ensures r == 0 ==> forall x :: x in chains[b] ==> x in entries && !test(entries[x])
    {
      hide Stack, NoRepeats, BucketOf;
      ghost var s, k := chains[b], 0;
      r := buckets[b];
      assert s[0..] == s;
      assert forall i :: 0 <= i < |s| ==> s[i] in s;
      while r != 0
        invariant 0 <= k <= |s| && Stack(next, r, s[k..])
        invariant forall i :: 0 <= i < k ==> s[i] in entries && !test(entries[s[i]])
        decreases |s| - k
      {
        StackTop(next, r, s[k..]);
        StackPop(next, r, s[k..]);
        assert s[k..][0] == s[k] && s[k..][1..] == s[k + 1..] && s[k] in s;
        if test(entries[r]) {
          return;
        }
        r := next[r];
        k := k + 1;
      }
      StackTop(next, r, s[k..]);
    }

    /** `find_any`: the lookup in one bucket agrees with the flat map. */
    method FindAny(name: Name) returns (r: int)
      requires Valid()
      ensures r != 0 <==> !Unused(entries, name)
      ensures r != 0 ==> r in entries && entries[r].name == name
    {
      hide Stack, NoRepeats;
      r := FindInChain(hash(name) % BUCKETS, (e: Entry) => e.name == name);
      assert forall x :: x in entries && entries[x].name == name ==> x in chains[hash(name) % BUCKETS];
    }

    /** `find_ready`: only ready objects are found, and every one of them. */
    method FindReady(name: Name) returns (r: int)
      requires Valid()
      ensures r != 0 ==> r in entries && entries[r].name == name && entries[r].status.Ready?
      ensures r == 0 ==> forall x :: x in entries && entries[x].name == name ==> !entries[x].status.Ready?
    {
      r := FindAny(name);
      if r == 0 || !entries[r].status.Ready? {
        return 0;
      }
    }

    /** `find_if`, through all buckets. */
    method FindIf(test: Entry -> bool) returns (r: int)
      requires Valid()
      ensures r != 0 ==> r in entries && test(entries[r])
      ensures r == 0 ==> forall x :: x in entries ==> !test(entries[x])
    {
      var i := 0;
      while i < BUCKETS
        invariant 0 <= i <= BUCKETS
        invariant forall x :: x in entries && BucketOf(hash, entries[x]) < i ==> !test(entries[x])
      {
        hide Stack, NoRepeats, BucketOf;
        r := FindInChain(i, test);
        if r != 0 {
          return;
        }
        i := i + 1;
      }
      return 0;
    }

    /** `find_ready_by_ptr`. */
    method FindReadyByPtr(ptr: int) returns (r: int)
      requires Valid()
      ensures r != 0 ==> r in entries && entries[r].status.Ready? && entries[r].ptr == ptr
      ensures r == 0 ==> forall x :: x in entries && entries[x].ptr == ptr ==> !entries[x].status.Ready?
    {
      r := FindIf((e: Entry) => e.status.Ready? && e.ptr == ptr);
    }

    /** `insert` of a header at a fresh address and with an unused name. */
    method Insert(at: int, e: Entry)
      requires Valid() && at != 0 && at !in entries && Unused(entries, e.name)
      modifies this, buckets
      ensures Valid() && entries == old(entries)[at := e] && reservedCount == old(reservedCount)
    {
      hide Stack, NoRepeats;
      var b := hash(e.name) % BUCKETS;
      ReadyInserted(entries, at, e);
      ghost var tops := buckets[..];
      ChainInserted(hash, next, tops, chains, entries, at, e);
      entries := entries[at := e];
      next := next[at := buckets[b]];
      buckets[b] := at;
      assert buckets[..] == tops[b := at];
      totalCount := totalCount + 1;
      if e.status.Ready? {
        readyCount := readyCount + 1;
      }
      chains := chains[b := [at] + chains[b]];
    }

    /** `mark_ready`. */
    method MarkReady(at: int)
      requires Valid() && at in entries
      modifies this
      ensures Valid() && entries == old(entries)[at := old(entries)[at].(status := Ready)]
              && reservedCount == old(reservedCount)
    {
      hide Stack, NoRepeats;
      ReadyChanged(entries, at, entries[at].(status := Ready));
      if !entries[at].status.Ready? {
        entries := entries[at := entries[at].(status := Ready)];
        readyCount := readyCount + 1;
      }
    }

    /** `mark_not_ready`. */
    method MarkNotReady(at: int, status: Status)
      requires Valid() && at in entries && !status.Ready?
      modifies this
      ensures Valid() && entries == old(entries)[at := old(entries)[at].(status := status)]
              && reservedCount == old(reservedCount)
    {
      hide Stack, NoRepeats;
      ReadyChanged(entries, at, entries[at].(status := status));
      if entries[at].status.Ready? && readyCount > 0 {
        readyCount := readyCount - 1;
      }
      entries := entries[at := entries[at].(status := status)];
    }

    /** `header->owner_pid = ...`. */
    method SetOwner(at: int, owner: nat)
      requires Valid() && at in entries
      modifies this`entries
      ensures Valid() && entries == old(entries)[at := old(entries)[at].(owner := owner)]
    {
      hide Stack, NoRepeats;
      ReadyChanged(entries, at, entries[at].(owner := owner));
      entries := entries[at := entries[at].(owner := owner)];
    }

    /** The search of `unlink`, along one bucket. */
    method FindPrevious(target: int, index: nat) returns (found: bool, prev: int, ghost k: nat)
      requires Valid() && target != 0 && index < BUCKETS
      ensures found <==> target in chains[index]
      ensures found ==> k < |chains[index]| && chains[index][k] == target
      ensures found ==> (k == 0 <==> prev == 0) && (k > 0 ==> prev == chains[index][k - 1])
    {
      hide Stack, NoRepeats, BucketOf;
      ghost var s := chains[index];
      var curr := buckets[index];
      found, prev, k := false, 0, 0;
      assert s[0..] == s;
      while curr != 0
        invariant 0 <= k <= |s| && Stack(next, curr, s[k..]) && target !in s[..k]
        invariant (k == 0 <==> prev == 0) && (k > 0 ==> prev == s[k - 1])
        decreases |s| - k
      {
        StackTop(next, curr, s[k..]);
        assert s[k..][0] == s[k];
        if curr == target {
          found := true;
          return;
        }
        StackPop(next, curr, s[k..]);
        assert s[k..][1..] == s[k + 1..] && s[..k + 1] == s[..k] + [s[k]];
        prev := curr;
        curr := next[curr];
        k := k + 1;
      }
      StackTop(next, curr, s[k..]);
      assert s[..k] == s;
    }

    /** `unlink`: exactly the target leaves its chain, and a null pointer or a header that is in no chain
        changes nothing. `nameHash` is the field of that name of the target. */
    method Unlink(target: int, nameHash: nat)
      requires Valid() && (target in entries ==> nameHash == hash(entries[target].name))
      modifies this, buckets
      ensures Valid() && entries == old(entries) - {target} && reservedCount == old(reservedCount)
      ensures target !in old(entries) ==>
                readyCount == old(readyCount) && totalCount == old(totalCount) && next == old(next)
                && buckets[..] == old(buckets[..])
    {
      hide ChainsIn, ReadyOnes, Unlinked;
      if target == 0 {
        NullUnlinked();
        return;
      }
      var index := nameHash % BUCKETS;
      var found, prev;
      ghost var k := 0;
      found, prev, k := FindPrevious(target, index);
      ChainCount(hash, next, buckets[..], chains, entries);
      ChainMember(hash, next, buckets[..], chains, entries, target, index);
      if found {
        ReadyRemoved(entries, target);
        FewerNames(entries, target);
        TakeOff(target, index, prev, k);
        if entries[target].status.Ready? && readyCount > 0 {
          readyCount := readyCount - 1;
        }
        if totalCount > 0 {
          totalCount := totalCount - 1;
        }
      }
      entries := entries - {target};
    }

    /** No header is at the null address. */
    lemma NullUnlinked()
      requires Valid()
      ensures 0 !in entries && entries - {0} == entries
    {
      hide NoRepeats;
      assert forall b :: 0 <= b < BUCKETS ==> Stack(next, buckets[..][b], chains[b]);
    }

    /** The link stores of `unlink`. */
    method TakeOff(target: int, index: nat, prev: int, ghost k: nat)
      requires buckets.Length == BUCKETS && index < BUCKETS && ChainsIn(hash, next, buckets[..], chains, entries)
               && |chains| == BUCKETS
      requires k < |chains[index]| && chains[index][k] == target && (k == 0 <==> prev == 0)
               && (k > 0 ==> prev == chains[index][k - 1])
      modifies this`next, this`chains, buckets
      ensures ChainsIn(hash, next, buckets[..], chains, entries - {target})
    {
      hide ChainsIn, Unlinked;
      ghost var s, tops := chains[index], buckets[..];
      ChainRemoved(hash, next, tops, chains, entries, index, k);
      UnlinkedStores(next, s, k);
      if prev != 0 {
        next := next[prev := next[target]];
      } else {
        buckets[index] := next[target];
        assert buckets[..] == tops[index := next[target]];
      }
      next := next[target := 0];
      chains := chains[index := s[..k] + s[k + 1..]];
    }

    /** `reserve`. */
    method Reserve(count: nat)
      requires Valid()
      modifies this`reservedCount
      ensures Valid() && reservedCount == (if count > old(reservedCount) then count else old(reservedCount))
    {
      if count > reservedCount {
        reservedCount := count;
      }
    }
  }
}
