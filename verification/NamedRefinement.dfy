/** The storage of named objects performs the steps of their life: what the manager's methods do to table and
    heap is, on the set of payloads in use, what the steps of the machine do. */
module NamedRefinement {
  import opened Segments
  import opened Chains
  import opened Heaps
  import opened HeapSteps
  import opened BlockAllocation
  import opened Registries
  import opened NamedEntries
  import opened NamedStorages
  import Life = NamedObjects

  /** The payloads of the blocks in use. */
  ghost function Payloads(v: View, live: map<int, int>): set<int> {
    set b | b in v.blocks && !b.free && b.addr in live :: live[b.addr]
  }

  /** A state of the machine shows this table and this heap. */
  ghost predicate Shows(s: Life.State, es: Entries, v: View, live: map<int, int>) {
    s.entries == es && s.heap == Payloads(v, live)
  }

  /** The heap, the payloads of its blocks and the blocks of the entries, at one moment. */
  ghost predicate Stored(m: Segment, v: View, live: map<int, int>, es: Entries, held: map<int, Held>) {
    Heap(m, v.blocks, v.frees) && Live(m, v.blocks, live) && AllHeld(v, live, es, held)
  }

  ghost function PayloadsOf(live: map<int, int>, bs: set<Block>): set<int> {
    set b | b in bs && b.addr in live :: live[b.addr]
  }

  /** The payloads of an entry's blocks are its header, its object and its name. */
  lemma EntryPayloads(m: Segment, v: View, live: map<int, int>, es: Entries, held: map<int, Held>, x: int)
    requires Stored(m, v, live, es, held) && x in es
    ensures PayloadsOf(live, held[x].Blocks()) == Life.Addrs(x, es[x])
    ensures x != es[x].ptr && x != es[x].nameAt && es[x].ptr != es[x].nameAt && x != 0
    ensures forall b :: b in held[x].Blocks() ==> InUse(v, b)
  {
    EntryBlocks(v, live, es, held, x);
    var h := held[x];
    assert h.obj in h.Blocks() && h.header in h.Blocks() && h.name in h.Blocks();
    PayloadsDiffer(m, v, live, h.obj, h.header);
    PayloadsDiffer(m, v, live, h.obj, h.name);
    PayloadsDiffer(m, v, live, h.header, h.name);
    PayloadNames(m, v, live, h.header, x);
  }

  // ---------------------------------------------------------------- blocks that come and go

  /** Blocks that go out of use take exactly their payloads away. */
  lemma PayloadsLess(m: Segment, v: View, v': View, live: map<int, int>, less: set<Block>)
    requires Heap(m, v.blocks, v.frees) && Live(m, v.blocks, live) && UseChanged(v, v', {}, less)
    requires forall b :: b in less ==> InUse(v, b)
    ensures Payloads(v', live) == Payloads(v, live) - PayloadsOf(live, less)
  {
    hide Heap;
    forall p | p in Payloads(v', live) ensures p in Payloads(v, live) && p !in PayloadsOf(live, less) {
      var b :| b in v'.blocks && !b.free && b.addr in live && live[b.addr] == p;
      forall c | c in less && c.addr in live ensures live[c.addr] != p {
        PayloadsDiffer(m, v, live, b, c);
      }
    }
    forall p | p in Payloads(v, live) && p !in PayloadsOf(live, less) ensures p in Payloads(v', live) {
      var b :| b in v.blocks && !b.free && b.addr in live && live[b.addr] == p;
      assert b !in less;
    }
  }

  /** Blocks that come into use bring exactly their payloads, and these are new. */
  lemma PayloadsMore(m: Segment, v: View, live: map<int, int>, m': Segment, v': View, live': map<int, int>,
                     more: set<Block>)
    requires Live(m, v.blocks, live)
    requires Heap(m', v'.blocks, v'.frees) && Live(m', v'.blocks, live')
    requires UseChanged(v, v', more, {}) && PayloadsKept(v, live, v', live')
    requires forall b :: b in more ==> InUse(v', b) && b !in v.blocks
    ensures Payloads(v', live') == Payloads(v, live) + PayloadsOf(live', more)
    ensures Payloads(v, live) !! PayloadsOf(live', more)
  {
    hide Heap;
    forall p | p in Payloads(v, live) ensures p in Payloads(v', live') && p !in PayloadsOf(live', more) {
      var b :| b in v.blocks && !b.free && b.addr in live && live[b.addr] == p;
      assert InUse(v, b);
      forall c | c in more && c.addr in live' ensures live'[c.addr] != p {
        PayloadsDiffer(m', v', live', b, c);
      }
    }
    forall p | p in Payloads(v', live') && p !in PayloadsOf(live', more) ensures p in Payloads(v, live) {
      var b :| b in v'.blocks && !b.free && b.addr in live' && live'[b.addr] == p;
      assert b !in more && InUse(v, b);
    }
    forall p | p in PayloadsOf(live', more) ensures p in Payloads(v', live') {
      var b :| b in more && b.addr in live' && live'[b.addr] == p;
    }
  }

  // ---------------------------------------------------------------- the steps

  /** What `NamedStorage.Reserve` does when it makes a new entry is the reservation step, and the machine allows it:
      the allocator's three payloads are new. */
  lemma ReserveIsStep(s: Life.State, t: Life.Tid, name: Name, m: Segment, v: View, live: map<int, int>, es: Entries,
                      m': Segment, v': View, live': map<int, int>, held': map<int, Held>, at: int, ptr: int,
                      nameAt: int)
    requires t in s.threads && s.threads[t].pc.Idle? && Shows(s, es, v, live) && Unused(es, name)
    requires Live(m, v.blocks, live)
    requires Stored(m', v', live', Reserved(es, at, name, ptr, nameAt, s.threads[t].pid), held')
    requires at in held' && UseChanged(v, v', held'[at].Blocks(), {}) && PayloadsKept(v, live, v', live')
    requires forall b :: b in held'[at].Blocks() ==> b !in v.blocks
    ensures Life.CanReserve(s, t, name, at, ptr, nameAt)
    ensures Shows(Life.Do(s, Life.Take(t, Life.Reserve(name, at, ptr, nameAt))),
                  Reserved(es, at, name, ptr, nameAt, s.threads[t].pid), v', live')
  {
    hide Heap, Live, AllHeld, UseChanged, PayloadsKept;
    var es' := Reserved(es, at, name, ptr, nameAt, s.threads[t].pid);
    EntryPayloads(m', v', live', es', held', at);
    PayloadsMore(m, v, live, m', v', live', held'[at].Blocks());
    assert Life.Addrs(at, es'[at]) == {at, ptr, nameAt};
  }

  /** What `NamedStorage.Remove` does is the end of a failed construction and of a destruction. */
  lemma RemoveIsStep(s: Life.State, t: Life.Tid, m: Segment, v: View, live: map<int, int>, es: Entries,
                     held: map<int, Held>, v': View, at: int)
    requires t in s.threads && Shows(s, es, v, live) && Stored(m, v, live, es, held) && at in es && at in held
    requires s.threads[t].pc.BuildFailed? || s.threads[t].pc.TornDown?
    requires s.threads[t].pc.at == at && UseChanged(v, v', {}, held[at].Blocks())
    ensures var step := if s.threads[t].pc.BuildFailed? then Life.Release else Life.FreeStorage;
            Shows(Life.Do(s, Life.Take(t, step)), es - {at}, v', live)
  {
    hide Heap, Live, AllHeld, UseChanged;
    EntryPayloads(m, v, live, es, held, at);
    PayloadsLess(m, v, v', live, held[at].Blocks());
  }

  /** What `NamedStorage.Publish` does is the step that makes an object ready. */
  lemma PublishIsStep(s: Life.State, t: Life.Tid, v: View, live: map<int, int>, es: Entries, at: int)
    requires t in s.threads && Shows(s, es, v, live) && at in es
    requires s.threads[t].pc.Built? && s.threads[t].pc.at == at
    ensures Shows(Life.Do(s, Life.Take(t, Life.Publish)), Published(es, at), v, live)
  {
  }

  /** What `NamedStorage.Claim` and `ClaimPtr` do is the step that begins a destruction. */
  lemma ClaimIsStep(s: Life.State, t: Life.Tid, v: View, live: map<int, int>, es: Entries, at: int)
    requires Life.Inv(s) && t in s.threads && Shows(s, es, v, live) && at in es && es[at].status.Ready?
    requires s.threads[t].pc.Idle?
    ensures var es' := Claimed(es, at, s.threads[t].pid);
            && Shows(Life.Do(s, Life.Take(t, Life.Destroy(es[at].name, at))), es', v, live)
            && Shows(Life.Do(s, Life.Take(t, Life.DestroyPtr(es[at].ptr, at))), es', v, live)
  {
  }

  /** The payloads of some of the entries. */
  ghost function OwnedBy(es: Entries, xs: set<int>): set<int> {
    set x, a | x in xs && x in es && a in Life.Addrs(x, es[x]) :: a
  }

  lemma OwnedByIn(es: Entries, xs: set<int>, x: int, p: int)
    requires x in xs && x in es && p in Life.Addrs(x, es[x])
    ensures p in OwnedBy(es, xs)
  {
  }

  lemma GoneBlocks(m: Segment, v: View, live: map<int, int>, es: Entries, held: map<int, Held>, gone: set<int>)
    requires Stored(m, v, live, es, held) && gone <= es.Keys
    ensures PayloadsOf(live, BlocksOf(held, gone)) == OwnedBy(es, gone)
    ensures forall b :: b in BlocksOf(held, gone) ==> InUse(v, b)
  {
    hide Heap, Live, AllHeld, Stored, InUse, Life.Addrs;
    assert held.Keys == es.Keys by { HeldKeys(m, v, live, es, held); }
    forall b | b in BlocksOf(held, gone) ensures InUse(v, b) && (b.addr in live ==> live[b.addr] in OwnedBy(es, gone)) {
      var x :| x in gone && x in held && b in held[x].Blocks();
      EntryPayloads(m, v, live, es, held, x);
      assert b.addr in live ==> live[b.addr] in PayloadsOf(live, held[x].Blocks());
      if b.addr in live { OwnedByIn(es, gone, x, live[b.addr]); }
    }
    forall p | p in OwnedBy(es, gone) ensures p in PayloadsOf(live, BlocksOf(held, gone)) {
      var x :| x in gone && x in es && p in Life.Addrs(x, es[x]);
      EntryPayloads(m, v, live, es, held, x);
      var b :| b in held[x].Blocks() && b.addr in live && live[b.addr] == p;
      assert b in BlocksOf(held, gone);
    }
  }

  /** The payloads of the entries that go are those that no surviving entry has. */
  lemma GoneOwned(m: Segment, v: View, live: map<int, int>, es: Entries, held: map<int, Held>, gone: set<int>)
    requires Stored(m, v, live, es, held) && gone <= es.Keys
    ensures OwnedBy(es, gone) == Life.Owned(es) - Life.Owned(es - gone)
  {
    hide Stored, Life.Addrs;
    var rest := es - gone;
    forall p | p in OwnedBy(es, gone) ensures p in Life.Owned(es) && p !in Life.Owned(rest) {
      var x :| x in gone && x in es && p in Life.Addrs(x, es[x]);
      forall y | y in rest ensures p !in Life.Addrs(y, rest[y]) {
        EntriesApart(m, v, live, es, held, x, y);
      }
    }
    forall p | p in Life.Owned(es) && p !in OwnedBy(es, gone) ensures p in Life.Owned(rest) {
      var x :| x in es && p in Life.Addrs(x, es[x]);
      assert x in rest && p in Life.Addrs(x, rest[x]);
    }
  }

  lemma HeldKeys(m: Segment, v: View, live: map<int, int>, es: Entries, held: map<int, Held>)
    requires Stored(m, v, live, es, held)
    ensures held.Keys == es.Keys
  {
  }

  lemma EntriesApart(m: Segment, v: View, live: map<int, int>, es: Entries, held: map<int, Held>, x: int, y: int)
    requires Stored(m, v, live, es, held) && x in es && y in es && x != y
    ensures Life.Addrs(x, es[x]) !! Life.Addrs(y, es[y])
  {
    EntryBlocks(v, live, es, held, x);
    EntryBlocks(v, live, es, held, y);
    EntryPayloads(m, v, live, es, held, x);
    EntryPayloads(m, v, live, es, held, y);
    hide Heap, Live, AllHeld;
    forall p | p in Life.Addrs(x, es[x]) ensures p !in Life.Addrs(y, es[y]) {
      var b :| b in held[x].Blocks() && b.addr in live && live[b.addr] == p;
      forall c | c in held[y].Blocks() ensures live[c.addr] != p {
        PayloadsDiffer(m, v, live, b, c);
      }
    }
  }

  lemma SweptAlike(es: Entries, f: nat -> bool, g: nat -> bool)
    requires forall p: nat :: f(p) <==> g(p)
    ensures Swept(es, f) == Swept(es, g)
  {
    forall x | x in es ensures Abandoned(es[x], f) <==> Abandoned(es[x], g) {
      assert f(es[x].owner) <==> g(es[x].owner);
    }
    var a, b := Swept(es, f), Swept(es, g);
    assert a.Keys == b.Keys && forall x :: x in a ==> a[x] == b[x];
  }

  /** What `NamedStorage.Recover` does is the recovery step. */
  lemma RecoverIsStep(s: Life.State, t: Life.Tid, m: Segment, v: View, live: map<int, int>, es: Entries,
                      held: map<int, Held>, v': View, alive: nat -> bool)
    requires t in s.threads && s.threads[t].pc.Idle? && Shows(s, es, v, live) && Stored(m, v, live, es, held)
    requires forall p: nat :: alive(p) <==> p in s.alive
    requires UseChanged(v, v', {}, BlocksOf(held, es.Keys - Swept(es, alive).Keys))
    ensures Shows(Life.Do(s, Life.Take(t, Life.Recover)), Swept(es, alive), v', live)
  {
    hide Heap, Live, AllHeld, UseChanged;
    var gone := es.Keys - Swept(es, alive).Keys;
    SweptAlike(es, alive, p => p in s.alive);
    assert es - gone == Swept(es, alive);
    GoneBlocks(m, v, live, es, held, gone);
    GoneOwned(m, v, live, es, held, gone);
    PayloadsLess(m, v, v', live, BlocksOf(held, gone));
  }
}
