/** What the manager does to the table of named objects under its lock, as functions on the table. */
module NamedEntries {
  import opened Registries

  /** `reserve_named_storage`: a new entry under construction. */
  function Reserved(es: Entries, at: int, name: Name, ptr: int, nameAt: int, owner: nat): Entries {
    es[at := Entry(name, ptr, nameAt, owner, Constructing)]
  }

  /** `mark_named_object_ready`. */
  function Published(es: Entries, at: int): Entries
    requires at in es
  {
    es[at := es[at].(owner := 0, status := Ready)]
  }

  /** The locked part of `destroy` and `destroy_ptr`. */
  function Claimed(es: Entries, at: int, owner: nat): Entries
    requires at in es
  {
    es[at := es[at].(owner := owner, status := Destroying)]
  }

  /** What recovery looks for: an object that is not ready and whose owner is dead. */
  predicate Abandoned(e: Entry, alive: nat -> bool) {
    !e.status.Ready? && !alive(e.owner)
  }

  /** `recover_abandoned_named_objects`. */
  function Swept(es: Entries, alive: nat -> bool): Entries {
    map x | x in es && !Abandoned(es[x], alive) :: es[x]
  }
}

/** The named objects of the manager: the registry, and the heap its entries are stored in. */
module NamedStorages {
  import opened Segments
  import opened Chains
  import opened Heaps
  import opened HeapSteps
  import opened Operations
  import opened Release
  import opened History
  import opened BlockAllocation
  import opened Requests
  import opened Registries
  import opened NamedEntries

  const HEADER_BYTES: Word := 80

  /** The three blocks of an entry. */
  datatype Held = Held(obj: Block, header: Block, name: Block)
  {
    ghost function Blocks(): set<Block> { {obj, header, name} }
  }

  ghost predicate InUse(v: View, b: Block) { b in v.blocks && !b.free }

  /** The block is in use and was handed out with this payload. */
  ghost predicate Backs(v: View, live: map<int, int>, b: Block, p: int) {
    InUse(v, b) && b.addr in live && live[b.addr] == p
  }

  /** The entry's object, header and name lie in three different blocks. */
  ghost predicate HoldsThree(v: View, live: map<int, int>, x: int, e: Entry, h: Held) {
    && Backs(v, live, h.obj, e.ptr) && Backs(v, live, h.header, x) && Backs(v, live, h.name, e.nameAt)
    && h.obj != h.header && h.obj != h.name && h.header != h.name
  }

  /** Every entry has three blocks of its own. */
  ghost predicate AllHeld(v: View, live: map<int, int>, es: Entries, held: map<int, Held>) {
    && held.Keys == es.Keys
    && (forall x :: x in es ==> HoldsThree(v, live, x, es[x], held[x]))
    && (forall x, y :: x in es && y in es && x != y ==> held[x].Blocks() !! held[y].Blocks())
  }

  /** Exactly the blocks `more` came into use, and exactly `less` went out of use. */
  ghost predicate UseChanged(v: View, v': View, more: set<Block>, less: set<Block>) {
    forall b: Block :: !b.free ==> (b in v'.blocks <==> (b in v.blocks && b !in less) || b in more)
  }

  /** Every block in use before is still in use, with the payload it had. */
  ghost predicate PayloadsKept(v: View, live: map<int, int>, v': View, live': map<int, int>) {
    forall b :: InUse(v, b) ==>
      && InUse(v', b) && (b.addr in live' <==> b.addr in live)
      && (b.addr in live ==> live'[b.addr] == live[b.addr])
  }

  lemma PayloadsKeptAtFirst(v: View, live: map<int, int>)
    ensures PayloadsKept(v, live, v, live)
  {
  }

  lemma PayloadsKeptMore(m: Segment, v0: View, live0: map<int, int>, v: View, live: map<int, int>, v': View,
                         c: Block, p: int)
    requires Heap(m, v'.blocks, v'.frees) && PayloadsKept(v0, live0, v, live) && OneMore(v, v', c)
    ensures PayloadsKept(v0, live0, v', live[c.addr := p])
  {
    forall b | InUse(v0, b) ensures InUse(v', b) && b.addr != c.addr {
      assert InUse(v, b);
      DifferentAddr(m, v', b, c);
    }
  }

  /** After a rollback the payloads of the blocks that stayed are the same. */
  lemma PayloadsKeptBack(v0: View, live0: map<int, int>, v: View, live: map<int, int>)
    requires PayloadsKept(v0, live0, v, live)
    ensures PayloadsKept(v0, live0, v0, live)
  {
  }

  /** One more block in use leaves every entry its own three. */
  lemma AllHeldMore(m: Segment, v: View, v': View, live: map<int, int>, c: Block, p: int, es: Entries,
                    held: map<int, Held>)
    requires Heap(m, v'.blocks, v'.frees) && AllHeld(v, live, es, held) && OneMore(v, v', c)
    ensures AllHeld(v', live[c.addr := p], es, held)
  {
    forall x | x in es ensures HoldsThree(v', live[c.addr := p], x, es[x], held[x]) {
      assert HoldsThree(v, live, x, es[x], held[x]);
      BackedStill(m, v, v', live, c, p, held[x].obj);
      BackedStill(m, v, v', live, c, p, held[x].header);
      BackedStill(m, v, v', live, c, p, held[x].name);
    }
  }

  lemma BackedStill(m: Segment, v: View, v': View, live: map<int, int>, c: Block, p: int, b: Block)
    requires Heap(m, v'.blocks, v'.frees) && OneMore(v, v', c) && InUse(v, b) && b.addr in live
    ensures Backs(v', live[c.addr := p], b, live[b.addr])
  {
    DifferentAddr(m, v', b, c);
  }

  /** Blocks of nobody may go out of use. */
  lemma AllHeldLess(v: View, v': View, live: map<int, int>, less: set<Block>, es: Entries, held: map<int, Held>)
    requires AllHeld(v, live, es, held) && UseChanged(v, v', {}, less)
    requires forall x :: x in es ==> held[x].Blocks() !! less
    ensures AllHeld(v', live, es, held)
  {
    forall x | x in es ensures HoldsThree(v', live, x, es[x], held[x]) {
      assert HoldsThree(v, live, x, es[x], held[x]);
      var h := held[x];
      assert h.obj in h.Blocks() && h.header in h.Blocks() && h.name in h.Blocks();
    }
  }

  /** The payload of a block in use is a pointer that names exactly that block. */
  lemma PayloadNames(m: Segment, v: View, live: map<int, int>, b: Block, p: int)
    requires Heap(m, v.blocks, v.frees) && Live(m, v.blocks, live) && Backs(v, live, b, p)
    ensures p != 0 && Names(m, v.blocks, p, b)
  {
    ChainBounds(m, m.first, m.End(), v.blocks);
  }

  /** Different blocks in use have different payloads. */
  lemma PayloadsDiffer(m: Segment, v: View, live: map<int, int>, b: Block, c: Block)
    requires Heap(m, v.blocks, v.frees) && Live(m, v.blocks, live) && InUse(v, b) && InUse(v, c) && b != c
    requires b.addr in live && c.addr in live
    ensures live[b.addr] != live[c.addr]
  {
    LivePayloadsDisjoint(m, v, live, b, c);
  }

  /** The payload was allocated with this size and is aligned as asked. */
  ghost predicate PayloadSized(m: Segment, p: int, n: Word, align: int) {
    m.Allocation(p).requested == n && 0 < align && p % align == 0
  }

  /** The storage of an entry is large enough for its object, its header and its name. */
  ghost predicate StorageSized(m: Segment, at: int, e: Entry, bytes: Word, align: int) {
    && |e.name| + 1 < WORD
    && PayloadSized(m, e.ptr, bytes, Normalized(align)) && PayloadSized(m, at, HEADER_BYTES, 16)
    && PayloadSized(m, e.nameAt, |e.name| + 1, 16)
  }

  /** What a new entry asks the heap for: the object, its header, and the name with its terminator. */
  function Needs(name: Name, bytes: Word, align: int): seq<Request>
    requires |name| + 1 < WORD
  {
    [Request(bytes, Normalized(align)), Request(HEADER_BYTES, Normalized(16)), Request(|name| + 1, Normalized(1))]
  }

  lemma NeedsInOrder(v: View, name: Name, bytes: Word, align: int)
    requires |name| + 1 < WORD
    ensures var qs := Needs(name, bytes, align);
            && qs[..1] == [qs[0]] && qs[..2] == [qs[0]] + [qs[1]] && qs[..3] == qs == [qs[0], qs[1]] + [qs[2]]
            && qs[..0] == [] && Served(v, [], v)
  {
  }

  datatype Reservation = Existing(ptr: int) | Busy | NewEntry(at: int, storage: int) | NoMemory

  class NamedStorage {
    const heap: BlockAllocator
    const reg: Registry
    ghost var held: map<int, Held>

    ghost predicate Valid()
      reads this, heap, reg, reg.buckets
    {
      && heap.Valid() && reg.Valid()
      && AllHeld(heap.view, heap.live, reg.entries, held)
    }

    constructor (heap: BlockAllocator, hash: Name -> nat)
      requires heap.Valid()
      ensures Valid() && this.heap == heap && reg.entries == map[] && fresh(reg) && fresh(reg.buckets)
    {
      this.heap := heap;
      reg := new Registry(hash);
      held := map[];
    }

    /** One allocation from the heap. */
    method Take(n: Word, align: int) returns (ptr: int, ghost c: Block)
      requires heap.Valid() && 0 < n
      modifies heap
      ensures heap.Valid() && SameRange(old(heap.seg), heap.seg)
      ensures ptr == 0 <==> !CanTake(old(heap.view), Request(n, Normalized(align)))
      ensures ptr == 0 ==> heap.view == old(heap.view) && heap.live == old(heap.live)
      ensures ptr != 0 ==> TakesTo(old(heap.view), Request(n, Normalized(align)), heap.view)
      ensures ptr != 0 ==> OneMore(old(heap.view), heap.view, c) && heap.live == old(heap.live)[c.addr := ptr]
      ensures ptr != 0 ==> PayloadSized(heap.seg, ptr, n, Normalized(align))
      ensures ptr != 0 ==> forall q :: q != ptr ==> heap.seg.Allocation(q) == old(heap.seg).Allocation(q)
    {
      hide Heap, Live, Took, OneMore, Total, Taken, PayloadSized, CanTake, TakesTo, Handed;
      ghost var m, v, lv, lg := heap.seg, heap.view, heap.live, heap.log;
      var r := heap.Allocate(n, align);
      c := Block(0, 0, false);
      if !r.Granted? {
        return 0, c;
      }
      ptr := r.p;
      ghost var b :| Took(v, b, n, Normalized(align), ptr, m, heap.seg, lv, heap.view, heap.live, lg, heap.log);
      c := TookBlock(m, heap.seg, v, b, n, Normalized(align), ptr, lv, heap.view, heap.live, lg, heap.log);
      TakenBacked(heap.seg, v, heap.view, heap.live, c, ptr);
    }

    /** `reserve_named_storage`: a new entry with three new blocks, or everything as it was. */
    method Reserve(name: Name, bytes: Word, align: int, returnExisting: bool, pid: nat) returns (r: Reservation)
      requires Valid() && 0 < bytes && |name| + 1 < WORD
      modifies this, heap, reg, reg.buckets
      ensures Valid() && SameRange(old(heap.seg), heap.seg)
      ensures PayloadsKept(old(heap.view), old(heap.live), heap.view, heap.live)
      ensures r.NewEntry? || r.NoMemory? <==> Unused(old(reg.entries), name)
      ensures r.NoMemory? <==> Unused(old(reg.entries), name) && Refused(old(heap.view), Needs(name, bytes, align))
      ensures r.NewEntry? ==> Served(old(heap.view), Needs(name, bytes, align), heap.view)
      ensures r.Existing? <==>
                && returnExisting
                && exists x ::
                     x in old(reg.entries) && old(reg.entries)[x].name == name && old(reg.entries)[x].status.Ready?
      ensures r.Existing? ==> exists x :: x in reg.entries && reg.entries[x].name == name && reg.entries[x].ptr == r.ptr
      ensures !r.NewEntry? ==> heap.view == old(heap.view) && reg.entries == old(reg.entries) && held == old(held)
      ensures r.NewEntry? ==> r.at !in old(reg.entries) && r.at in held && r.at in reg.entries && r.at != 0
      ensures r.NewEntry? ==>
                reg.entries == Reserved(old(reg.entries), r.at, name, r.storage, reg.entries[r.at].nameAt, pid)
      ensures r.NewEntry? ==> UseChanged(old(heap.view), heap.view, held[r.at].Blocks(), {})
      ensures r.NewEntry? ==> held == old(held)[r.at := held[r.at]]
      ensures r.NewEntry? ==> forall b :: b in held[r.at].Blocks() ==> b !in old(heap.view).blocks
      ensures r.NewEntry? ==> StorageSized(heap.seg, r.at, reg.entries[r.at], bytes, align)
    {
      hide Heap, Live, ChainsIn, ReadyOnes, OneMore, AllHeld, UseChanged, Stages, PayloadsKept, Served, Refused, Needs;
      PayloadsKeptAtFirst(heap.view, heap.live);
      var existing := reg.FindAny(name);
      if existing != 0 {
        if returnExisting && reg.entries[existing].status.Ready? {
          return Existing(reg.entries[existing].ptr);
        }
        return Busy;
      }
      var obj, header, nameAt;
      ghost var h;
      obj, header, nameAt, h := TakeThree(name, bytes, align, pid);
      if header == 0 {
        return NoMemory;
      }
      reg.Insert(header, Entry(name, obj, nameAt, pid, Constructing));
      held := held[header := h];
      r := NewEntry(header, obj);
    }

    /** The three allocations of `reserve_named_storage`, all or none. */
    method TakeThree(name: Name, bytes: Word, align: int, pid: nat)
      returns (obj: int, header: int, nameAt: int, ghost h: Held)
      requires Valid() && 0 < bytes && |name| + 1 < WORD
      modifies heap
      ensures heap.Valid() && SameRange(old(heap.seg), heap.seg)
      ensures PayloadsKept(old(heap.view), old(heap.live), heap.view, heap.live)
      ensures header == 0 <==> Refused(old(heap.view), Needs(name, bytes, align))
      ensures header != 0 ==> Served(old(heap.view), Needs(name, bytes, align), heap.view)
      ensures header == 0 ==> heap.view == old(heap.view) && AllHeld(heap.view, heap.live, reg.entries, held)
      ensures header != 0 ==>
                var e := Entry(name, obj, nameAt, pid, Constructing);
                && header !in reg.entries
                && AllHeld(heap.view, heap.live, reg.entries[header := e], held[header := h])
                && UseChanged(old(heap.view), heap.view, h.Blocks(), {})
                && (forall b :: b in h.Blocks() ==> b !in old(heap.view).blocks)
                && StorageSized(heap.seg, header, e, bytes, align)
    {
      hide Heap, Live, ChainsIn, ReadyOnes, OneMore, AllHeld, UseChanged, Stages, PayloadsKept, Served, Refused,
           CanTake, TakesTo;
      PayloadsKeptAtFirst(heap.view, heap.live);
      ghost var v0, qs := heap.view, Needs(name, bytes, align);
      NeedsInOrder(v0, name, bytes, align);
      ghost var es, lv, c := reg.entries, heap.live, Block(0, 0, false);
      ghost var ss, taken: seq<Block> := [Stage(heap.seg, heap.view)], [];
      h := Held(c, c, c);
      FirstStage(heap.seg, heap.view, heap.live);
      obj, header, nameAt := 0, 0, 0;
      obj, c := Take(bytes, align);
      if obj == 0 {
        RefusedHere(v0, qs, 0, v0);
        return;
      }
      ss, taken := NextStage(ss, taken, [], lv, heap.seg, heap.view, c, obj, es, held, old(heap.live));
      assert [] + [obj] == [obj];
      lv := heap.live;
      ghost var v1 := heap.view;
      ServedSnoc(v0, [], v0, qs[0], v1);
      assert [] + [qs[0]] == [qs[0]];
      header, c := Take(HEADER_BYTES, 16);
      if header == 0 {
        RefusedHere(v0, qs, 1, v1);
        Undo([obj], ss, taken, old(heap.live));
        return;
      }
      ss, taken := NextStage(ss, taken, [obj], lv, heap.seg, heap.view, c, header, es, held, old(heap.live));
      assert [obj] + [header] == [obj, header];
      lv := heap.live;
      ghost var v2 := heap.view;
      ServedSnoc(v0, [qs[0]], v1, qs[1], v2);
      assert [qs[0]] + [qs[1]] == [qs[0], qs[1]];
      nameAt, c := Take(|name| + 1, 1);
      if nameAt == 0 {
        RefusedHere(v0, qs, 2, v2);
        Undo([obj, header], ss, taken, old(heap.live));
        header := 0;
        return;
      }
      ss, taken := NextStage(ss, taken, [obj, header], lv, heap.seg, heap.view, c, nameAt, es, held, old(heap.live));
      assert [obj, header] + [nameAt] == [obj, header, nameAt];
      ServedSnoc(v0, [qs[0], qs[1]], v2, qs[2], heap.view);
      ServedNotRefused(v0, qs, heap.view);
      h := Held(taken[0], taken[1], taken[2]);
      ghost var e := Entry(name, obj, nameAt, pid, Constructing);
      ThreeNew(heap.seg, ss, taken, [obj, header, nameAt], old(heap.live), heap.live, es, held, e);
      PayloadsApart(heap.seg, ss, taken, [obj, header, nameAt], heap.live);
    }

    /** The rollback of `reserve_named_storage`. */
    method Undo(out: seq<int>, ghost ss: seq<Stage>, ghost taken: seq<Block>, ghost live0: map<int, int>)
      requires Valid() && Stages(ss, taken, out, heap.live) && ss[|taken|].v == heap.view
               && SameRange(ss[0].m, heap.seg)
      requires AllHeld(ss[0].v, live0, reg.entries, held) && PayloadsKept(ss[0].v, live0, heap.view, heap.live)
      modifies heap
      ensures Valid() && SameRange(old(heap.seg), heap.seg) && heap.view == ss[0].v
      ensures PayloadsKept(ss[0].v, live0, heap.view, heap.live)
    {
      hide Heap, Live, ChainsIn, ReadyOnes, AllHeld, Stages, PayloadsKept;
      ghost var v, lv := heap.view, heap.live;
      StagesSizes(ss, taken, out, lv);
      PayloadsKeptBack(ss[0].v, live0, heap.view, heap.live);
      heap.RollBack(out, ss, taken);
      AllHeldBack(ss[0].v, live0, v, lv, reg.entries, held);
    }

    /** `deallocate` of the payload of a block in use. */
    method Give(ptr: int, ghost c: Block)
      requires heap.Valid() && Backs(heap.view, heap.live, c, ptr)
      modifies heap
      ensures heap.Valid() && SameRange(old(heap.seg), heap.seg) && heap.live == old(heap.live)
      ensures UseChanged(old(heap.view), heap.view, {}, {c})
    {
      hide Heap, Live, Names, Released, UseChanged, Mergeable, SiteOf;
      ghost var m, v, lg := heap.seg, heap.view, heap.log;
      PayloadNames(m, v, heap.live, c, ptr);
      var r := heap.Deallocate(ptr);
      ghost var b :| Names(m, v.blocks, ptr, b) && Released(v, b, m, heap.seg, heap.view, lg, heap.log);
      NamesOne(m, v, ptr, b, c);
      ReleasedUse(m, v, c, heap.seg, heap.view, lg, heap.log);
    }

    /** `deallocate_named_storage_unlocked`: the entry goes, and exactly its three blocks with it. */
    method Remove(at: int)
      requires Valid() && at in reg.entries
      modifies this, heap, reg, reg.buckets
      ensures Valid() && SameRange(old(heap.seg), heap.seg)
      ensures at in old(held) && reg.entries == old(reg.entries) - {at} && held == old(held) - {at}
      ensures heap.live == old(heap.live)
      ensures UseChanged(old(heap.view), heap.view, {}, old(held)[at].Blocks())
    {
      hide Heap, Live, ChainsIn, ReadyOnes, AllHeld, UseChanged, Backs;
      ghost var v, lv := heap.view, heap.live;
      EntryBlocks(v, lv, reg.entries, held, at);
      ghost var h := held[at];
      var storage, name := reg.entries[at].ptr, reg.entries[at].nameAt;
      AllHeldWithout(v, lv, reg.entries, held, at);
      reg.Unlink(at, reg.hash(reg.entries[at].name));
      held := held - {at};
      Give(name, h.name);
      ghost var v1 := heap.view;
      StillBacked(v, v1, lv, h.header, h.name, at);
      StillBacked(v, v1, lv, h.obj, h.name, storage);
      Give(at, h.header);
      ghost var v2 := heap.view;
      StillBacked(v1, v2, lv, h.obj, h.header, storage);
      Give(storage, h.obj);
      ThreeGiven(v, v1, v2, heap.view, h);
      AllHeldLess(v, heap.view, lv, h.Blocks(), reg.entries, held);
    }

    /** `mark_named_object_ready`. */
    method Publish(at: int)
      requires Valid() && at in reg.entries
      modifies reg
      ensures Valid() && reg.entries == Published(old(reg.entries), at)
    {
      hide Heap, Live, ChainsIn, ReadyOnes, AllHeld;
      AllHeldSame(heap.view, heap.live, reg.entries, held, at, reg.entries[at].(owner := 0, status := Ready));
      reg.SetOwner(at, 0);
      reg.MarkReady(at);
      assert reg.entries == Published(old(reg.entries), at);
    }

    /** The locked part of `destroy`: a ready object is claimed for destruction, or nothing happens. */
    method Claim(name: Name, pid: nat) returns (at: int)
      requires Valid()
      modifies reg
      ensures Valid()
      ensures at == 0 <==> forall x :: x in old(reg.entries) && old(reg.entries)[x].name == name ==>
                             !old(reg.entries)[x].status.Ready?
      ensures at == 0 ==> reg.entries == old(reg.entries)
      ensures at != 0 ==>
                && at in old(reg.entries) && old(reg.entries)[at].name == name
                && old(reg.entries)[at].status.Ready?
      ensures at != 0 ==> reg.entries == Claimed(old(reg.entries), at, pid)
    {
      hide Heap, Live, ChainsIn, ReadyOnes, AllHeld;
      at := reg.FindReady(name);
      if at != 0 {
        AllHeldSame(heap.view, heap.live, reg.entries, held, at, reg.entries[at].(owner := pid, status := Destroying));
        reg.MarkNotReady(at, Destroying);
        reg.SetOwner(at, pid);
        assert reg.entries == Claimed(old(reg.entries), at, pid);
      }
    }

    /** The locked part of `destroy_ptr`. */
    method ClaimPtr(ptr: int, pid: nat) returns (at: int)
      requires Valid()
      modifies reg
      ensures Valid()
      ensures at == 0 <==> forall x :: x in old(reg.entries) && old(reg.entries)[x].ptr == ptr ==>
                             !old(reg.entries)[x].status.Ready?
      ensures at == 0 ==> reg.entries == old(reg.entries)
      ensures at != 0 ==>
                && at in old(reg.entries) && old(reg.entries)[at].ptr == ptr
                && old(reg.entries)[at].status.Ready?
      ensures at != 0 ==> reg.entries == Claimed(old(reg.entries), at, pid)
    {
      hide Heap, Live, ChainsIn, ReadyOnes, AllHeld;
      at := reg.FindReadyByPtr(ptr);
      if at != 0 {
        AllHeldSame(heap.view, heap.live, reg.entries, held, at, reg.entries[at].(owner := pid, status := Destroying));
        reg.MarkNotReady(at, Destroying);
        reg.SetOwner(at, pid);
        assert reg.entries == Claimed(old(reg.entries), at, pid);
      }
    }

    /** One round of recovery. */
    method RecoverOne(alive: nat -> bool) returns (x: int)
      requires Valid()
      modifies this, heap, reg, reg.buckets
      ensures Valid() && SameRange(old(heap.seg), heap.seg) && heap.live == old(heap.live)
      ensures x == 0 ==> reg.entries == old(reg.entries) && held == old(held) && heap.view == old(heap.view)
      ensures x == 0 ==> forall y :: y in reg.entries ==> !Abandoned(reg.entries[y], alive)
      ensures x != 0 ==>
                && x in old(reg.entries) && x in old(held) && Abandoned(old(reg.entries)[x], alive)
                && reg.entries == old(reg.entries) - {x} && held == old(held) - {x}
                && |reg.entries| < |old(reg.entries)|
                && UseChanged(old(heap.view), heap.view, {}, old(held)[x].Blocks())
    {
      hide Heap, Live, ChainsIn, ReadyOnes, AllHeld, UseChanged, UniqueNames;
      x := reg.FindIf((e: Entry) => Abandoned(e, alive));
      if x != 0 {
        RemovedSmaller(reg.entries, x);
        Remove(x);
      }
    }

    /** `recover_abandoned_named_objects`: exactly the abandoned entries go. */
    method Recover(alive: nat -> bool) returns (recovered: nat)
      requires Valid()
      modifies this, heap, reg, reg.buckets
      ensures Valid() && SameRange(old(heap.seg), heap.seg)
      ensures reg.entries == Swept(old(reg.entries), alive) && recovered == |old(reg.entries)| - |reg.entries|
      ensures forall x :: x in held ==> x in old(held) && held[x] == old(held)[x]
      ensures heap.live == old(heap.live)
      ensures UseChanged(old(heap.view), heap.view, {}, BlocksOf(old(held), old(reg.entries).Keys - reg.entries.Keys))
    {
      hide Heap, Live, ChainsIn, ReadyOnes, AllHeld, UseChanged, BlocksOf, UniqueNames, Swept, Abandoned;
      recovered := 0;
      ghost var es, v, hs := reg.entries, heap.view, held;
      ghost var gone: set<int> := {};
      NothingGone(v, hs);
      while true
        invariant Valid() && SameRange(old(heap.seg), heap.seg) && heap.live == old(heap.live)
        invariant reg.entries == es - gone && held == hs - gone && gone <= es.Keys && |gone| == recovered
        invariant forall x :: x in gone ==> x in es && Abandoned(es[x], alive)
        invariant UseChanged(v, heap.view, {}, BlocksOf(hs, gone))
        decreases |reg.entries|
      {
        ghost var v1 := heap.view;
        var abandoned := RecoverOne(alive);
        if abandoned == 0 {
          SweptAll(reg.entries, es, alive);
          assert es.Keys - reg.entries.Keys == gone;
          GoneCount(es, gone);
          return;
        }
        recovered := recovered + 1;
        OneMoreGone(v, v1, heap.view, hs, gone, abandoned);
        gone := gone + {abandoned};
        assert es - gone == reg.entries && hs - gone == held;
      }
    }
  }

  lemma TakenBacked(m: Segment, v: View, v': View, live: map<int, int>, c: Block, p: int)
    requires Heap(m, v'.blocks, v'.frees) && Live(m, v'.blocks, live) && OneMore(v, v', c) && c.addr in live
             && live[c.addr] == p
    ensures p != 0 && Backs(v', live, c, p)
  {
    PayloadNames(m, v', live, c, p);
  }

  lemma TookBlock(m: Segment, m': Segment, v: View, b: Block, n: Word, align: int, p: int, live: map<int, int>,
                  v': View, live': map<int, int>, log: seq<Store>, log': seq<Store>) returns (c: Block)
    requires Heap(m, v.blocks, v.frees) && Took(v, b, n, align, p, m, m', live, v', live', log, log')
    ensures OneMore(v, v', c) && live' == live[c.addr := p]
    ensures PayloadSized(m', p, n, align) && forall q :: q != p ==> m'.Allocation(q) == m.Allocation(q)
  {
    AllocateHeader(m, v.frees, b, Total(b.addr, n, align), p, n);
    c := Taken(b, Total(b.addr, n, align));
    TookOneMore(m, m', v, b, n, align, p, live, v', live', log, log');
  }

  /** One more allocation: the next stage, and every entry keeps its own. */
  lemma NextStage(ss: seq<Stage>, taken: seq<Block>, out: seq<int>, live: map<int, int>, m: Segment, v: View,
                  c: Block, p: int, es: Entries, held: map<int, Held>, live0: map<int, int>)
    returns (ss': seq<Stage>, taken': seq<Block>)
    requires Stages(ss, taken, out, live) && Heap(m, v.blocks, v.frees) && SameRange(ss[0].m, m)
             && OneMore(ss[|taken|].v, v, c)
    requires AllHeld(ss[|taken|].v, live, es, held) && PayloadsKept(ss[0].v, live0, ss[|taken|].v, live)
    ensures PayloadsKept(ss[0].v, live0, v, live[c.addr := p])
    ensures Stages(ss', taken', out + [p], live[c.addr := p]) && |taken'| == |taken| + 1
    ensures |ss'| == |taken'| + 1 && ss'[0] == ss[0] && ss'[|taken'|] == Stage(m, v)
    ensures AllHeld(v, live[c.addr := p], es, held)
  {
    PushStage(ss, taken, out, live, m, v, c, p);
    PayloadsKeptMore(m, ss[0].v, live0, ss[|taken|].v, live, v, c, p);
    AllHeldMore(m, ss[|taken|].v, v, live, c, p, es, held);
    ss', taken' := ss + [Stage(m, v)], taken + [c];
  }

  lemma ReleasedUse(m: Segment, v: View, c: Block, m': Segment, v': View, log: seq<Store>, log': seq<Store>)
    requires Heap(m, v.blocks, v.frees) && Released(v, c, m, m', v', log, log')
    ensures UseChanged(v, v', {}, {c})
  {
    DeallocateInUse(m, v, c);
  }

  lemma StagesSizes(ss: seq<Stage>, taken: seq<Block>, out: seq<int>, live: map<int, int>)
    requires Stages(ss, taken, out, live)
    ensures |ss| == |taken| + 1 && |out| == |taken| && Heap(ss[0].m, ss[0].v.blocks, ss[0].v.frees)
  {
  }

  lemma FirstStage(m: Segment, v: View, live: map<int, int>)
    requires Heap(m, v.blocks, v.frees)
    ensures Stages([Stage(m, v)], [], [], live)
  {
  }

  /** What the entries held before is still theirs after the blocks of a failed reservation are freed. */
  lemma AllHeldBack(v: View, live: map<int, int>, v': View, live': map<int, int>, es: Entries, held: map<int, Held>)
    requires AllHeld(v, live, es, held) && AllHeld(v', live', es, held)
    ensures AllHeld(v, live', es, held)
  {
    forall x | x in es ensures HoldsThree(v, live', x, es[x], held[x]) {
      assert HoldsThree(v, live, x, es[x], held[x]) && HoldsThree(v', live', x, es[x], held[x]);
    }
  }

  /** Three allocations bring exactly three blocks into use. */
  lemma ThreeStages(ss: seq<Stage>, taken: seq<Block>, out: seq<int>, live: map<int, int>)
    requires Stages(ss, taken, out, live) && |taken| == 3
    ensures var v, v3, cs := ss[0].v, ss[3].v, {taken[0], taken[1], taken[2]};
            && UseChanged(v, v3, cs, {}) && (forall b :: b in cs ==> b !in v.blocks && InUse(v3, b))
            && taken[0] != taken[1] && taken[0] != taken[2] && taken[1] != taken[2]
            && forall i :: 0 <= i < 3 ==> Backs(v3, live, taken[i], out[i])
  {
    assert OneMore(ss[0].v, ss[1].v, taken[0]);
    assert OneMore(ss[1].v, ss[2].v, taken[1]);
    assert OneMore(ss[2].v, ss[3].v, taken[2]);
  }

  /** The new entry's blocks belong to nobody else, and its header is at a new address. */
  lemma ThreeNew(m: Segment, ss: seq<Stage>, taken: seq<Block>, out: seq<int>, live0: map<int, int>,
                 live: map<int, int>, es: Entries, held: map<int, Held>, e: Entry)
    requires Stages(ss, taken, out, live) && |taken| == 3 && Heap(m, ss[3].v.blocks, ss[3].v.frees)
             && Live(m, ss[3].v.blocks, live)
    requires AllHeld(ss[0].v, live0, es, held) && AllHeld(ss[3].v, live, es, held) && e.ptr == out[0]
             && e.nameAt == out[2]
    ensures var h := Held(taken[0], taken[1], taken[2]);
            && out[1] != 0 && out[1] !in es
            && AllHeld(ss[3].v, live, es[out[1] := e], held[out[1] := h])
            && UseChanged(ss[0].v, ss[3].v, h.Blocks(), {}) && forall b :: b in h.Blocks() ==> b !in ss[0].v.blocks
  {
    ThreeStages(ss, taken, out, live);
    StagesSizes(ss, taken, out, live);
    hide Stages, Heap, Live, UseChanged, HoldsThree;
    var v, v3, h := ss[0].v, ss[3].v, Held(taken[0], taken[1], taken[2]);
    PayloadNames(m, v3, live, taken[1], out[1]);
    NewThree(v3, live, h, out, e);
    forall x | x in es ensures x != out[1] && held[x].Blocks() !! h.Blocks() {
      EntryApart(m, v, v3, live0, live, x, es[x], held[x], h, out[1]);
    }
    AllHeldAdded(v3, live, es, held, out[1], e, h);
  }

  lemma AllHeldAdded(v: View, live: map<int, int>, es: Entries, held: map<int, Held>, x: int, e: Entry, h: Held)
    requires AllHeld(v, live, es, held) && HoldsThree(v, live, x, e, h) && x !in es
    requires forall y :: y in es ==> held[y].Blocks() !! h.Blocks()
    ensures AllHeld(v, live, es[x := e], held[x := h])
  {
    hide HoldsThree;
    assert held[x := h].Keys == es[x := e].Keys;
  }

  lemma PayloadsApart(m: Segment, ss: seq<Stage>, taken: seq<Block>, out: seq<int>, live: map<int, int>)
    requires Stages(ss, taken, out, live) && |taken| == 3 && Heap(m, ss[3].v.blocks, ss[3].v.frees)
             && Live(m, ss[3].v.blocks, live)
    ensures |out| == 3 && out[0] != out[1] && out[0] != out[2] && out[1] != out[2]
  {
    ThreeStages(ss, taken, out, live);
    PayloadsDiffer(m, ss[3].v, live, taken[0], taken[1]);
    PayloadsDiffer(m, ss[3].v, live, taken[0], taken[2]);
    PayloadsDiffer(m, ss[3].v, live, taken[1], taken[2]);
  }

  lemma NewThree(v: View, live: map<int, int>, h: Held, out: seq<int>, e: Entry)
    requires |out| == 3 && Backs(v, live, h.obj, out[0]) && Backs(v, live, h.header, out[1])
             && Backs(v, live, h.name, out[2])
    requires h.obj != h.header && h.obj != h.name && h.header != h.name && e.ptr == out[0] && e.nameAt == out[2]
    ensures HoldsThree(v, live, out[1], e, h)
  {
  }

  lemma EntryApart(m: Segment, v: View, v3: View, live0: map<int, int>, live: map<int, int>, x: int, e: Entry,
                   g: Held, h: Held, at: int)
    requires Heap(m, v3.blocks, v3.frees) && Live(m, v3.blocks, live)
    requires HoldsThree(v, live0, x, e, g) && HoldsThree(v3, live, x, e, g) && Backs(v3, live, h.header, at)
    requires forall b :: b in h.Blocks() ==> b !in v.blocks
    ensures x != at && g.Blocks() !! h.Blocks()
  {
    assert h.header in h.Blocks();
    PayloadsDiffer(m, v3, live, g.header, h.header);
  }

  lemma EntryBlocks(v: View, live: map<int, int>, es: Entries, held: map<int, Held>, x: int)
    requires AllHeld(v, live, es, held) && x in es
    ensures x in held && HoldsThree(v, live, x, es[x], held[x])
    ensures forall y :: y in es && y != x ==> held[y].Blocks() !! held[x].Blocks()
  {
  }

  /** Without one entry, the others still have theirs. */
  lemma AllHeldWithout(v: View, live: map<int, int>, es: Entries, held: map<int, Held>, x: int)
    requires AllHeld(v, live, es, held) && x in es
    ensures AllHeld(v, live, es - {x}, held - {x})
  {
    forall y | y in es - {x} ensures HoldsThree(v, live, y, (es - {x})[y], (held - {x})[y]) {
      assert HoldsThree(v, live, y, es[y], held[y]);
    }
  }

  /** A change of owner or status moves no storage. */
  lemma AllHeldSame(v: View, live: map<int, int>, es: Entries, held: map<int, Held>, x: int, e: Entry)
    requires AllHeld(v, live, es, held) && x in es && e.ptr == es[x].ptr && e.nameAt == es[x].nameAt
    ensures AllHeld(v, live, es[x := e], held)
  {
    var es' := es[x := e];
    forall y | y in es' ensures HoldsThree(v, live, y, es'[y], held[y]) {
      assert HoldsThree(v, live, y, es[y], held[y]);
    }
  }

  lemma StillBacked(v: View, v': View, live: map<int, int>, c: Block, d: Block, p: int)
    requires Backs(v, live, c, p) && UseChanged(v, v', {}, {d}) && c != d
    ensures Backs(v', live, c, p)
  {
  }

  lemma ThreeGiven(v: View, v1: View, v2: View, v3: View, h: Held)
    requires UseChanged(v, v1, {}, {h.name}) && UseChanged(v1, v2, {}, {h.header}) && UseChanged(v2, v3, {}, {h.obj})
    ensures UseChanged(v, v3, {}, h.Blocks())
  {
  }

  /** Removing the entry that was reserved last restores chain and free list exactly. */
  lemma RemoveUndoesReserve(m: Segment, v: View, v1: View, m2: Segment, v2: View, h: Held)
    requires Heap(m, v.blocks, v.frees) && Heap(m2, v2.blocks, v2.frees) && SameRange(m, m2)
    requires UseChanged(v, v1, h.Blocks(), {}) && UseChanged(v1, v2, {}, h.Blocks())
    requires forall b :: b in h.Blocks() ==> b !in v.blocks
    ensures v2 == v
  {
    HeapDetermined(m, m2, v, v2);
  }

  /** The blocks of several entries. */
  ghost function BlocksOf(held: map<int, Held>, xs: set<int>): set<Block> {
    set x, b | x in xs && x in held && b in held[x].Blocks() :: b
  }

  lemma NothingGone(v: View, held: map<int, Held>)
    ensures BlocksOf(held, {}) == {} && UseChanged(v, v, {}, BlocksOf(held, {}))
  {
  }

  lemma OneMoreGone(v: View, v1: View, v2: View, held: map<int, Held>, gone: set<int>, x: int)
    requires UseChanged(v, v1, {}, BlocksOf(held, gone)) && x in held && UseChanged(v1, v2, {}, held[x].Blocks())
    ensures UseChanged(v, v2, {}, BlocksOf(held, gone + {x}))
  {
    assert BlocksOf(held, gone + {x}) == BlocksOf(held, gone) + held[x].Blocks();
  }

  lemma RemovedSmaller(es: Entries, x: int)
    requires x in es
    ensures |es - {x}| < |es|
  {
    ReadyRemoved(es, x);
  }

  lemma GoneCount(es: Entries, gone: set<int>)
    requires gone <= es.Keys
    ensures |es - gone| == |es| - |gone|
  {
    assert (es - gone).Keys == es.Keys - gone;
  }

  /** Nothing is left that recovery would remove. */
  lemma SweptAll(es: Entries, es0: Entries, alive: nat -> bool)
    requires forall x :: x in es ==> x in es0 && es[x] == es0[x] && !Abandoned(es[x], alive)
    requires forall x :: x in es0 && x !in es ==> Abandoned(es0[x], alive)
    ensures es == Swept(es0, alive)
  {
    var r := Swept(es0, alive);
    forall x ensures x in es <==> x in r {
      assert x in es0 && x !in es ==> Abandoned(es0[x], alive);
    }
    assert forall x :: x in es ==> es[x] == r[x];
    assert es == r;
  }
}
