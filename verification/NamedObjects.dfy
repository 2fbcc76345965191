/** The life of named objects over all interleavings of threads in processes that can die. The
    locked sections are single steps; constructors and destructors run between them, unlocked. */
module NamedObjects {
  import opened Registries
  import opened NamedEntries

  type Pid = nat
  type Tid = nat

  /** Where a thread stands. In every place but the first and the last it holds the address of a
      header across an unlocked window; `uid` is the object it means. */
  datatype Pc =
    | Idle
    | InConstructor(at: int, uid: nat)
    | Built(at: int, uid: nat)
    | BuildFailed(at: int, uid: nat)
    | BeforeDestructor(at: int, uid: nat)
    | InDestructor(at: int, uid: nat)
    | TornDown(at: int, uid: nat)
    | Stopped

  predicate Window(pc: Pc) { !pc.Idle? && !pc.Stopped? }

  predicate Building(pc: Pc) { pc.InConstructor? || pc.Built? || pc.BuildFailed? }

  datatype Thread = Thread(pid: Pid, pc: Pc)

  /** What a lookup returned, and whether that object was complete at that moment. */
  datatype Found = Found(name: Name, ptr: int, uid: nat, constructed: bool, destructions: nat)

  /** An object: the name it was reserved under, and where it lies. */
  datatype Object = Object(name: Name, ptr: int)

  datatype State = State(
    entries: Entries,
    uids: map<int, nat>,          // which object an entry stands for
    nextUid: nat,
    objects: map<nat, Object>,    // every object there was
    threads: map<Tid, Thread>,
    alive: set<Pid>,
    gone: set<Pid>,               // process ids are not reused
    constructed: set<nat>,        // constructors that returned
    destructions: map<nat, nat>,  // how often a destructor was started
    found: seq<Found>,
    heap: set<int>,               // payloads in use
    user: set<int>)               // those that do not belong to named objects

  function Times(m: map<nat, nat>, u: nat): nat { if u in m then m[u] else 0 }

  function At(s: State, t: Tid, pc: Pc): State
    requires t in s.threads
  {
    s.(threads := s.threads[t := s.threads[t].(pc := pc)])
  }

  /** The payloads of one entry: header, object and name. */
  function Addrs(x: int, e: Entry): set<int> { {x, e.ptr, e.nameAt} }

  ghost function Owned(es: Entries): set<int> {
    set x, a | x in es && a in Addrs(x, es[x]) :: a
  }

  // ---------------------------------------------------------------- steps

  /** What a thread does next. The addresses are those the allocator or a lookup comes up with. */
  datatype Step =
    | Reserve(name: Name, at: int, ptr: int, nameAt: int)
    | Construct(throws: bool)
    | Publish
    | Release
    | Find(name: Name, at: int)
    | Destroy(name: Name, at: int)
    | DestroyPtr(ptr: int, at: int)
    | Destruct
    | FinishDestructor
    | FreeStorage
    | Recover

  datatype Action =
    | Spawn(t: Tid, pid: Pid)
    | Die(pid: Pid)
    | Allocate(p: int)
    | Free(p: int)
    | Take(t: Tid, step: Step)

  /** The name is unused and the allocator hands out three payloads, which are new. */
  ghost predicate CanReserve(s: State, t: Tid, name: Name, at: int, ptr: int, nameAt: int)
    requires t in s.threads
  {
    && s.threads[t].pc.Idle? && Unused(s.entries, name) && at != 0
    && at != ptr && at != nameAt && ptr != nameAt && at !in s.heap && ptr !in s.heap && nameAt !in s.heap
  }

  ghost function DoReserve(s: State, t: Tid, name: Name, at: int, ptr: int, nameAt: int): State
    requires t in s.threads
  {
    if CanReserve(s, t, name, at, ptr, nameAt) then
         At(s, t, InConstructor(at, s.nextUid)).(
           entries := Reserved(s.entries, at, name, ptr, nameAt, s.threads[t].pid),
           uids := s.uids[at := s.nextUid], nextUid := s.nextUid + 1,
           objects := s.objects[s.nextUid := Object(name, ptr)],
           heap := s.heap + {at, ptr, nameAt})
    else s
  }

  function Remove(s: State, at: int): State {
    if at in s.entries then
      s.(entries := s.entries - {at}, uids := s.uids - {at}, heap := s.heap - Addrs(at, s.entries[at]))
    else s
  }

  function DoPublish(s: State, t: Tid): State
    requires t in s.threads
  {
    var pc := s.threads[t].pc;
    if pc.Built? && pc.at in s.entries then At(s, t, Idle).(entries := Published(s.entries, pc.at)) else s
  }

  /** The end of a failed construction and of a destruction: relock and free the storage. */
  function DoRemove(s: State, t: Tid): State
    requires t in s.threads && Window(s.threads[t].pc)
  {
    At(Remove(s, s.threads[t].pc.at), t, Idle)
  }

  function DoFind(s: State, name: Name, at: int): State {
    if at in s.entries && at in s.uids && s.entries[at].name == name && s.entries[at].status.Ready? then
      var u := s.uids[at];
      s.(found := s.found + [Found(name, s.entries[at].ptr, u, u in s.constructed, Times(s.destructions, u))])
    else s
  }

  function DoClaim(s: State, t: Tid, at: int): State
    requires t in s.threads
  {
    if s.threads[t].pc.Idle? && at in s.entries && at in s.uids && s.entries[at].status.Ready? then
      At(s, t, BeforeDestructor(at, s.uids[at])).(entries := Claimed(s.entries, at, s.threads[t].pid))
    else s
  }

  function DoDestruct(s: State, t: Tid): State
    requires t in s.threads
  {
    var pc := s.threads[t].pc;
    if pc.BeforeDestructor? then
      At(s, t, InDestructor(pc.at, pc.uid)).(
        destructions := s.destructions[pc.uid := Times(s.destructions, pc.uid) + 1])
    else s
  }

  function DoConstruct(s: State, t: Tid, throws: bool): State
    requires t in s.threads
  {
    var pc := s.threads[t].pc;
    if !pc.InConstructor? then s
    else if throws then At(s, t, BuildFailed(pc.at, pc.uid))
    else At(s, t, Built(pc.at, pc.uid)).(constructed := s.constructed + {pc.uid})
  }

  function Survivors(s: State): Entries { Swept(s.entries, p => p in s.alive) }

  ghost function DoRecover(s: State): State {
    var es := Survivors(s);
    s.(entries := es, uids := map x | x in s.uids && x in es :: s.uids[x],
       heap := s.heap - (Owned(s.entries) - Owned(es)))
  }

  function DoDie(s: State, pid: Pid): State {
    if pid in s.alive then
      s.(alive := s.alive - {pid}, gone := s.gone + {pid},
         threads := map t | t in s.threads :: if s.threads[t].pid == pid then Thread(pid, Stopped) else s.threads[t])
    else s
  }

  ghost function DoStep(s: State, t: Tid, step: Step): State
    requires t in s.threads
  {
    var pc := s.threads[t].pc;
    match step
    case Reserve(name, at, ptr, nameAt) => DoReserve(s, t, name, at, ptr, nameAt)
    case Construct(throws) => DoConstruct(s, t, throws)
    case Publish => DoPublish(s, t)
    case Release => if pc.BuildFailed? then DoRemove(s, t) else s
    case Find(name, at) => if pc.Idle? then DoFind(s, name, at) else s
    case Destroy(name, at) => if at in s.entries && s.entries[at].name == name then DoClaim(s, t, at) else s
    case DestroyPtr(ptr, at) => if at in s.entries && s.entries[at].ptr == ptr then DoClaim(s, t, at) else s
    case Destruct => DoDestruct(s, t)
    case FinishDestructor => if pc.InDestructor? then At(s, t, TornDown(pc.at, pc.uid)) else s
    case FreeStorage => if pc.TornDown? then DoRemove(s, t) else s
    case Recover => if pc.Idle? then DoRecover(s) else s
  }

  ghost function Do(s: State, a: Action): State {
    match a
    case Spawn(t, pid) =>
      if t !in s.threads && 0 < pid && pid !in s.gone
      then s.(threads := s.threads[t := Thread(pid, Idle)], alive := s.alive + {pid}) else s
    case Die(pid) => DoDie(s, pid)
    case Allocate(p) => if p !in s.heap then s.(heap := s.heap + {p}, user := s.user + {p}) else s
    case Free(p) => if p in s.user then s.(heap := s.heap - {p}, user := s.user - {p}) else s
    case Take(t, step) => if t in s.threads then DoStep(s, t, step) else s
  }

  ghost function Run(s: State, acts: seq<Action>): State
    decreases |acts|
  {
    if acts == [] then s else Do(Run(s, acts[..|acts| - 1]), acts[|acts| - 1])
  }

  // ---------------------------------------------------------------- the invariant

  /** One object per entry, and names are unique. */
  ghost predicate TableOk(es: Entries, uids: map<int, nat>, nextUid: nat) {
    && UniqueNames(es) && uids.Keys == es.Keys
    && (forall x :: x in uids ==> uids[x] < nextUid)
    && (forall x, y :: x in uids && y in uids && uids[x] == uids[y] ==> x == y)
  }

  ghost predicate ProcessesOk(s: State) {
    && s.alive !! s.gone && 0 !in s.alive
    && (forall t :: t in s.threads && !s.threads[t].pc.Stopped? ==> s.threads[t].pid in s.alive)
    && (forall x :: x in s.entries && !s.entries[x].status.Ready? ==> s.entries[x].owner in s.alive + s.gone)
  }

  /** A live thread in a window still finds its own entry, in the state it left it. */
  ghost predicate WindowOk(s: State, th: Thread)
    requires Window(th.pc)
  {
    && th.pc.at in s.entries && th.pc.at in s.uids && s.uids[th.pc.at] == th.pc.uid
    && s.entries[th.pc.at].owner == th.pid
    && s.entries[th.pc.at].status == (if Building(th.pc) then Constructing else Destroying)
    && (th.pc.Built? ==> th.pc.uid in s.constructed)
    && (th.pc.BeforeDestructor? ==> Times(s.destructions, th.pc.uid) == 0)
  }

  predicate SameEntry(a: Pc, b: Pc) { Window(a) && Window(b) && a.at == b.at }

  ghost predicate WindowsOk(s: State) {
    && (forall t :: t in s.threads && Window(s.threads[t].pc) ==> WindowOk(s, s.threads[t]))
    && (forall t, u :: t in s.threads && u in s.threads && SameEntry(s.threads[t].pc, s.threads[u].pc) ==> t == u)
  }

  ghost predicate HasThread(s: State, x: int) {
    exists t :: t in s.threads && Window(s.threads[t].pc) && s.threads[t].pc.at == x
  }

  /** An entry that is not ready has a live thread working on it, or a dead owner. */
  ghost predicate NoneLost(s: State) {
    forall x :: x in s.entries && !s.entries[x].status.Ready? && s.entries[x].owner in s.alive ==> HasThread(s, x)
  }

  /** Destructors run at most once, and only on constructed objects that are no longer ready. */
  ghost predicate CountsOk(es: Entries, uids: map<int, nat>, nextUid: nat, constructed: set<nat>,
                           times: map<nat, nat>) {
    && (forall u: nat :: Times(times, u) <= 1)
    && (forall u: nat :: Times(times, u) > 0 ==> u in constructed)
    && (forall u :: u in constructed ==> u < nextUid)
    && (forall x :: x in es && x in uids ==> EntryOk(es[x], uids[x], constructed, times))
  }

  ghost predicate EntryOk(e: Entry, u: nat, constructed: set<nat>, times: map<nat, nat>) {
    && (e.status.Ready? ==> u in constructed && e.owner == 0)
    && (e.status.Destroying? ==> u in constructed)
    && (!e.status.Destroying? ==> Times(times, u) == 0)
  }

  ghost predicate FoundOk(found: seq<Found>) {
    forall f :: f in found ==> f.constructed && f.destructions == 0
  }

  /** Every entry has three payloads of its own, and there are no others but the users'. */
  ghost predicate StorageOk(es: Entries, heap: set<int>, user: set<int>) {
    && (forall x :: x in es ==> |Addrs(x, es[x])| == 3)
    && (forall x, y :: x in es && y in es && x != y ==> Addrs(x, es[x]) !! Addrs(y, es[y]))
    && heap == user + Owned(es) && user !! Owned(es)
  }

  ghost predicate Inv(s: State) {
    && TableOk(s.entries, s.uids, s.nextUid) && ProcessesOk(s) && WindowsOk(s) && NoneLost(s)
    && CountsOk(s.entries, s.uids, s.nextUid, s.constructed, s.destructions)
    && FoundOk(s.found) && StorageOk(s.entries, s.heap, s.user)
  }

  // ---------------------------------------------------------------- preservation

  /** A step of one thread inside its window that changes neither table nor storage. */
  lemma LocalInv(s: State, t: Tid, pc: Pc)
    requires Inv(s) && t in s.threads && Window(s.threads[t].pc) && Window(pc) && pc.at == s.threads[t].pc.at
    requires WindowOk(s, Thread(s.threads[t].pid, pc))
    ensures Inv(At(s, t, pc))
  {
    hide TableOk, CountsOk, FoundOk, StorageOk;
    var s' := At(s, t, pc);
    Alone(s, t);
    OthersKept(s, s', t, pc.at);
    assert HasThread(s', pc.at) by { assert t in s'.threads && Window(s'.threads[t].pc); }
    NoneLostKept(s, s', t, pc.at);
  }

  lemma ConstructInv(s: State, t: Tid, throws: bool)
    requires Inv(s) && t in s.threads
    ensures Inv(DoConstruct(s, t, throws))
  {
    hide StorageOk;
    var pc := s.threads[t].pc;
    if pc.InConstructor? {
      assert WindowOk(s, s.threads[t]);
      if throws {
        LocalInv(s, t, BuildFailed(pc.at, pc.uid));
      } else {
        var s1 := s.(constructed := s.constructed + {pc.uid});
        SameThreads(s, s1);
        LocalInv(s1, t, Built(pc.at, pc.uid));
      }
    }
  }

  lemma SameThreads(s: State, s1: State)
    requires NoneLost(s) && s1.threads == s.threads && s1.alive == s.alive && s1.entries == s.entries
    ensures NoneLost(s1)
  {
    forall x | x in s1.entries && !s1.entries[x].status.Ready? && s1.entries[x].owner in s1.alive
      ensures HasThread(s1, x)
    {
      assert HasThread(s, x);
    }
  }

  lemma DestructInv(s: State, t: Tid)
    requires Inv(s) && t in s.threads
    ensures Inv(DoDestruct(s, t))
  {
    var pc := s.threads[t].pc;
    if pc.BeforeDestructor? {
      assert WindowOk(s, s.threads[t]);
      LocalInv(s, t, InDestructor(pc.at, pc.uid));
      var s0 := At(s, t, InDestructor(pc.at, pc.uid));
      var s1 := DoDestruct(s, t);
      assert forall u: nat :: u != pc.uid ==> Times(s1.destructions, u) == Times(s0.destructions, u);
      assert Times(s1.destructions, pc.uid) == 1;
      forall u | u in s1.threads && Window(s1.threads[u].pc) ensures WindowOk(s1, s1.threads[u]) {
        assert WindowOk(s0, s0.threads[u]);
      }
      SameThreads(s0, s1);
    }
  }

  /** Every thread but `t` is as before, and still finds what it had in its window. */
  lemma OthersKept(s: State, s': State, t: Tid, at: int)
    requires WindowsOk(s) && t in s.threads && s'.threads.Keys == s.threads.Keys
    requires forall u :: u in s.threads && u != t ==> s'.threads[u] == s.threads[u]
    requires forall x :: x in s.entries && x != at ==> x in s'.entries && s'.entries[x] == s.entries[x]
    requires forall x :: x in s.uids && x != at ==> x in s'.uids && s'.uids[x] == s.uids[x]
    requires s.constructed <= s'.constructed && s'.destructions == s.destructions
    requires forall u :: u in s.threads && u != t && Window(s.threads[u].pc) ==> s.threads[u].pc.at != at
    requires Window(s'.threads[t].pc) ==> s'.threads[t].pc.at == at && WindowOk(s', s'.threads[t])
    ensures WindowsOk(s')
  {
    forall u | u in s'.threads && Window(s'.threads[u].pc) ensures WindowOk(s', s'.threads[u]) {
      if u != t { assert WindowOk(s, s.threads[u]); }
    }
  }

  /** Entries other than `at` keep their live threads. */
  lemma NoneLostKept(s: State, s': State, t: Tid, at: int)
    requires NoneLost(s) && t in s.threads && s'.threads.Keys == s.threads.Keys && s'.alive == s.alive
    requires forall u :: u in s.threads && u != t ==> s'.threads[u] == s.threads[u]
    requires forall x :: x in s'.entries && x != at ==> x in s.entries && s'.entries[x] == s.entries[x]
    requires Window(s.threads[t].pc) ==> s.threads[t].pc.at == at
    requires at in s'.entries && !s'.entries[at].status.Ready? ==> HasThread(s', at)
    ensures NoneLost(s')
  {
    forall x | x in s'.entries && !s'.entries[x].status.Ready? && s'.entries[x].owner in s'.alive
      ensures HasThread(s', x)
    {
      if x != at {
        assert HasThread(s, x);
        var u :| u in s.threads && Window(s.threads[u].pc) && s.threads[u].pc.at == x;
        assert u != t && s'.threads[u] == s.threads[u];
      }
    }
  }

  lemma OwnedWith(es: Entries, x: int, e: Entry)
    requires x !in es
    ensures Owned(es[x := e]) == Owned(es) + Addrs(x, e)
  {
    var es' := es[x := e];
    forall a ensures a in Owned(es') <==> a in Owned(es) + Addrs(x, e) {
      if a in Owned(es) {
        var y :| y in es && a in Addrs(y, es[y]);
        assert y in es' && es'[y] == es[y];
      }
      if a in Addrs(x, e) { assert x in es' && es'[x] == e; }
    }
  }

  lemma OwnedWithout(es: Entries, x: int)
    requires x in es
    requires forall x, y :: x in es && y in es && x != y ==> Addrs(x, es[x]) !! Addrs(y, es[y])
    ensures Owned(es - {x}) == Owned(es) - Addrs(x, es[x]) && Addrs(x, es[x]) <= Owned(es)
  {
    var es' := es - {x};
    forall a ensures a in Owned(es') <==> a in Owned(es) - Addrs(x, es[x]) {
      if a in Owned(es') {
        var y :| y in es' && a in Addrs(y, es'[y]);
        assert y in es && es[y] == es'[y] && y != x;
      }
      if a in Owned(es) && a !in Addrs(x, es[x]) {
        var y :| y in es && a in Addrs(y, es[y]);
        assert y in es' && es'[y] == es[y];
      }
    }
  }

  /** A change of owner or status leaves the storage alone. */
  lemma OwnedSame(es: Entries, x: int, e: Entry)
    requires x in es && e.ptr == es[x].ptr && e.nameAt == es[x].nameAt
    ensures Owned(es[x := e]) == Owned(es)
  {
    var es' := es[x := e];
    assert forall y :: y in es ==> Addrs(y, es'[y]) == Addrs(y, es[y]);
  }

  lemma EntryOwned(es: Entries, x: int)
    requires x in es
    ensures Addrs(x, es[x]) <= Owned(es) && x in Owned(es)
  {
  }

  lemma StorageAdded(es: Entries, heap: set<int>, user: set<int>, x: int, e: Entry)
    requires StorageOk(es, heap, user) && Addrs(x, e) !! heap && |Addrs(x, e)| == 3 && x in Addrs(x, e)
    ensures x !in es && StorageOk(es[x := e], heap + Addrs(x, e), user)
  {
    hide Owned, Addrs;
    assert x !in es by { if x in es { EntryOwned(es, x); } }
    OwnedWith(es, x, e);
    var es', addrs := es[x := e], Addrs(x, e);
    forall y | y in es ensures Addrs(y, es'[y]) !! addrs {
      EntryOwned(es, y);
    }
    assert forall y :: y in es' && y != x ==> y in es && es'[y] == es[y];
  }

  lemma TableAdded(es: Entries, uids: map<int, nat>, n: nat, constructed: set<nat>, times: map<nat, nat>, x: int,
                   e: Entry)
    requires TableOk(es, uids, n) && CountsOk(es, uids, n, constructed, times) && x !in es && Unused(es, e.name)
             && e.status.Constructing?
    ensures TableOk(es[x := e], uids[x := n], n + 1) && CountsOk(es[x := e], uids[x := n], n + 1, constructed, times)
  {
    assert n !in constructed;
  }

  lemma ReserveThreads(s: State, t: Tid, name: Name, at: int, ptr: int, nameAt: int)
    requires ProcessesOk(s) && WindowsOk(s) && NoneLost(s) && t in s.threads && at !in s.entries
    requires CanReserve(s, t, name, at, ptr, nameAt) && s.uids.Keys == s.entries.Keys
    ensures var s' := DoReserve(s, t, name, at, ptr, nameAt); ProcessesOk(s') && WindowsOk(s') && NoneLost(s')
  {
    hide Unused;
    var s' := DoReserve(s, t, name, at, ptr, nameAt);
    forall u | u in s.threads && u != t && Window(s.threads[u].pc) ensures s.threads[u].pc.at != at {
      assert WindowOk(s, s.threads[u]);
    }
    OthersKept(s, s', t, at);
    assert HasThread(s', at) by { assert t in s'.threads && Window(s'.threads[t].pc); }
    NoneLostKept(s, s', t, at);
  }

  lemma ThreeNew(at: int, e: Entry, heap: set<int>)
    requires at != e.ptr && at != e.nameAt && e.ptr != e.nameAt && at !in heap && e.ptr !in heap && e.nameAt !in heap
    ensures Addrs(at, e) == {at, e.ptr, e.nameAt} && |Addrs(at, e)| == 3 && Addrs(at, e) !! heap && at in Addrs(at, e)
  {
    assert Addrs(at, e) == {at} + {e.ptr} + {e.nameAt};
  }

  lemma SameKeys(es: Entries, uids: map<int, nat>, n: nat)
    requires TableOk(es, uids, n)
    ensures uids.Keys == es.Keys
  {
  }

  lemma ReserveInv(s: State, t: Tid, name: Name, at: int, ptr: int, nameAt: int)
    requires Inv(s) && t in s.threads
    ensures Inv(DoReserve(s, t, name, at, ptr, nameAt))
  {
    hide TableOk, CountsOk, FoundOk, StorageOk, ProcessesOk, WindowsOk, NoneLost, Addrs, Unused;
    if CanReserve(s, t, name, at, ptr, nameAt) {
      var e := Entry(name, ptr, nameAt, s.threads[t].pid, Constructing);
      SameKeys(s.entries, s.uids, s.nextUid);
      ThreeNew(at, e, s.heap);
      StorageAdded(s.entries, s.heap, s.user, at, e);
      TableAdded(s.entries, s.uids, s.nextUid, s.constructed, s.destructions, at, e);
      ReserveThreads(s, t, name, at, ptr, nameAt);
    }
  }

  /** Nobody else is in a window with the entry of `t`. */
  lemma Alone(s: State, t: Tid)
    requires WindowsOk(s) && t in s.threads && Window(s.threads[t].pc)
    ensures WindowOk(s, s.threads[t])
    ensures forall u :: u in s.threads && u != t && Window(s.threads[u].pc) ==> s.threads[u].pc.at != s.threads[t].pc.at
  {
    forall u | u in s.threads && u != t && Window(s.threads[u].pc) ensures s.threads[u].pc.at != s.threads[t].pc.at {
      assert !SameEntry(s.threads[u].pc, s.threads[t].pc);
    }
  }

  lemma TableChanged(es: Entries, uids: map<int, nat>, n: nat, constructed: set<nat>, times: map<nat, nat>, x: int,
                     e: Entry)
    requires TableOk(es, uids, n) && CountsOk(es, uids, n, constructed, times) && x in es && e.name == es[x].name
    requires x in uids && EntryOk(e, uids[x], constructed, times)
    ensures TableOk(es[x := e], uids, n) && CountsOk(es[x := e], uids, n, constructed, times)
  {
    hide EntryOk, Times;
  }

  lemma PublishInv(s: State, t: Tid)
    requires Inv(s) && t in s.threads
    ensures Inv(DoPublish(s, t))
  {
    var pc := s.threads[t].pc;
    if pc.Built? {
      Alone(s, t);
      var s' := DoPublish(s, t);
      var e := s'.entries[pc.at];
      assert EntryOk(s.entries[pc.at], pc.uid, s.constructed, s.destructions);
      assert ProcessesOk(s');
      hide StorageOk, FoundOk, TableOk, CountsOk, ProcessesOk;
      OthersKept(s, s', t, pc.at);
      NoneLostKept(s, s', t, pc.at);
      SameStorage(s.entries, s.heap, s.user, pc.at, e);
      TableChanged(s.entries, s.uids, s.nextUid, s.constructed, s.destructions, pc.at, e);
    }
  }

  lemma SameStorage(es: Entries, heap: set<int>, user: set<int>, x: int, e: Entry)
    requires StorageOk(es, heap, user) && x in es && e.ptr == es[x].ptr && e.nameAt == es[x].nameAt
    ensures StorageOk(es[x := e], heap, user)
  {
    OwnedSame(es, x, e);
    var es' := es[x := e];
    assert forall y :: y in es ==> Addrs(y, es'[y]) == Addrs(y, es[y]);
    hide Owned, Addrs;
  }

  lemma StorageRemoved(es: Entries, heap: set<int>, user: set<int>, x: int)
    requires StorageOk(es, heap, user) && x in es
    ensures StorageOk(es - {x}, heap - Addrs(x, es[x]), user)
  {
    OwnedWithout(es, x);
    hide Owned, Addrs;
    var es' := es - {x};
    assert forall y :: y in es' ==> y in es && es'[y] == es[y];
  }

  lemma TableRemoved(es: Entries, uids: map<int, nat>, n: nat, constructed: set<nat>, times: map<nat, nat>, x: int)
    requires TableOk(es, uids, n) && CountsOk(es, uids, n, constructed, times)
    ensures TableOk(es - {x}, uids - {x}, n) && CountsOk(es - {x}, uids - {x}, n, constructed, times)
  {
    hide EntryOk, Times;
  }

  lemma RemoveThreads(s: State, t: Tid)
    requires ProcessesOk(s) && WindowsOk(s) && NoneLost(s) && t in s.threads && Window(s.threads[t].pc)
    ensures ProcessesOk(DoRemove(s, t)) && WindowsOk(DoRemove(s, t)) && NoneLost(DoRemove(s, t))
    ensures s.threads[t].pc.at in s.entries
  {
    Alone(s, t);
    var at, s' := s.threads[t].pc.at, DoRemove(s, t);
    OthersKept(s, s', t, at);
    NoneLostKept(s, s', t, at);
  }

  lemma RemoveInv(s: State, t: Tid)
    requires Inv(s) && t in s.threads && Window(s.threads[t].pc)
    ensures Inv(DoRemove(s, t))
  {
    hide TableOk, CountsOk, FoundOk, StorageOk, ProcessesOk, WindowsOk, NoneLost, Addrs;
    RemoveThreads(s, t);
    StorageRemoved(s.entries, s.heap, s.user, s.threads[t].pc.at);
    TableRemoved(s.entries, s.uids, s.nextUid, s.constructed, s.destructions, s.threads[t].pc.at);
  }

  /** Nobody is in a window with an entry that is ready. */
  lemma ReadyIsFree(s: State, at: int)
    requires WindowsOk(s) && at in s.entries && s.entries[at].status.Ready?
    ensures forall u :: u in s.threads && Window(s.threads[u].pc) ==> s.threads[u].pc.at != at
  {
    forall u | u in s.threads && Window(s.threads[u].pc) ensures s.threads[u].pc.at != at {
      assert WindowOk(s, s.threads[u]);
    }
  }

  lemma ClaimInv(s: State, t: Tid, at: int)
    requires Inv(s) && t in s.threads
    ensures Inv(DoClaim(s, t, at))
  {
    hide StorageOk, FoundOk;
    if s.threads[t].pc.Idle? && at in s.entries && s.entries[at].status.Ready? {
      var s' := DoClaim(s, t, at);
      ReadyIsFree(s, at);
      OthersKept(s, s', t, at);
      assert HasThread(s', at) by { assert t in s'.threads && Window(s'.threads[t].pc); }
      NoneLostKept(s, s', t, at);
      SameStorage(s.entries, s.heap, s.user, at, s'.entries[at]);
    }
  }

  lemma FindInv(s: State, name: Name, at: int)
    requires Inv(s)
    ensures Inv(DoFind(s, name, at))
  {
    hide TableOk, StorageOk;
    var s' := DoFind(s, name, at);
    SameThreads(s, s');
    forall u | u in s'.threads && Window(s'.threads[u].pc) ensures WindowOk(s', s'.threads[u]) {
      assert WindowOk(s, s.threads[u]);
    }
  }

  lemma SweptStorage(es: Entries, es': Entries, heap: set<int>, user: set<int>)
    requires StorageOk(es, heap, user) && forall x :: x in es' ==> x in es && es'[x] == es[x]
    ensures StorageOk(es', heap - (Owned(es) - Owned(es')), user)
  {
    assert Owned(es') <= Owned(es) by {
      forall a | a in Owned(es') ensures a in Owned(es) {
        var x :| x in es' && a in Addrs(x, es'[x]);
        assert x in es && a in Addrs(x, es[x]);
      }
    }
    hide Owned, Addrs;
  }

  lemma RecoverInv(s: State)
    requires Inv(s)
    ensures Inv(DoRecover(s))
  {
    hide StorageOk, FoundOk, Owned;
    var s' := DoRecover(s);
    SweptStorage(s.entries, s'.entries, s.heap, s.user);
    forall u | u in s'.threads && Window(s'.threads[u].pc) ensures WindowOk(s', s'.threads[u]) {
      assert WindowOk(s, s.threads[u]) && s.threads[u].pid in s.alive;
    }
    forall x | x in s'.entries && !s'.entries[x].status.Ready? && s'.entries[x].owner in s'.alive
      ensures HasThread(s', x)
    {
      assert x in s.entries && HasThread(s, x);
    }
  }

  lemma DieInv(s: State, pid: Pid)
    requires Inv(s)
    ensures Inv(DoDie(s, pid))
  {
    hide TableOk, CountsOk, FoundOk, StorageOk;
    var s' := DoDie(s, pid);
    if pid in s.alive {
      forall u | u in s'.threads && Window(s'.threads[u].pc) ensures WindowOk(s', s'.threads[u]) {
        assert s'.threads[u] == s.threads[u] && WindowOk(s, s.threads[u]);
      }
      forall x | x in s'.entries && !s'.entries[x].status.Ready? && s'.entries[x].owner in s'.alive
        ensures HasThread(s', x)
      {
        assert HasThread(s, x);
        var u :| u in s.threads && Window(s.threads[u].pc) && s.threads[u].pc.at == x;
        assert WindowOk(s, s.threads[u]) && s.threads[u].pid == s.entries[x].owner;
        assert s'.threads[u] == s.threads[u];
      }
      forall t, u | t in s'.threads && u in s'.threads && SameEntry(s'.threads[t].pc, s'.threads[u].pc) ensures t == u {
        assert SameEntry(s.threads[t].pc, s.threads[u].pc);
      }
    }
  }

  lemma SpawnInv(s: State, t: Tid, pid: Pid)
    requires Inv(s)
    ensures Inv(Do(s, Spawn(t, pid)))
  {
    hide TableOk, CountsOk, FoundOk, StorageOk;
    var s' := Do(s, Spawn(t, pid));
    if t !in s.threads && 0 < pid && pid !in s.gone {
      forall u | u in s'.threads && Window(s'.threads[u].pc) ensures WindowOk(s', s'.threads[u]) {
        assert u != t && WindowOk(s, s.threads[u]);
      }
      forall x | x in s'.entries && !s'.entries[x].status.Ready? && s'.entries[x].owner in s'.alive
        ensures HasThread(s', x)
      {
        assert s.entries[x].owner in s.alive + s.gone && HasThread(s, x);
        var u :| u in s.threads && Window(s.threads[u].pc) && s.threads[u].pc.at == x;
        assert u in s'.threads && s'.threads[u] == s.threads[u];
      }
      forall a, b | a in s'.threads && b in s'.threads && SameEntry(s'.threads[a].pc, s'.threads[b].pc) ensures a == b {
        assert a != t && b != t && SameEntry(s.threads[a].pc, s.threads[b].pc);
      }
    }
  }

  /** Allocations that are not for named objects. */
  lemma HeapInv(s: State, heap: set<int>, user: set<int>)
    requires Inv(s) && heap == user + Owned(s.entries) && user !! Owned(s.entries)
    ensures Inv(s.(heap := heap, user := user))
  {
    hide TableOk, CountsOk, FoundOk;
    var s' := s.(heap := heap, user := user);
    SameThreads(s, s');
    forall u | u in s'.threads && Window(s'.threads[u].pc) ensures WindowOk(s', s'.threads[u]) {
      assert WindowOk(s, s.threads[u]);
    }
  }

  lemma StepInv(s: State, t: Tid, step: Step)
    requires Inv(s) && t in s.threads
    ensures Inv(DoStep(s, t, step))
  {
    var pc := s.threads[t].pc;
    hide Inv, DoReserve, DoConstruct, DoPublish, DoRemove, DoFind, DoClaim, DoDestruct, DoRecover;
    match step
    case Reserve(name, at, ptr, nameAt) => ReserveInv(s, t, name, at, ptr, nameAt);
    case Construct(throws) => ConstructInv(s, t, throws);
    case Publish => PublishInv(s, t);
    case Release => if pc.BuildFailed? { RemoveInv(s, t); }
    case Find(name, at) => FindInv(s, name, at);
    case Destroy(name, at) => ClaimInv(s, t, at);
    case DestroyPtr(ptr, at) => ClaimInv(s, t, at);
    case Destruct => DestructInv(s, t);
    case FinishDestructor => FinishInv(s, t);
    case FreeStorage => if pc.TornDown? { RemoveInv(s, t); }
    case Recover => RecoverInv(s);
  }

  lemma FinishInv(s: State, t: Tid)
    requires Inv(s) && t in s.threads
    ensures s.threads[t].pc.InDestructor? ==> Inv(At(s, t, TornDown(s.threads[t].pc.at, s.threads[t].pc.uid)))
  {
    var pc := s.threads[t].pc;
    if pc.InDestructor? {
      assert WindowOk(s, s.threads[t]);
      LocalInv(s, t, TornDown(pc.at, pc.uid));
    }
  }

  lemma DoInv(s: State, a: Action)
    requires Inv(s)
    ensures Inv(Do(s, a))
  {
    match a
    case Spawn(t, pid) => SpawnInv(s, t, pid);
    case Die(pid) => DieInv(s, pid);
    case Allocate(p) => if p !in s.heap { HeapInv(s, s.heap + {p}, s.user + {p}); }
    case Free(p) => if p in s.user { HeapInv(s, s.heap - {p}, s.user - {p}); }
    case Take(t, step) => if t in s.threads { StepInv(s, t, step); }
  }

  // ---------------------------------------------------------------- all runs

  ghost predicate Init(s: State) {
    && s.entries == map[] && s.uids == map[] && s.threads == map[] && s.alive == {} && s.gone == {}
    && s.constructed == {} && s.destructions == map[] && s.found == [] && s.objects == map[] && s.heap == s.user
  }

  lemma InitInv(s: State)
    requires Init(s)
    ensures Inv(s)
  {
    assert Owned(s.entries) == {};
  }

  /** Every run, with any interleaving and any deaths, keeps the invariant. */
  lemma {:induction false} RunInv(s: State, acts: seq<Action>)
    requires Init(s)
    ensures Inv(Run(s, acts))
    decreases |acts|
  {
    if acts == [] {
      InitInv(s);
    } else {
      RunInv(s, acts[..|acts| - 1]);
      DoInv(Run(s, acts[..|acts| - 1]), acts[|acts| - 1]);
    }
  }

  /** Names are unique in every run. */
  lemma NamesUnique(s: State, acts: seq<Action>, x: int, y: int)
    requires Init(s)
    requires var r := Run(s, acts); x in r.entries && y in r.entries && r.entries[x].name == r.entries[y].name
    ensures x == y
  {
    RunInv(s, acts);
  }

  /** A header that a live thread holds across an unlocked window is still linked when it relocks, for
      the same object, in the same state, and with this process as its owner. */
  lemma HeldHeaderStillLinked(s: State, acts: seq<Action>, t: Tid)
    requires Init(s)
    requires var r := Run(s, acts); t in r.threads && Window(r.threads[t].pc)
    ensures var r := Run(s, acts);
            var pc := r.threads[t].pc;
            && pc.at in r.entries && pc.at in r.uids && r.uids[pc.at] == pc.uid
            && r.entries[pc.at].owner == r.threads[t].pid && r.threads[t].pid in r.alive
            && r.entries[pc.at].status == (if Building(pc) then Constructing else Destroying)
  {
    RunInv(s, acts);
    assert WindowOk(Run(s, acts), Run(s, acts).threads[t]);
  }

  /** Every object is destroyed at most once, and only after its constructor returned. */
  lemma DestroyedAtMostOnce(s: State, acts: seq<Action>, u: nat)
    requires Init(s)
    ensures var r := Run(s, acts);
            Times(r.destructions, u) <= 1 && (Times(r.destructions, u) == 1 ==> u in r.constructed)
  {
    RunInv(s, acts);
  }

  /** A lookup only ever returned objects that were complete: constructed, and no destructor started. And it
      returned the storage of the object reserved under that name. */
  lemma OnlyCompleteFound(s: State, acts: seq<Action>, f: Found)
    requires Init(s) && f in Run(s, acts).found
    ensures f.constructed && f.destructions == 0
    ensures f.uid in Run(s, acts).objects && Run(s, acts).objects[f.uid] == Object(f.name, f.ptr)
  {
    RunInv(s, acts);
    RunObjects(s, acts);
  }

  /** Recovery removes exactly the entries that are not ready and whose owner is dead; what is left that
      is not ready has a live thread working on it. */
  lemma RecoveryExact(s: State, acts: seq<Action>, t: Tid)
    requires Init(s)
    requires var r := Run(s, acts); t in r.threads && r.threads[t].pc.Idle?
    ensures var r := Run(s, acts);
            var r' := Do(r, Take(t, Recover));
            && (forall x :: x in r'.entries <==> x in r.entries && (r.entries[x].status.Ready? || HasThread(r, x)))
            && (forall x :: x in r'.entries ==> r'.entries[x] == r.entries[x])
            && r'.threads == r.threads
  {
    RunInv(s, acts);
    var r := Run(s, acts);
    var r' := Do(r, Take(t, Recover));
    forall x | x in r.entries && !r.entries[x].status.Ready?
      ensures HasThread(r, x) <==> r.entries[x].owner in r.alive
    {
      if HasThread(r, x) {
        var u :| u in r.threads && Window(r.threads[u].pc) && r.threads[u].pc.at == x;
        assert WindowOk(r, r.threads[u]);
      }
    }
  }

  /** Every entry owns exactly three payloads in use, and nothing else is in use but what users hold. */
  lemma ThreePayloadsEach(s: State, acts: seq<Action>)
    requires Init(s)
    ensures var r := Run(s, acts);
            r.heap == r.user + Owned(r.entries) && r.user !! Owned(r.entries) && |Owned(r.entries)| == 3 * |r.entries|
  {
    RunInv(s, acts);
    OwnedCount(Run(s, acts).entries);
  }

  lemma {:induction false} OwnedCount(es: Entries)
    requires forall x :: x in es ==> |Addrs(x, es[x])| == 3
    requires forall x, y :: x in es && y in es && x != y ==> Addrs(x, es[x]) !! Addrs(y, es[y])
    ensures |Owned(es)| == 3 * |es|
    decreases |es|
  {
    if es == map[] {
      assert Owned(es) == {};
    } else {
      hide Owned, Addrs;
      var x :| x in es;
      OwnedWithout(es, x);
      ReadyRemoved(es, x);
      var rest := es - {x};
      assert forall y :: y in rest ==> rest[y] == es[y];
      OwnedCount(rest);
      CountWithout(Owned(es), Addrs(x, es[x]));
    }
  }

  lemma CountWithout(s: set<int>, t: set<int>)
    requires t <= s
    ensures |s| == |s - t| + |t|
  {
    assert s == (s - t) + t;
  }

  // ---------------------------------------------------------------- which object is found

  /** Entries and lookups speak of the object that was reserved. */
  ghost predicate ObjectsOk(s: State) {
    && (forall u :: u in s.objects ==> u < s.nextUid)
    && (forall x :: x in s.entries && x in s.uids ==>
          s.uids[x] in s.objects && s.objects[s.uids[x]] == Object(s.entries[x].name, s.entries[x].ptr))
    && (forall f :: f in s.found ==> f.uid in s.objects && s.objects[f.uid] == Object(f.name, f.ptr))
  }

  lemma DoObjects(s: State, a: Action)
    requires Inv(s) && ObjectsOk(s)
    ensures ObjectsOk(Do(s, a))
  {
    hide ObjectsOk, Inv, DoStep, DoDie;
    match a
    case Spawn(t, pid) => ObjectsKept(s, Do(s, a));
    case Die(pid) => DieObjects(s, pid);
    case Allocate(p) => ObjectsKept(s, Do(s, a));
    case Free(p) => ObjectsKept(s, Do(s, a));
    case Take(t, step) => if t in s.threads { StepObjects(s, t, step); }
  }

  lemma DieObjects(s: State, pid: Pid)
    requires ObjectsOk(s)
    ensures ObjectsOk(DoDie(s, pid))
  {
    hide ObjectsOk;
    ObjectsKept(s, DoDie(s, pid));
  }

  lemma StepObjects(s: State, t: Tid, step: Step)
    requires Inv(s) && ObjectsOk(s) && t in s.threads
    ensures ObjectsOk(DoStep(s, t, step))
  {
    hide ObjectsOk, Inv, DoReserve, DoConstruct, DoPublish, DoRemove, DoFind, DoClaim, DoDestruct, DoRecover;
    match step
    case Reserve(name, at, ptr, nameAt) => ReserveObjects(s, t, name, at, ptr, nameAt);
    case Construct(throws) => ConstructObjects(s, t, throws);
    case Publish => PublishObjects(s, t);
    case Release => if s.threads[t].pc.BuildFailed? { RemoveObjects(s, t); }
    case Find(name, at) => FindObjects(s, name, at);
    case Destroy(_, at) => ClaimObjects(s, t, at);
    case DestroyPtr(_, at) => ClaimObjects(s, t, at);
    case Destruct => ConstructObjects(s, t, false);
    case FinishDestructor => ObjectsKept(s, DoStep(s, t, step));
    case FreeStorage => if s.threads[t].pc.TornDown? { RemoveObjects(s, t); }
    case Recover => RecoverObjects(s);
  }

  lemma ConstructObjects(s: State, t: Tid, throws: bool)
    requires ObjectsOk(s) && t in s.threads
    ensures ObjectsOk(DoConstruct(s, t, throws)) && ObjectsOk(DoDestruct(s, t))
  {
    hide ObjectsOk;
    ObjectsKept(s, DoConstruct(s, t, throws));
    ObjectsKept(s, DoDestruct(s, t));
  }

  lemma PublishObjects(s: State, t: Tid)
    requires ObjectsOk(s) && t in s.threads
    ensures ObjectsOk(DoPublish(s, t))
  {
    hide ObjectsOk;
    ObjectsKept(s, DoPublish(s, t));
  }

  lemma ClaimObjects(s: State, t: Tid, at: int)
    requires ObjectsOk(s) && t in s.threads
    ensures ObjectsOk(DoClaim(s, t, at))
  {
    hide ObjectsOk;
    ObjectsKept(s, DoClaim(s, t, at));
  }

  lemma RemoveObjects(s: State, t: Tid)
    requires ObjectsOk(s) && t in s.threads && Window(s.threads[t].pc)
    ensures ObjectsOk(DoRemove(s, t))
  {
    hide ObjectsOk;
    ObjectsKept(s, DoRemove(s, t));
  }

  lemma RecoverObjects(s: State)
    requires ObjectsOk(s)
    ensures ObjectsOk(DoRecover(s))
  {
    hide ObjectsOk, Owned;
    ObjectsKept(s, DoRecover(s));
  }

  /** No step but a reservation makes an object, and names and places stay. */
  lemma ObjectsKept(s: State, s': State)
    requires ObjectsOk(s) && s'.objects == s.objects && s'.nextUid == s.nextUid && s'.found == s.found
    requires forall x :: x in s'.entries && x in s'.uids ==>
               && x in s.entries && x in s.uids && s'.uids[x] == s.uids[x]
               && s'.entries[x].name == s.entries[x].name && s'.entries[x].ptr == s.entries[x].ptr
    ensures ObjectsOk(s')
  {
  }

  lemma ReserveObjects(s: State, t: Tid, name: Name, at: int, ptr: int, nameAt: int)
    requires Inv(s) && ObjectsOk(s) && t in s.threads
    ensures ObjectsOk(DoReserve(s, t, name, at, ptr, nameAt))
  {
    hide CountsOk, StorageOk, FoundOk, WindowsOk, NoneLost, ProcessesOk, CanReserve;
  }

  lemma FindObjects(s: State, name: Name, at: int)
    requires ObjectsOk(s)
    ensures ObjectsOk(DoFind(s, name, at))
  {
  }

  lemma {:induction false} RunObjects(s: State, acts: seq<Action>)
    requires Init(s)
    ensures ObjectsOk(Run(s, acts))
    decreases |acts|
  {
    if acts != [] {
      RunObjects(s, acts[..|acts| - 1]);
      RunInv(s, acts[..|acts| - 1]);
      DoObjects(Run(s, acts[..|acts| - 1]), acts[|acts| - 1]);
    }
  }

  /** A lookup by an idle thread finds the ready entry of that name, complete, or leaves everything as it was. */
  lemma FindReturns(s: State, t: Tid, name: Name, at: int)
    requires Inv(s) && t in s.threads && s.threads[t].pc.Idle?
    ensures var r := Do(s, Take(t, Find(name, at)));
            if at in s.entries && s.entries[at].name == name && s.entries[at].status.Ready?
            then at in s.uids && r == s.(found := s.found + [Found(name, s.entries[at].ptr, s.uids[at], true, 0)])
            else r == s
  {
    hide StorageOk, FoundOk, WindowsOk, NoneLost, ProcessesOk;
  }

  // ---------------------------------------------------------------- whole lives

  lemma RunSnoc(s: State, acts: seq<Action>, a: Action)
    ensures Run(s, acts + [a]) == Do(Run(s, acts), a)
  {
    assert (acts + [a])[..|acts + [a]| - 1] == acts;
  }

  lemma RunTwo(s: State, a: Action, b: Action)
    ensures Run(s, [a, b]) == Do(Do(s, a), b) && Run(s, [a]) == Do(s, a)
  {
    assert [] + [a] == [a] && [a] + [b] == [a, b];
    RunSnoc(s, [], a);
    RunSnoc(s, [a], b);
  }

  lemma RunThree(s: State, a: Action, b: Action, c: Action)
    ensures Run(s, [a, b, c]) == Do(Do(Do(s, a), b), c)
  {
    assert [a, b] + [c] == [a, b, c];
    RunTwo(s, a, b);
    RunSnoc(s, [a, b], c);
  }

  lemma RunFour(s: State, a: Action, b: Action, c: Action, d: Action)
    ensures Run(s, [a, b, c, d]) == Do(Do(Do(Do(s, a), b), c), d)
  {
    assert [a, b, c] + [d] == [a, b, c, d];
    RunThree(s, a, b, c);
    RunSnoc(s, [a, b, c], d);
  }

  /** A construction that nothing disturbs: one ready entry more, without owner, with three payloads more. */
  lemma ConstructCompletes(s: State, t: Tid, name: Name, at: int, ptr: int, nameAt: int)
    requires Inv(s) && t in s.threads && CanReserve(s, t, name, at, ptr, nameAt)
    ensures var r := Run(s, [Take(t, Reserve(name, at, ptr, nameAt)), Take(t, Construct(false)), Take(t, Publish)]);
            && r.entries == s.entries[at := Entry(name, ptr, nameAt, 0, Ready)]
            && r.heap == s.heap + {at, ptr, nameAt} && r.user == s.user
            && r.constructed == s.constructed + {s.nextUid} && r.destructions == s.destructions
            && at in r.uids && r.uids[at] == s.nextUid && r.threads == s.threads
  {
    hide Inv;
    RunThree(s, Take(t, Reserve(name, at, ptr, nameAt)), Take(t, Construct(false)), Take(t, Publish));
    var s1 := DoReserve(s, t, name, at, ptr, nameAt);
    assert s1.threads[t].pc == InConstructor(at, s.nextUid);
    var s2 := DoConstruct(s1, t, false);
    assert s2.threads[t].pc == Built(at, s.nextUid) && s2.entries == s1.entries;
    var s3 := DoPublish(s2, t);
    assert s3.threads == s.threads;
  }

  /** A construction whose constructor throws leaves table and heap as they were. */
  lemma FailedConstructCompletes(s: State, t: Tid, name: Name, at: int, ptr: int, nameAt: int)
    requires Inv(s) && t in s.threads && CanReserve(s, t, name, at, ptr, nameAt) && at !in s.entries
    ensures var r := Run(s, [Take(t, Reserve(name, at, ptr, nameAt)), Take(t, Construct(true)), Take(t, Release)]);
            && r.entries == s.entries && r.heap == s.heap && r.user == s.user
            && r.constructed == s.constructed && r.destructions == s.destructions && r.threads == s.threads
  {
    hide Inv;
    RunThree(s, Take(t, Reserve(name, at, ptr, nameAt)), Take(t, Construct(true)), Take(t, Release));
    var s1 := DoReserve(s, t, name, at, ptr, nameAt);
    assert s1.threads[t].pc == InConstructor(at, s.nextUid);
    var s2 := DoConstruct(s1, t, true);
    assert s2.threads[t].pc == BuildFailed(at, s.nextUid) && s2.entries == s1.entries;
    var s3 := DoRemove(s2, t);
    assert s3.threads == s.threads && s3.entries == s.entries;
    assert Addrs(at, s2.entries[at]) == {at, ptr, nameAt};
    assert s3.heap == s.heap;
  }

  /** A destruction that nothing disturbs: the entry and exactly its payloads go, and the object was destroyed once. */
  lemma DestroyCompletes(s: State, t: Tid, name: Name, at: int)
    requires Inv(s) && t in s.threads && s.threads[t].pc.Idle?
    requires at in s.entries && s.entries[at].name == name && s.entries[at].status.Ready?
    ensures at in s.uids
    ensures var r := Run(s, [Take(t, Destroy(name, at)), Take(t, Destruct), Take(t, FinishDestructor),
                             Take(t, FreeStorage)]);
            && r.entries == s.entries - {at} && r.heap == s.heap - Addrs(at, s.entries[at]) && r.user == s.user
            && r.destructions == s.destructions[s.uids[at] := 1] && r.threads == s.threads
  {
    hide Do, Inv;
    var xs, ys := [Take(t, Destroy(name, at)), Take(t, Destruct)], [Take(t, FinishDestructor), Take(t, FreeStorage)];
    DestroyBegins(s, t, name, at);
    var s2 := Run(s, xs);
    DestroyEnds(s2, t);
    RunTwo(s, xs[0], xs[1]);
    RunTwo(s2, ys[0], ys[1]);
    RunFour(s, xs[0], xs[1], ys[0], ys[1]);
    assert Run(s2, ys).threads == s.threads && Run(s2, ys).entries == s.entries - {at};
  }

  lemma DestroyBegins(s: State, t: Tid, name: Name, at: int)
    requires Inv(s) && t in s.threads && s.threads[t].pc.Idle?
    requires at in s.entries && s.entries[at].name == name && s.entries[at].status.Ready?
    ensures at in s.uids
    ensures Run(s, [Take(t, Destroy(name, at)), Take(t, Destruct)]) ==
            At(s, t, InDestructor(at, s.uids[at])).(
              entries := Claimed(s.entries, at, s.threads[t].pid), destructions := s.destructions[s.uids[at] := 1])
  {
    hide StorageOk, FoundOk, WindowsOk, NoneLost, ProcessesOk, DoReserve, DoConstruct, DoPublish, DoFind, DoRecover,
         DoDie, DoRemove;
    RunTwo(s, Take(t, Destroy(name, at)), Take(t, Destruct));
    var u := s.uids[at];
    assert Times(s.destructions, u) == 0;
    MovedThread(s, t, BeforeDestructor(at, u), InDestructor(at, u));
  }

  lemma DestroyEnds(s: State, t: Tid)
    requires t in s.threads && s.threads[t].pc.InDestructor?
    ensures Run(s, [Take(t, FinishDestructor), Take(t, FreeStorage)]) == At(Remove(s, s.threads[t].pc.at), t, Idle)
  {
    hide DoReserve, DoConstruct, DoPublish, DoFind, DoClaim, DoDestruct, DoRecover, DoDie;
    RunTwo(s, Take(t, FinishDestructor), Take(t, FreeStorage));
    var pc := s.threads[t].pc;
    MovedThread(s, t, TornDown(pc.at, pc.uid), Idle);
  }

  lemma MovedThread(s: State, t: Tid, pc: Pc, pc': Pc)
    requires t in s.threads
    ensures At(At(s, t, pc), t, pc') == At(s, t, pc')
  {
    var p := s.threads[t].pid;
    assert s.threads[t := Thread(p, pc)][t := Thread(p, pc')] == s.threads[t := Thread(p, pc')];
  }

  /** The entry of a process that dies in a constructor or destructor is swept by the next recovery. */
  lemma DeathIsSwept(s: State, t: Tid, u: Tid)
    requires Inv(s) && t in s.threads && u in s.threads && Window(s.threads[t].pc) && s.threads[u].pc.Idle?
    requires s.threads[u].pid != s.threads[t].pid
    ensures var r := Run(s, [Die(s.threads[t].pid), Take(u, Recover)]);
            && s.threads[t].pc.at in s.entries && s.threads[t].pc.at !in r.entries
            && (forall x :: x in s.entries && s.entries[x].status.Ready? ==>
                  x in r.entries && r.entries[x] == s.entries[x])
  {
    hide StorageOk, FoundOk, NoneLost, CountsOk;
    RunTwo(s, Die(s.threads[t].pid), Take(u, Recover));
    assert WindowOk(s, s.threads[t]);
    var s1 := DoDie(s, s.threads[t].pid);
    assert u in s1.threads && s1.threads[u].pc.Idle?;
  }
}
