/** The manager's locking and generation protocol as a step machine over processes that can
    die at any step: a robust mutex, an odd/even metadata generation, writers that perform
    their heap operations store by store, and lock-free snapshot readers. */
module ManagerProtocol {
  import opened Segments
  import opened Sanity
  import opened Heaps
  import opened HeapSteps
  import opened Crash
  import opened HeapOps

  type Pid = nat

  /** The shared metadata: the allocator's words, and all other words of the manager. */
  datatype Meta = Meta(heap: Segment, words: map<int, int>)

  datatype Loc =
    | SizeAt(a: int) | FreeAt(a: int) | NextAt(a: int) | Head | SegmentSize
    | BlockOf(p: int) | RequestedAt(p: int) | OtherWord(w: int)

  function Read(x: Meta, l: Loc): int {
    match l
    case SizeAt(a) => x.heap.Size(a)
    case FreeAt(a) => if x.heap.Free(a) then 1 else 0
    case NextAt(a) => x.heap.Next(a)
    case Head => x.heap.head
    case SegmentSize => x.heap.size
    case BlockOf(p) => x.heap.Allocation(p).block
    case RequestedAt(p) => x.heap.Allocation(p).requested
    case OtherWord(w) => if w in x.words then x.words[w] else 0
  }

  /** Readers can see every word: metadata that read alike everywhere are alike. */
  lemma ReadsDetermine(x: Meta, y: Meta)
    requires forall l :: Read(x, l) == Read(y, l)
    ensures x.heap.head == y.heap.head && x.heap.size == y.heap.size
    ensures forall a :: x.heap.Hdr(a) == y.heap.Hdr(a)
    ensures forall p :: x.heap.Allocation(p) == y.heap.Allocation(p)
  {
    assert Read(x, Head) == Read(y, Head) && Read(x, SegmentSize) == Read(y, SegmentSize);
    forall a ensures x.heap.Hdr(a) == y.heap.Hdr(a) {
      assert Read(x, SizeAt(a)) == Read(y, SizeAt(a)) && Read(x, FreeAt(a)) == Read(y, FreeAt(a));
      assert Read(x, NextAt(a)) == Read(y, NextAt(a));
    }
    forall p ensures x.heap.Allocation(p) == y.heap.Allocation(p) {
      assert Read(x, BlockOf(p)) == Read(y, BlockOf(p)) && Read(x, RequestedAt(p)) == Read(y, RequestedAt(p));
    }
  }

  // ---------------------------------------------------------------- readers

  /** What a reader does after the values it has seen: read one more word, or finish. */
  datatype Query = Ask(loc: Loc) | Done(result: int)

  type Reader = seq<int> -> Query

  /** The values a reader sees when it runs on one single metadata state. */
  ghost predicate Trace(f: Reader, x: Meta, vals: seq<int>) {
    forall i :: 0 <= i < |vals| ==> f(vals[..i]).Ask? && vals[i] == Read(x, f(vals[..i]).loc)
  }

  /** The function computed by the reader, applied to the metadata state `x`, is `r`. */
  ghost predicate Yields(f: Reader, x: Meta, r: int) {
    exists vals :: Trace(f, x, vals) && f(vals) == Done(r)
  }

  lemma {:induction false} TracePrefix(f: Reader, x: Meta, xs: seq<int>, ys: seq<int>, k: nat)
    requires Trace(f, x, xs) && Trace(f, x, ys) && k <= |xs| && k <= |ys|
    ensures xs[..k] == ys[..k]
    decreases k
  {
    if k > 0 {
      TracePrefix(f, x, xs, ys, k - 1);
      assert xs[..k] == xs[..k - 1] + [xs[k - 1]];
      assert ys[..k] == ys[..k - 1] + [ys[k - 1]];
    }
  }

  /** A reader computes a function: on one metadata state it has at most one result. */
  lemma YieldsUnique(f: Reader, x: Meta, r: int, r': int)
    requires Yields(f, x, r) && Yields(f, x, r')
    ensures r == r'
  {
    var xs :| Trace(f, x, xs) && f(xs) == Done(r);
    var ys :| Trace(f, x, ys) && f(ys) == Done(r');
    var k := if |xs| <= |ys| then |xs| else |ys|;
    TracePrefix(f, x, xs, ys, k);
    assert xs[..|xs|] == xs && ys[..|ys|] == ys;
  }

  lemma TraceExtend(f: Reader, x: Meta, vals: seq<int>)
    requires Trace(f, x, vals) && f(vals).Ask?
    ensures Trace(f, x, vals + [Read(x, f(vals).loc)])
  {
    var more := vals + [Read(x, f(vals).loc)];
    forall i | 0 <= i < |more| ensures f(more[..i]).Ask? && more[i] == Read(x, f(more[..i]).loc) {
      assert more[..i] == vals[..i];
      assert vals[..|vals|] == vals;
    }
  }

  // ---------------------------------------------------------------- states

  /** A robust process-shared mutex, section `pthread_mutex_lock` of POSIX.1-2017. A lock
      acquired from a dead owner is inconsistent until `pthread_mutex_consistent`. */
  datatype Mutex = Unlocked | Held(owner: Pid, inconsistent: bool) | OwnerDead | NotRecoverable

  /** Where a process stands. */
  datatype Pc =
    | Idle
    | CheckSanity(write: bool)              // the lock came from a dead owner
    | MarkConsistent(write: bool)
    | RecoverLoad(write: bool)              // end_metadata_write of the recovery
    | RecoverAdd(write: bool, seen: nat)
    | Abandon                               // the sanity check failed
    | LockedRead
    | BeginLoad                             // begin_metadata_write
    | BeginAdd(seen: nat)
    | Writing(todo: seq<Store>)             // inside the write section
    | EndLoad                               // end_metadata_write
    | EndAdd(seen: nat)
    | Unlocking
    | SnapLoad(f: Reader)                   // wait_for_stable_metadata_generation
    | Snap(f: Reader, seen: nat, vals: seq<int>, start: Meta)
    | Dead(unfinished: bool)

  /** A value returned by `with_read_only_snapshot`, and the metadata when it returned. */
  datatype Returned = Returned(f: Reader, value: int, meta: Meta)

  datatype State = State(meta: Meta, gen: nat, mutex: Mutex, procs: map<Pid, Pc>, returned: seq<Returned>)

  predicate Holding(pc: Pc) {
    !(pc.Idle? || pc.SnapLoad? || pc.Snap? || pc.Dead?)
  }

  /** Inside a write section that has begun and not ended. */
  predicate InSection(pc: Pc) {
    pc.Writing? || pc.EndLoad? || pc.EndAdd? || (pc.Dead? && pc.unfinished)
  }

  // ---------------------------------------------------------------- steps

  datatype Action =
    | Join(p: Pid)
    | Lock(p: Pid, write: bool)
    | Advance(p: Pid)
    | BeginOp(p: Pid, op: HeapOp)
    | BeginStores(p: Pid, stores: seq<Store>) // whatever stores, on whatever memory
    | StoreNext(p: Pid)
    | StoreWord(p: Pid, w: int, value: int)
    | Finish(p: Pid)
    | StartSnapshot(p: Pid, f: Reader)
    | Observe(p: Pid)
    | Validate(p: Pid)
    | GiveUp(p: Pid)
    | Die(p: Pid)

  function At(s: State, p: Pid, pc: Pc): State { s.(procs := s.procs[p := pc]) }

  function Locked(write: bool): Pc { if write then BeginLoad else LockedRead }

  /** The recovery ends every section that a dead process has left unfinished. */
  function Closed(procs: map<Pid, Pc>): map<Pid, Pc> {
    map p | p in procs :: if procs[p].Dead? then Dead(false) else procs[p]
  }

  ghost function DoLock(s: State, p: Pid, write: bool): State
    requires p in s.procs
  {
    if s.procs[p] != Idle then s
    else match s.mutex
      case Unlocked => At(s, p, Locked(write)).(mutex := Held(p, false))
      case OwnerDead => At(s, p, CheckSanity(write)).(mutex := Held(p, true))
      case _ => s
  }

  ghost function DoAdvance(s: State, p: Pid): State
    requires p in s.procs
  {
    match s.procs[p]
    case CheckSanity(w) => At(s, p, if Sane(s.meta.heap) then MarkConsistent(w) else Abandon)
    case MarkConsistent(w) => At(s, p, RecoverLoad(w)).(mutex := Held(p, false))
    case RecoverLoad(w) => At(s, p, RecoverAdd(w, s.gen))
    case RecoverAdd(w, g) =>
      if g % 2 == 1 then At(s.(procs := Closed(s.procs)), p, Locked(w)).(gen := s.gen + 1)
      else At(s, p, Locked(w))
    case Abandon => At(s, p, Idle).(mutex := NotRecoverable)
    case LockedRead => At(s, p, Idle).(mutex := Unlocked)
    case BeginLoad => At(s, p, BeginAdd(s.gen))
    case BeginAdd(g) => At(s, p, Writing([])).(gen := if g % 2 == 0 then s.gen + 1 else s.gen)
    case EndLoad => At(s, p, EndAdd(s.gen))
    case EndAdd(g) => At(s, p, Unlocking).(gen := if g % 2 == 1 then s.gen + 1 else s.gen)
    case Unlocking => At(s, p, Idle).(mutex := Unlocked)
    case SnapLoad(f) => if s.gen % 2 == 0 then At(s, p, Snap(f, s.gen, [], s.meta)) else s
    case _ => s
  }

  ghost function DoBeginOp(s: State, p: Pid, op: HeapOp): State
    requires p in s.procs
  {
    if Ready(s.procs[p]) && Enabled(s.meta.heap, op)
    then At(s, p, Writing(OpStores(s.meta.heap, op)))
    else s
  }

  /** Inside a write section and between two operations. */
  predicate Ready(pc: Pc) { pc.Writing? && pc.todo == [] }

  function DoBeginStores(s: State, p: Pid, stores: seq<Store>): State
    requires p in s.procs
  {
    if Ready(s.procs[p]) then At(s, p, Writing(stores)) else s
  }

  function DoStoreNext(s: State, p: Pid): State
    requires p in s.procs
  {
    var pc := s.procs[p];
    if pc.Writing? && pc.todo != [] then
      At(s, p, Writing(pc.todo[1..])).(meta := s.meta.(heap := Apply(s.meta.heap, pc.todo[0])))
    else s
  }

  function DoStoreWord(s: State, p: Pid, w: int, value: int): State
    requires p in s.procs
  {
    if s.procs[p].Writing? then s.(meta := s.meta.(words := s.meta.words[w := value])) else s
  }

  ghost function DoFinish(s: State, p: Pid): State
    requires p in s.procs
  {
    if Ready(s.procs[p]) then At(s, p, EndLoad) else s
  }

  function DoObserve(s: State, p: Pid): State
    requires p in s.procs
  {
    var pc := s.procs[p];
    if pc.Snap? && pc.f(pc.vals).Ask? then
      At(s, p, pc.(vals := pc.vals + [Read(s.meta, pc.f(pc.vals).loc)]))
    else s
  }

  function DoValidate(s: State, p: Pid): State
    requires p in s.procs
  {
    var pc := s.procs[p];
    if pc.Snap? && pc.f(pc.vals).Done? then
      if s.gen == pc.seen then
        At(s, p, Idle).(returned := s.returned + [Returned(pc.f, pc.f(pc.vals).result, s.meta)])
      else At(s, p, SnapLoad(pc.f))
    else s
  }

  /** A death keeps the process's unfinished section and gives up a held lock as owner-dead. */
  function DoDie(s: State, p: Pid): State
    requires p in s.procs
  {
    var pc := s.procs[p];
    if pc.Dead? then s
    else At(s, p, Dead(InSection(pc))).(mutex := if Holding(pc) then OwnerDead else s.mutex)
  }

  ghost function Do(s: State, a: Action): State {
    if a.Join? then (if a.p in s.procs then s else At(s, a.p, Idle))
    else if a.p !in s.procs then s
    else match a
      case Lock(p, write) => DoLock(s, p, write)
      case Advance(p) => DoAdvance(s, p)
      case BeginOp(p, op) => DoBeginOp(s, p, op)
      case BeginStores(p, stores) => DoBeginStores(s, p, stores)
      case StoreNext(p) => DoStoreNext(s, p)
      case StoreWord(p, w, value) => DoStoreWord(s, p, w, value)
      case Finish(p) => DoFinish(s, p)
      case StartSnapshot(p, f) => if s.procs[p] == Idle then At(s, p, SnapLoad(f)) else s
      case Observe(p) => DoObserve(s, p)
      case Validate(p) => DoValidate(s, p)
      case GiveUp(p) => if s.procs[p].SnapLoad? || s.procs[p].Snap? then At(s, p, Idle) else s
      case Die(p) => DoDie(s, p)
  }

  ghost function Run(s: State, acts: seq<Action>): State
    decreases |acts|
  {
    if acts == [] then s else Do(Run(s, acts[..|acts| - 1]), acts[|acts| - 1])
  }

  // ---------------------------------------------------------------- the protocol

  /** The lock is held exactly by the process that stands where one holds it. */
  ghost predicate MutexOk(s: State) {
    && (forall p :: p in s.procs ==> (Holding(s.procs[p]) <==> s.mutex.Held? && s.mutex.owner == p))
    && (s.mutex.Held? ==> s.mutex.owner in s.procs)
    && (s.mutex == Unlocked ==> s.gen % 2 == 0)
  }

  /** The generation is odd exactly while some process, live or dead, is inside an unfinished
      write section, and at most one process ever is. */
  ghost predicate GenerationOk(s: State) {
    && (s.gen % 2 == 1 <==> exists p :: p in s.procs && InSection(s.procs[p]))
    && (forall p, q :: p in s.procs && q in s.procs && InSection(s.procs[p]) && InSection(s.procs[q]) ==> p == q)
  }

  ghost predicate PcOk(s: State, pc: Pc) {
    match pc
    case LockedRead => s.gen % 2 == 0
    case BeginLoad => s.gen % 2 == 0
    case Unlocking => s.gen % 2 == 0
    case BeginAdd(g) => g == s.gen && g % 2 == 0
    case EndAdd(g) => g == s.gen
    case RecoverAdd(_, g) => g == s.gen
    case Snap(f, g, vals, start) =>
      g % 2 == 0 && g <= s.gen && (g == s.gen ==> start == s.meta && Trace(f, s.meta, vals))
    case _ => true
  }

  ghost predicate PcsOk(s: State) {
    forall p :: p in s.procs ==> PcOk(s, s.procs[p])
  }

  /** Every returned value is the reader's function of one single metadata state. */
  ghost predicate ReturnedOk(s: State) {
    forall r :: r in s.returned ==> Yields(r.f, r.meta, r.value)
  }

  /** What the protocol keeps, whichever words the writers store. */
  ghost predicate Inv(s: State) {
    MutexOk(s) && GenerationOk(s) && PcsOk(s) && ReturnedOk(s)
  }

  /** A step of `p` that changes neither metadata nor generation and keeps it in or out of a section. */
  lemma LocalStep(s: State, p: Pid, pc: Pc, mutex: Mutex)
    requires Inv(s) && p in s.procs
    requires PcOk(s, pc) && InSection(pc) == InSection(s.procs[p])
    requires || (mutex == s.mutex && Holding(pc) == Holding(s.procs[p]))
             || ((s.mutex == Unlocked || s.mutex == OwnerDead) && Holding(pc) && mutex.Held? && mutex.owner == p)
             || (Holding(s.procs[p]) && !Holding(pc) && !mutex.Held?)
             || (Holding(s.procs[p]) && Holding(pc) && mutex == Held(p, false))
    requires mutex == Unlocked ==> s.gen % 2 == 0
    ensures Inv(At(s, p, pc).(mutex := mutex))
  {
    var s' := At(s, p, pc).(mutex := mutex);
    assert GenerationOk(s') by {
      assert forall q :: q in s.procs <==> q in s'.procs;
      assert forall q :: q in s.procs ==> InSection(s'.procs[q]) == InSection(s.procs[q]);
    }
    forall q | q in s'.procs ensures PcOk(s', s'.procs[q]) {
      assert q != p ==> PcOk(s, s.procs[q]);
    }
  }

  /** A store inside a write section: no reader that could still validate has seen anything. */
  lemma StoreStep(s: State, p: Pid, pc: Pc, meta: Meta)
    requires Inv(s) && p in s.procs && s.procs[p].Writing? && pc.Writing?
    ensures Inv(At(s, p, pc).(meta := meta))
  {
    var s' := At(s, p, pc).(meta := meta);
    assert InSection(s.procs[p]) && s.gen % 2 == 1;
    assert GenerationOk(s') by {
      assert forall q :: q in s.procs <==> q in s'.procs;
      assert forall q :: q in s.procs ==> InSection(s'.procs[q]) == InSection(s.procs[q]);
    }
    forall q | q in s'.procs ensures PcOk(s', s'.procs[q]) {
      if q != p {
        assert PcOk(s, s.procs[q]) && !Holding(s.procs[q]);
      }
    }
  }

  /** Begin of a write section: the generation becomes odd. */
  lemma BeginStep(s: State, p: Pid)
    requires Inv(s) && p in s.procs && s.procs[p].BeginAdd?
    ensures Inv(DoAdvance(s, p))
  {
    var s' := DoAdvance(s, p);
    assert PcOk(s, s.procs[p]);
    assert InSection(s'.procs[p]);
    forall q | q in s'.procs ensures PcOk(s', s'.procs[q]) {
      if q != p {
        assert PcOk(s, s.procs[q]) && !Holding(s.procs[q]);
      }
    }
  }

  /** End of a write section by its own writer: the generation becomes even. */
  lemma EndStep(s: State, p: Pid)
    requires Inv(s) && p in s.procs && s.procs[p].EndAdd?
    ensures Inv(DoAdvance(s, p))
  {
    var s' := DoAdvance(s, p);
    assert PcOk(s, s.procs[p]) && InSection(s.procs[p]);
    forall q | q in s'.procs ensures PcOk(s', s'.procs[q]) {
      if q != p {
        assert PcOk(s, s.procs[q]) && !Holding(s.procs[q]);
      }
    }
  }

  /** End of a dead process's write section by the recovering process. */
  lemma RecoverStep(s: State, p: Pid)
    requires Inv(s) && p in s.procs && s.procs[p].RecoverAdd? && s.gen % 2 == 1
    ensures Inv(DoAdvance(s, p))
  {
    var s' := DoAdvance(s, p);
    assert PcOk(s, s.procs[p]);
    forall q | q in s'.procs
      ensures PcOk(s', s'.procs[q]) && !InSection(s'.procs[q]) && (Holding(s'.procs[q]) <==> q == p)
    {
      assert PcOk(s, s.procs[q]);
      if q != p {
        assert !Holding(s.procs[q]);
      }
    }
  }

  lemma ValidateStep(s: State, p: Pid)
    requires Inv(s) && p in s.procs
    ensures Inv(DoValidate(s, p))
  {
    var pc := s.procs[p];
    assert PcOk(s, pc);
    if pc.Snap? && pc.f(pc.vals).Done? {
      if s.gen == pc.seen {
        LocalStep(s, p, Idle, s.mutex);
        assert Yields(pc.f, s.meta, pc.f(pc.vals).result);
      } else {
        LocalStep(s, p, SnapLoad(pc.f), s.mutex);
      }
    }
  }

  lemma ObserveStep(s: State, p: Pid)
    requires Inv(s) && p in s.procs
    ensures Inv(DoObserve(s, p))
  {
    var pc := s.procs[p];
    assert PcOk(s, pc);
    if pc.Snap? && pc.f(pc.vals).Ask? {
      if s.gen == pc.seen {
        TraceExtend(pc.f, s.meta, pc.vals);
      }
      LocalStep(s, p, pc.(vals := pc.vals + [Read(s.meta, pc.f(pc.vals).loc)]), s.mutex);
    }
  }

  lemma AdvanceStep(s: State, p: Pid)
    requires Inv(s) && p in s.procs
    ensures Inv(DoAdvance(s, p))
  {
    hide GenerationOk, ReturnedOk, Sane;
    var pc := s.procs[p];
    assert PcOk(s, pc);
    match pc
    case CheckSanity(w) => LocalStep(s, p, if Sane(s.meta.heap) then MarkConsistent(w) else Abandon, s.mutex);
    case MarkConsistent(w) => LocalStep(s, p, RecoverLoad(w), Held(p, false));
    case RecoverLoad(w) => LocalStep(s, p, RecoverAdd(w, s.gen), s.mutex);
    case RecoverAdd(w, g) =>
      if g % 2 == 1 { RecoverStep(s, p); } else { LocalStep(s, p, Locked(w), s.mutex); }
    case Abandon => LocalStep(s, p, Idle, NotRecoverable);
    case LockedRead => LocalStep(s, p, Idle, Unlocked);
    case BeginLoad => LocalStep(s, p, BeginAdd(s.gen), s.mutex);
    case BeginAdd(_) => BeginStep(s, p);
    case EndLoad => LocalStep(s, p, EndAdd(s.gen), s.mutex);
    case EndAdd(_) => EndStep(s, p);
    case Unlocking => LocalStep(s, p, Idle, Unlocked);
    case SnapLoad(f) =>
      if s.gen % 2 == 0 { LocalStep(s, p, Snap(f, s.gen, [], s.meta), s.mutex); }
    case _ =>
  }

  lemma DieStep(s: State, p: Pid)
    requires Inv(s) && p in s.procs
    ensures Inv(DoDie(s, p))
  {
    var pc := s.procs[p];
    if !pc.Dead? {
      LocalStep(s, p, Dead(InSection(pc)), if Holding(pc) then OwnerDead else s.mutex);
    }
  }

  lemma LockStep(s: State, p: Pid, write: bool)
    requires Inv(s) && p in s.procs
    ensures Inv(DoLock(s, p, write))
  {
    if s.procs[p] == Idle {
      match s.mutex
      case Unlocked => LocalStep(s, p, Locked(write), Held(p, false));
      case OwnerDead => LocalStep(s, p, CheckSanity(write), Held(p, true));
      case _ =>
    }
  }

  lemma JoinStep(s: State, p: Pid)
    requires Inv(s) && p !in s.procs
    ensures Inv(At(s, p, Idle))
  {
    var s' := At(s, p, Idle);
    assert GenerationOk(s') by {
      assert forall q :: q in s.procs ==> q in s'.procs && s'.procs[q] == s.procs[q];
    }
    forall q | q in s'.procs ensures PcOk(s', s'.procs[q]) {
      assert q != p ==> PcOk(s, s.procs[q]);
    }
  }

  lemma DoInv(s: State, a: Action)
    requires Inv(s)
    ensures Inv(Do(s, a))
  {
    hide GenerationOk, ReturnedOk, Sane, Enabled, OpStores, DoAdvance, DoLock, DoObserve, DoValidate, DoDie;
    if a.Join? {
      if a.p !in s.procs { JoinStep(s, a.p); }
    } else if a.p in s.procs {
      var pc := s.procs[a.p];
      assert PcOk(s, pc);
      match a
      case Lock(p, write) => LockStep(s, p, write);
      case Advance(p) => AdvanceStep(s, p);
      case BeginOp(p, op) =>
        if Ready(pc) && Enabled(s.meta.heap, op) {
          StoreStep(s, p, Writing(OpStores(s.meta.heap, op)), s.meta);
        }
      case BeginStores(p, stores) => if Ready(pc) { StoreStep(s, p, Writing(stores), s.meta); }
      case StoreNext(p) =>
        if pc.Writing? && pc.todo != [] {
          StoreStep(s, p, Writing(pc.todo[1..]), DoStoreNext(s, p).meta);
        }
      case StoreWord(p, w, value) =>
        if pc.Writing? {
          StoreStep(s, p, pc, s.meta.(words := s.meta.words[w := value]));
          assert s.procs[p := pc] == s.procs;
        }
      case Finish(p) => if Ready(pc) { LocalStep(s, p, EndLoad, s.mutex); }
      case StartSnapshot(p, f) => if pc == Idle { LocalStep(s, p, SnapLoad(f), s.mutex); }
      case Observe(p) => ObserveStep(s, p);
      case Validate(p) => ValidateStep(s, p);
      case GiveUp(p) => if pc.SnapLoad? || pc.Snap? { LocalStep(s, p, Idle, s.mutex); }
      case Die(p) => DieStep(s, p);
    }
  }

  // ---------------------------------------------------------------- the heap

  /** What the self-check accepts is a heap. */
  ghost predicate Trusted(m: Segment) { Sane(m) ==> IsHeap(m) }

  ghost predicate HeapAt(s: State, pc: Pc) {
    var m := s.meta.heap;
    match pc
    case Writing(todo) => SafeStores(m, todo)
    case EndLoad => IsHeap(m)
    case EndAdd(_) => IsHeap(m)
    case CheckSanity(_) => Trusted(m)
    case MarkConsistent(_) => IsHeap(m)
    case RecoverLoad(_) => IsHeap(m)
    case RecoverAdd(_, _) => IsHeap(m)
    case Abandon => Trusted(m) && s.gen % 2 == 1
    case _ => true
  }

  /** Between write sections the headers are a heap, and so they are whenever a process that takes over
      from a dead one finds them acceptable. */
  ghost predicate HeapOk(s: State) {
    && (s.gen % 2 == 0 ==> IsHeap(s.meta.heap))
    && (s.mutex == OwnerDead ==> Trusted(s.meta.heap))
    && (s.mutex == NotRecoverable ==> s.gen % 2 == 1)
    && (forall p :: p in s.procs ==> HeapAt(s, s.procs[p]))
    && (forall r :: r in s.returned ==> IsHeap(r.meta.heap))
  }

  /** Every store belongs to an operation on the heap. */
  ghost predicate OnlyOperations(acts: seq<Action>) {
    forall i :: 0 <= i < |acts| ==> !acts[i].BeginStores?
  }

  /** A heap passes the self-check. */
  lemma HeapAccepted(m: Segment)
    requires IsHeap(m)
    ensures Sane(m)
  {
    var v: View :| Heap(m, v.blocks, v.frees);
    HeapIsSane(m, v.blocks, v.frees);
  }

  /** A step of `p` that leaves metadata and generation alone. */
  lemma HeapLocal(s: State, p: Pid, pc: Pc, mutex: Mutex)
    requires HeapOk(s) && p in s.procs && HeapAt(s, pc)
    requires mutex == OwnerDead ==> s.mutex == OwnerDead || Trusted(s.meta.heap)
    requires mutex == NotRecoverable ==> s.mutex == NotRecoverable || s.gen % 2 == 1
    ensures HeapOk(At(s, p, pc).(mutex := mutex))
  {
    var s' := At(s, p, pc).(mutex := mutex);
    forall q | q in s'.procs ensures HeapAt(s', s'.procs[q]) {
      assert q != p ==> HeapAt(s, s.procs[q]);
    }
  }

  /** A step of the process that holds the lock; no other process relies on the headers. */
  lemma HeapHolder(s: State, p: Pid, s': State)
    requires Inv(s) && HeapOk(s) && p in s.procs && Holding(s.procs[p])
    requires s'.mutex.Held? && s'.returned == s.returned && s'.procs.Keys == s.procs.Keys
    requires forall q :: q in s.procs && q != p ==> s'.procs[q] == s.procs[q] || s'.procs[q].Dead?
    requires HeapAt(s', s'.procs[p]) && (s'.gen % 2 == 0 ==> IsHeap(s'.meta.heap))
    ensures HeapOk(s')
  {
    forall q | q in s'.procs ensures HeapAt(s', s'.procs[q]) {
      if q != p {
        assert !Holding(s.procs[q]);
      }
    }
  }

  lemma HeapAdvance(s: State, p: Pid)
    requires Inv(s) && HeapOk(s) && p in s.procs
    ensures HeapOk(DoAdvance(s, p))
  {
    hide GenerationOk, ReturnedOk, IsHeap, Sane, SafeStores, Inv, ApplyAll;
    var pc := s.procs[p];
    assert HeapAt(s, pc) && PcOk(s, pc) && MutexOk(s) by { assert Inv(s); ReadInv(s, p); }
    match pc
    case CheckSanity(w) =>
      if s.gen % 2 == 0 { HeapAccepted(s.meta.heap); }
      HeapLocal(s, p, if Sane(s.meta.heap) then MarkConsistent(w) else Abandon, s.mutex);
    case MarkConsistent(w) => HeapLocal(s, p, RecoverLoad(w), Held(p, false));
    case RecoverLoad(w) => HeapLocal(s, p, RecoverAdd(w, s.gen), s.mutex);
    case RecoverAdd(w, g) => HeapHolder(s, p, DoAdvance(s, p));
    case Abandon => HeapLocal(s, p, Idle, NotRecoverable);
    case LockedRead => HeapLocal(s, p, Idle, Unlocked);
    case BeginLoad => HeapLocal(s, p, BeginAdd(s.gen), s.mutex);
    case BeginAdd(_) =>
      assert SafeStores(s.meta.heap, []) by { EmptySafe(s.meta.heap); }
      HeapHolder(s, p, DoAdvance(s, p));
    case EndLoad => HeapLocal(s, p, EndAdd(s.gen), s.mutex);
    case EndAdd(_) => HeapHolder(s, p, DoAdvance(s, p));
    case Unlocking => HeapLocal(s, p, Idle, Unlocked);
    case SnapLoad(f) =>
      if s.gen % 2 == 0 { HeapLocal(s, p, Snap(f, s.gen, [], s.meta), s.mutex); }
    case _ =>
  }

  lemma EmptySafe(m: Segment)
    ensures SafeStores(m, []) <==> IsHeap(m)
    ensures ApplyAll(m, []) == m
  {
  }

  lemma ReadInv(s: State, p: Pid)
    requires Inv(s) && p in s.procs
    ensures PcOk(s, s.procs[p]) && MutexOk(s) && (InSection(s.procs[p]) ==> s.gen % 2 == 1)
  {
  }

  lemma HeapStore(s: State, p: Pid)
    requires Inv(s) && HeapOk(s) && p in s.procs
    ensures HeapOk(DoStoreNext(s, p))
  {
    var pc := s.procs[p];
    assert HeapAt(s, pc);
    if pc.Writing? && pc.todo != [] {
      var heap := Apply(s.meta.heap, pc.todo[0]);
      if |pc.todo| == 1 { EmptySafe(heap); }
      HeapHolder(s, p, DoStoreNext(s, p));
    }
  }

  lemma HeapDie(s: State, p: Pid)
    requires Inv(s) && HeapOk(s) && p in s.procs
    ensures HeapOk(DoDie(s, p))
  {
    var pc := s.procs[p];
    assert HeapAt(s, pc) && PcOk(s, pc);
    if !pc.Dead? {
      if pc.Writing? { assert Trusted(s.meta.heap); }
      HeapLocal(s, p, Dead(InSection(pc)), if Holding(pc) then OwnerDead else s.mutex);
    }
  }

  lemma HeapBegin(s: State, p: Pid, op: HeapOp)
    requires Inv(s) && HeapOk(s) && p in s.procs
    ensures HeapOk(DoBeginOp(s, p, op))
  {
    hide Enabled, OpStores;
    if Ready(s.procs[p]) && Enabled(s.meta.heap, op) {
      OpSafe(s.meta.heap, op);
      HeapLocal(s, p, Writing(OpStores(s.meta.heap, op)), s.mutex);
    }
  }

  lemma HeapValidate(s: State, p: Pid)
    requires Inv(s) && HeapOk(s) && p in s.procs
    ensures HeapOk(DoValidate(s, p))
  {
    var pc := s.procs[p];
    assert PcOk(s, pc);
    if pc.Snap? && pc.f(pc.vals).Done? {
      HeapLocal(s, p, if s.gen == pc.seen then Idle else SnapLoad(pc.f), s.mutex);
    }
  }

  lemma DoHeap(s: State, a: Action)
    requires Inv(s) && HeapOk(s) && !a.BeginStores?
    ensures HeapOk(Do(s, a))
  {
    hide GenerationOk, ReturnedOk, IsHeap, Sane, Enabled, OpStores, SafeStores, ApplyAll, DoAdvance, DoStoreNext,
      DoValidate, DoDie, DoBeginOp;
    if a.Join? {
      if a.p !in s.procs {
        var s' := At(s, a.p, Idle);
        forall q | q in s'.procs ensures HeapAt(s', s'.procs[q]) {
          assert q != a.p ==> HeapAt(s, s.procs[q]);
        }
      }
    } else if a.p in s.procs {
      var pc := s.procs[a.p];
      assert HeapAt(s, pc);
      match a
      case Lock(p, write) =>
        if pc == Idle && s.mutex == Unlocked { HeapLocal(s, p, Locked(write), Held(p, false)); }
        if pc == Idle && s.mutex == OwnerDead { HeapLocal(s, p, CheckSanity(write), Held(p, true)); }
      case Advance(p) => HeapAdvance(s, p);
      case BeginOp(p, op) => HeapBegin(s, p, op);
      case StoreNext(p) => HeapStore(s, p);
      case StoreWord(p, w, value) => if pc.Writing? { HeapHolder(s, p, DoStoreWord(s, p, w, value)); }
      case Finish(p) =>
        if Ready(pc) {
          EmptySafe(s.meta.heap);
          HeapLocal(s, p, EndLoad, s.mutex);
        }
      case StartSnapshot(p, f) => if pc == Idle { HeapLocal(s, p, SnapLoad(f), s.mutex); }
      case Observe(p) =>
        if pc.Snap? && pc.f(pc.vals).Ask? {
          HeapLocal(s, p, pc.(vals := pc.vals + [Read(s.meta, pc.f(pc.vals).loc)]), s.mutex);
        }
      case Validate(p) => HeapValidate(s, p);
      case GiveUp(p) => if pc.SnapLoad? || pc.Snap? { HeapLocal(s, p, Idle, s.mutex); }
      case Die(p) => HeapDie(s, p);
    }
  }

  // ---------------------------------------------------------------- all runs

  /** A generation and a lock that nobody has used. */
  ghost predicate Start(s: State) {
    s.gen == 0 && s.mutex == Unlocked && s.procs == map[] && s.returned == []
  }

  /** The manager right after its creation. */
  ghost predicate Init(s: State) { Start(s) && IsHeap(s.meta.heap) }

  /** Every run, with any interleaving, any stores, any deaths and any recoveries, keeps the protocol. */
  lemma {:induction false} RunInv(s: State, acts: seq<Action>)
    requires Start(s)
    ensures Inv(Run(s, acts))
    decreases |acts|
  {
    if acts != [] {
      RunInv(s, acts[..|acts| - 1]);
      DoInv(Run(s, acts[..|acts| - 1]), acts[|acts| - 1]);
    }
  }

  /** Every run of heap operations, resizes included, keeps the heap recoverable, wherever processes die. */
  lemma {:induction false} RunHeap(s: State, acts: seq<Action>)
    requires Init(s) && OnlyOperations(acts)
    ensures HeapOk(Run(s, acts))
    decreases |acts|
  {
    if acts != [] {
      RunHeap(s, acts[..|acts| - 1]);
      RunInv(s, acts[..|acts| - 1]);
      DoHeap(Run(s, acts[..|acts| - 1]), acts[|acts| - 1]);
    }
  }

  /** In every run the generation is odd exactly while some live or dead process is inside an
      unfinished write section. */
  lemma GenerationParity(s: State, acts: seq<Action>)
    requires Start(s)
    ensures var t := Run(s, acts); t.gen % 2 == 1 <==> exists p :: p in t.procs && InSection(t.procs[p])
  {
    RunInv(s, acts);
  }

  /** In every run each value returned by a snapshot is the reader's function applied to one single
      metadata state. */
  lemma SnapshotsAreAtomic(s: State, acts: seq<Action>, r: Returned)
    requires Start(s) && r in Run(s, acts).returned
    ensures Yields(r.f, r.meta, r.value)
  {
    RunInv(s, acts);
  }

  /** And that metadata state has a proper heap. */
  lemma SnapshotsShowHeaps(s: State, acts: seq<Action>, r: Returned)
    requires Init(s) && OnlyOperations(acts) && r in Run(s, acts).returned
    ensures Yields(r.f, r.meta, r.value) && IsHeap(r.meta.heap)
  {
    RunInv(s, acts);
    RunHeap(s, acts);
  }

  /** A snapshot that is about to be returned is that of the metadata both when the reader loaded
      the generation and when it validated it. */
  lemma SnapshotSpansInterval(s: State, acts: seq<Action>, p: Pid)
    requires Start(s)
    requires var t := Run(s, acts); p in t.procs && t.procs[p].Snap? && t.procs[p].seen == t.gen
    ensures var t := Run(s, acts);
            t.procs[p].start == t.meta && Trace(t.procs[p].f, t.procs[p].start, t.procs[p].vals)
  {
    RunInv(s, acts);
    assert PcOk(Run(s, acts), Run(s, acts).procs[p]);
  }

  /** The lock is never held by two processes, and nobody stores outside a write section. */
  lemma WritersExclude(s: State, acts: seq<Action>, p: Pid, q: Pid)
    requires Start(s)
    requires var t := Run(s, acts); p in t.procs && q in t.procs && Holding(t.procs[p]) && Holding(t.procs[q])
    ensures p == q
  {
    RunInv(s, acts);
  }

  /** Between write sections the heap invariant holds, so a death there never fails the self-check. */
  lemma SaneWhenEven(s: State, acts: seq<Action>)
    requires Init(s) && OnlyOperations(acts) && Run(s, acts).gen % 2 == 0
    ensures IsHeap(Run(s, acts).meta.heap) && Sane(Run(s, acts).meta.heap)
  {
    RunHeap(s, acts);
    HeapAccepted(Run(s, acts).meta.heap);
  }

  /** A process that takes the lock over from a dead one, and finds the headers acceptable, has a heap. */
  lemma RecoveryFindsHeap(s: State, acts: seq<Action>, p: Pid)
    requires Init(s) && OnlyOperations(acts)
    requires var t := Run(s, acts); p in t.procs && t.procs[p].CheckSanity? && Sane(t.meta.heap)
    ensures IsHeap(Run(s, acts).meta.heap)
  {
    RunHeap(s, acts);
    assert HeapAt(Run(s, acts), Run(s, acts).procs[p]);
  }

  /** The manager becomes unrecoverable only through a process that died inside a write section, and only if what
      it left fails the self-check. */
  lemma UnrecoverableOnlyByDeath(s: State, acts: seq<Action>)
    requires Init(s) && OnlyOperations(acts) && Run(s, acts).mutex == NotRecoverable
    ensures exists p :: p in Run(s, acts).procs && Run(s, acts).procs[p] == Dead(true)
    ensures !Sane(Run(s, acts).meta.heap)
  {
    RunInv(s, acts);
    RunHeap(s, acts);
    RunVerdict(s, acts);
    var t := Run(s, acts);
    var p :| p in t.procs && InSection(t.procs[p]);
    assert !Holding(t.procs[p]);
  }

  // ---------------------------------------------------------------- giving up only on insane headers

  /** Whoever gives the manager up has found headers that fail the self-check, and nobody changes them any more. */
  ghost predicate VerdictOk(s: State) {
    && (s.mutex == NotRecoverable ==> !Sane(s.meta.heap))
    && (forall p :: p in s.procs && s.procs[p].Abandon? ==> !Sane(s.meta.heap))
  }

  lemma DoVerdict(s: State, a: Action)
    requires Inv(s) && VerdictOk(s)
    ensures VerdictOk(Do(s, a))
  {
    hide GenerationOk, ReturnedOk, PcsOk, Sane, Enabled, OpStores;
    if a.p in s.procs && s.procs[a.p].Writing? {
      assert Holding(s.procs[a.p]);
      assert forall q :: q in s.procs && q != a.p ==> !Holding(s.procs[q]);
    }
  }

  lemma {:induction false} RunVerdict(s: State, acts: seq<Action>)
    requires Start(s)
    ensures VerdictOk(Run(s, acts))
    decreases |acts|
  {
    if acts != [] {
      RunVerdict(s, acts[..|acts| - 1]);
      RunInv(s, acts[..|acts| - 1]);
      DoVerdict(Run(s, acts[..|acts| - 1]), acts[|acts| - 1]);
    }
  }

  /** In every run, whatever is stored, the manager is given up only on headers that fail the self-check. */
  lemma UnrecoverableOnlyIfInsane(s: State, acts: seq<Action>)
    requires Start(s)
    ensures Run(s, acts).mutex == NotRecoverable ==> !Sane(Run(s, acts).meta.heap)
  {
    RunVerdict(s, acts);
  }

  // ---------------------------------------------------------------- what runs lead to

  lemma RunSnoc(s: State, acts: seq<Action>, a: Action)
    ensures Run(s, acts + [a]) == Do(Run(s, acts), a)
  {
    assert (acts + [a])[..|acts + [a]| - 1] == acts;
  }

  lemma {:induction false} RunConcat(s: State, xs: seq<Action>, ys: seq<Action>)
    ensures Run(s, xs + ys) == Run(Run(s, xs), ys)
    decreases |ys|
  {
    if ys == [] {
      assert xs + ys == xs;
    } else {
      var front, a := ys[..|ys| - 1], ys[|ys| - 1];
      assert xs + ys == (xs + front) + [a] && ys == front + [a];
      RunSnoc(s, xs + front, a);
      RunSnoc(Run(s, xs), front, a);
      RunConcat(s, xs, front);
    }
  }

  lemma RunOne(s: State, a: Action)
    ensures Run(s, [a]) == Do(s, a)
  {
    assert [] + [a] == [a];
    RunSnoc(s, [], a);
  }

  /** Which function an action stands for. */
  lemma DoIs(s: State, p: Pid, a: Action)
    requires p in s.procs && a.p == p
    ensures a.Advance? ==> Do(s, a) == DoAdvance(s, p)
    ensures a.Lock? ==> Do(s, a) == DoLock(s, p, a.write)
    ensures a.Die? ==> Do(s, a) == DoDie(s, p)
    ensures a.Finish? ==> Do(s, a) == DoFinish(s, p)
    ensures a.StoreNext? ==> Do(s, a) == DoStoreNext(s, p)
    ensures a.BeginOp? ==> Do(s, a) == DoBeginOp(s, p, a.op)
    ensures a.Observe? ==> Do(s, a) == DoObserve(s, p)
    ensures a.Validate? ==> Do(s, a) == DoValidate(s, p)
  {
    hide DoBeginOp, DoBeginStores, DoStoreNext, DoStoreWord, DoFinish, DoDie, DoLock, DoAdvance, DoObserve, DoValidate,
         At;
  }

  lemma RunTwo(s: State, a: Action, b: Action)
    ensures Run(s, [a, b]) == Do(Do(s, a), b)
  {
    assert [a] + [b] == [a, b];
    RunOne(s, a);
    RunSnoc(s, [a], b);
  }

  function Repeated(a: Action, k: nat): seq<Action> {
    seq(k, i => a)
  }

  lemma RepeatedMore(a: Action, k: nat)
    ensures Repeated(a, k + 1) == Repeated(a, k) + [a] && Repeated(a, 0) == []
  {
  }

  /** A recovery that finds sane headers succeeds, whatever generation the dead process left: the lock is
      consistent, the metadata counts as stable, and no write section is open. */
  lemma RecoveryCompletes(s: State, p: Pid, w: bool)
    requires Inv(s) && p in s.procs && s.procs[p] == CheckSanity(w) && Sane(s.meta.heap)
    ensures var t := Run(s, Repeated(Advance(p), 4));
            && t.meta == s.meta && t.gen % 2 == 0 && t.gen <= s.gen + 1 && t.mutex == Held(p, false)
            && p in t.procs && t.procs[p] == (if w then BeginLoad else LockedRead)
            && (forall q :: q in t.procs ==> !InSection(t.procs[q]))
            && t.procs.Keys == s.procs.Keys && t.returned == s.returned
            && (forall q :: q in s.procs && q != p && !s.procs[q].Dead? ==> t.procs[q] == s.procs[q])
  {
    hide Sane, PcsOk, ReturnedOk, GenerationOk, MutexOk, Do;
    RecoveryChecked(s, p, w);
    var t := Run(s, [Advance(p), Advance(p)]);
    RecoveryEnds(t, p, w);
    RunConcat(s, [Advance(p), Advance(p)], [Advance(p), Advance(p)]);
    assert Repeated(Advance(p), 4) == [Advance(p), Advance(p)] + [Advance(p), Advance(p)];
    NoSectionAfter(s, p);
    AtOther(s, p, RecoverLoad(w));
  }

  lemma AtOther(s: State, p: Pid, pc: Pc)
    requires p in s.procs
    ensures var t := At(s, p, pc);
            && t.procs.Keys == s.procs.Keys && t.procs[p] == pc
            && (forall q :: q in s.procs && q != p ==> t.procs[q] == s.procs[q])
  {
  }

  lemma RecoveryChecked(s: State, p: Pid, w: bool)
    requires p in s.procs && s.procs[p] == CheckSanity(w) && Sane(s.meta.heap)
    ensures Run(s, [Advance(p), Advance(p)]) == At(s, p, RecoverLoad(w)).(mutex := Held(p, false))
  {
    hide Do;
    DoIs(s, p, Advance(p));
    DoIs(At(s, p, MarkConsistent(w)), p, Advance(p));
    hide Sane;
    RunTwo(s, Advance(p), Advance(p));
    Moved(s, p, MarkConsistent(w), RecoverLoad(w));
  }

  lemma RecoveryEnds(s: State, p: Pid, w: bool)
    requires p in s.procs && s.procs[p] == RecoverLoad(w)
    ensures Run(s, [Advance(p), Advance(p)]) ==
            if s.gen % 2 == 1
            then At(s.(procs := Closed(s.procs[p := RecoverAdd(w, s.gen)])), p, Locked(w)).(gen := s.gen + 1)
            else At(s, p, Locked(w))
  {
    hide Do;
    DoIs(s, p, Advance(p));
    DoIs(At(s, p, RecoverAdd(w, s.gen)), p, Advance(p));
    RunTwo(s, Advance(p), Advance(p));
    Moved(s, p, RecoverAdd(w, s.gen), Locked(w));
  }

  /** A process that stands in one place and then in another stands in the other. */
  lemma Moved(s: State, p: Pid, pc: Pc, pc': Pc)
    requires p in s.procs
    ensures p in At(s, p, pc).procs && s.procs[p := pc][p := pc'] == s.procs[p := pc']
  {
  }

  /** While one process recovers, only the dead are inside sections. */
  lemma NoSectionAfter(s: State, p: Pid)
    requires Inv(s) && p in s.procs && s.procs[p].CheckSanity?
    ensures forall q :: q in s.procs && InSection(s.procs[q]) ==> s.procs[q].Dead? && s.gen % 2 == 1
    ensures s.mutex.Held?
  {
    forall q | q in s.procs && q != p ensures InSection(s.procs[q]) ==> s.procs[q].Dead? && s.gen % 2 == 1 {
      assert !Holding(s.procs[q]);
    }
  }

  /** A process that holds the lock dies, wherever it stands, and another asks for the lock. If the headers it left
      pass the self-check, that process comes to hold the lock, with no write section open. */
  lemma DeathIsRecovered(s: State, p: Pid, q: Pid, w: bool)
    requires Inv(s) && p in s.procs && q in s.procs && Holding(s.procs[p]) && s.procs[q] == Idle && Sane(s.meta.heap)
    ensures var t := Run(s, [Die(p), Lock(q, w)] + Repeated(Advance(q), 4));
            && t.meta == s.meta && t.gen % 2 == 0 && t.mutex == Held(q, false)
            && q in t.procs && t.procs[q] == (if w then BeginLoad else LockedRead)
            && (forall r :: r in t.procs ==> !InSection(t.procs[r]))
  {
    hide Sane, PcsOk, ReturnedOk, GenerationOk, Inv;
    TakesOver(s, p, q, w);
    var t := Run(s, [Die(p), Lock(q, w)]);
    RecoveryCompletes(t, q, w);
    RunConcat(s, [Die(p), Lock(q, w)], Repeated(Advance(q), 4));
  }

  lemma TakesOver(s: State, p: Pid, q: Pid, w: bool)
    requires Inv(s) && p in s.procs && q in s.procs && Holding(s.procs[p]) && s.procs[q] == Idle
    ensures var t := Run(s, [Die(p), Lock(q, w)]);
            && Inv(t) && t.meta == s.meta && t.gen == s.gen && t.mutex == Held(q, true)
            && q in t.procs && t.procs[q] == CheckSanity(w)
  {
    hide Inv;
    RunTwo(s, Die(p), Lock(q, w));
    DoInv(s, Die(p));
    DoInv(Do(s, Die(p)), Lock(q, w));
  }

  /** If they do not pass it, the manager is given up. */
  lemma DeathIsNotRecovered(s: State, p: Pid, q: Pid, w: bool)
    requires Inv(s) && p in s.procs && q in s.procs && Holding(s.procs[p]) && s.procs[q] == Idle && !Sane(s.meta.heap)
    ensures var t := Run(s, [Die(p), Lock(q, w)] + [Advance(q), Advance(q)]);
            t.mutex == NotRecoverable && t.meta == s.meta && q in t.procs && t.procs[q] == Idle
  {
    hide Sane, Inv;
    TakesOver(s, p, q, w);
    var t := Run(s, [Die(p), Lock(q, w)]);
    RunTwo(t, Advance(q), Advance(q));
    RunConcat(s, [Die(p), Lock(q, w)], [Advance(q), Advance(q)]);
  }

  /** An idle process that finds the lock free reads under it and leaves everything as it was. */
  lemma ReadCompletes(s: State, p: Pid)
    requires p in s.procs && s.procs[p] == Idle && s.mutex == Unlocked
    ensures Run(s, [Lock(p, false), Advance(p)]) == s
  {
    hide Do;
    DoIs(s, p, Lock(p, false));
    DoIs(At(s, p, LockedRead).(mutex := Held(p, false)), p, Advance(p));
    RunTwo(s, Lock(p, false), Advance(p));
    var t := Do(Do(s, Lock(p, false)), Advance(p));
    assert t.procs == s.procs;
  }

  // ---------------------------------------------------------------- a write that nothing disturbs

  /** The stores of an operation, one by one. */
  lemma {:induction false} StoresDone(s: State, p: Pid, ss: seq<Store>, k: nat)
    requires p in s.procs && s.procs[p] == Writing(ss) && k <= |ss|
    ensures Run(s, Repeated(StoreNext(p), k)) ==
            At(s, p, Writing(ss[k..])).(meta := s.meta.(heap := ApplyAll(s.meta.heap, ss[..k])))
    decreases k
  {
    hide Apply, Do;
    if k == 0 {
      assert ss[0..] == ss && ss[..0] == [];
      assert s.procs[p := Writing(ss)] == s.procs;
    } else {
      StoresDone(s, p, ss, k - 1);
      RepeatedMore(StoreNext(p), k - 1);
      RunSnoc(s, Repeated(StoreNext(p), k - 1), StoreNext(p));
      assert ss[..k] == ss[..k - 1] + [ss[k - 1]] && ss[k - 1..][0] == ss[k - 1] && ss[k - 1..][1..] == ss[k..];
      ApplyConcat(s.meta.heap, ss[..k - 1], [ss[k - 1]]);
      ApplyOne(ApplyAll(s.meta.heap, ss[..k - 1]), ss[k - 1]);
      OneStore(Run(s, Repeated(StoreNext(p), k - 1)), p);
      assert s.procs[p := Writing(ss[k - 1..])][p := Writing(ss[k..])] == s.procs[p := Writing(ss[k..])];
    }
  }

  lemma OneStore(s: State, p: Pid)
    requires p in s.procs && s.procs[p].Writing? && s.procs[p].todo != []
    ensures var todo := s.procs[p].todo;
            Do(s, StoreNext(p)) ==
            At(s, p, Writing(todo[1..])).(meta := s.meta.(heap := Apply(s.meta.heap, todo[0])))
  {
    hide Do;
    DoIs(s, p, StoreNext(p));
  }

  /** What a write section does from the lock to the unlock, with one operation in it. */
  ghost function WriteRun(s: State, p: Pid, op: HeapOp): seq<Action>
    requires Enabled(s.meta.heap, op)
  {
    [Lock(p, true), Advance(p)] + [Advance(p), BeginOp(p, op)]
    + Repeated(StoreNext(p), |OpStores(s.meta.heap, op)|)
    + [Finish(p), Advance(p)] + [Advance(p), Advance(p)]
  }

  /** An idle process that finds the lock free performs any operation that is enabled: then the metadata is what the
      operation's stores make of it, the generation is two further, and everything else is as it was. */
  lemma WriteCompletes(s: State, p: Pid, op: HeapOp)
    requires Inv(s) && p in s.procs && s.procs[p] == Idle && s.mutex == Unlocked && Enabled(s.meta.heap, op)
    ensures Run(s, WriteRun(s, p, op)) ==
            s.(gen := s.gen + 2, meta := s.meta.(heap := ApplyAll(s.meta.heap, OpStores(s.meta.heap, op))))
  {
    hide Enabled, OpStores, ApplyAll, Do, Run, Inv, Repeated;
    var ss := OpStores(s.meta.heap, op);
    var xs, ys := [Lock(p, true), Advance(p)] + [Advance(p), BeginOp(p, op)], Repeated(StoreNext(p), |ss|);
    WriteBegins(s, p, op);
    var t1 := Run(s, xs);
    StoresDone(t1, p, ss, |ss|);
    assert ss[|ss|..] == [] && ss[..|ss|] == ss;
    var t2 := Run(t1, ys);
    var zs := [Finish(p), Advance(p)] + [Advance(p), Advance(p)];
    WriteEnds(t2, p);
    RunConcat(s, xs, ys);
    RunConcat(s, xs + ys, zs);
    assert WriteRun(s, p, op) == xs + ys + zs;
    assert Run(t2, zs).procs == s.procs;
  }

  lemma WriteBegins(s: State, p: Pid, op: HeapOp)
    requires Inv(s) && p in s.procs && s.procs[p] == Idle && s.mutex == Unlocked && Enabled(s.meta.heap, op)
    ensures Run(s, [Lock(p, true), Advance(p)] + [Advance(p), BeginOp(p, op)]) ==
            At(s, p, Writing(OpStores(s.meta.heap, op))).(gen := s.gen + 1, mutex := Held(p, false))
    ensures s.gen % 2 == 0
  {
    hide Enabled, OpStores, Do, Inv;
    EvenWhenFree(s);
    LockTaken(s, p);
    var t := Run(s, [Lock(p, true), Advance(p)]);
    Moved(s, p, BeginAdd(s.gen), Idle);
    AtOther(s, p, BeginAdd(s.gen));
    SectionBegun(t, p, op);
    RunConcat(s, [Lock(p, true), Advance(p)], [Advance(p), BeginOp(p, op)]);
    AtAgain(s, p, BeginAdd(s.gen), Writing(OpStores(s.meta.heap, op)), Held(p, false), s.gen + 1);
  }

  lemma EvenWhenFree(s: State)
    requires Inv(s)
    ensures s.mutex == Unlocked ==> s.gen % 2 == 0
  {
  }

  lemma AtAgain(s: State, p: Pid, pc: Pc, pc': Pc, mutex: Mutex, gen: nat)
    requires p in s.procs
    ensures At(At(s, p, pc).(mutex := mutex), p, pc').(gen := gen) == At(s, p, pc').(gen := gen, mutex := mutex)
  {
    Moved(s, p, pc, pc');
  }

  lemma LockTaken(s: State, p: Pid)
    requires p in s.procs && s.procs[p] == Idle && s.mutex == Unlocked
    ensures Run(s, [Lock(p, true), Advance(p)]) == At(s, p, BeginAdd(s.gen)).(mutex := Held(p, false))
  {
    hide Do;
    DoIs(s, p, Lock(p, true));
    DoIs(At(s, p, BeginLoad).(mutex := Held(p, false)), p, Advance(p));
    RunTwo(s, Lock(p, true), Advance(p));
    Moved(s, p, BeginLoad, BeginAdd(s.gen));
  }

  lemma SectionBegun(s: State, p: Pid, op: HeapOp)
    requires p in s.procs && s.procs[p] == BeginAdd(s.gen) && s.gen % 2 == 0 && Enabled(s.meta.heap, op)
    ensures Run(s, [Advance(p), BeginOp(p, op)]) ==
            At(s, p, Writing(OpStores(s.meta.heap, op))).(gen := s.gen + 1)
  {
    hide Do;
    DoIs(s, p, Advance(p));
    DoIs(At(s, p, Writing([])).(gen := s.gen + 1), p, BeginOp(p, op));
    hide Enabled, OpStores;
    RunTwo(s, Advance(p), BeginOp(p, op));
    Moved(s, p, Writing([]), Writing(OpStores(s.meta.heap, op)));
  }

  lemma WriteEnds(s: State, p: Pid)
    requires p in s.procs && s.procs[p] == Writing([]) && s.gen % 2 == 1
    ensures Run(s, [Finish(p), Advance(p)] + [Advance(p), Advance(p)]) ==
            At(s, p, Idle).(gen := s.gen + 1, mutex := Unlocked)
  {
    hide Do;
    SectionFinished(s, p);
    var t := Run(s, [Finish(p), Advance(p)]);
    AtOther(s, p, EndAdd(s.gen));
    SectionEnded(t, p);
    RunConcat(s, [Finish(p), Advance(p)], [Advance(p), Advance(p)]);
    AtAgain(s, p, EndAdd(s.gen), Idle, s.mutex, s.gen + 1);
  }

  lemma SectionFinished(s: State, p: Pid)
    requires p in s.procs && s.procs[p] == Writing([])
    ensures Run(s, [Finish(p), Advance(p)]) == At(s, p, EndAdd(s.gen))
  {
    hide Do;
    DoIs(s, p, Finish(p));
    DoIs(At(s, p, EndLoad), p, Advance(p));
    RunTwo(s, Finish(p), Advance(p));
    Moved(s, p, EndLoad, EndAdd(s.gen));
  }

  lemma SectionEnded(s: State, p: Pid)
    requires p in s.procs && s.procs[p] == EndAdd(s.gen) && s.gen % 2 == 1
    ensures Run(s, [Advance(p), Advance(p)]) == At(s, p, Idle).(gen := s.gen + 1, mutex := Unlocked)
  {
    hide Do;
    DoIs(s, p, Advance(p));
    DoIs(At(s, p, Unlocking).(gen := s.gen + 1), p, Advance(p));
    RunTwo(s, Advance(p), Advance(p));
    Moved(s, p, Unlocking, Idle);
  }

  // ---------------------------------------------------------------- a snapshot that nothing disturbs

  lemma {:induction false} Observed(s: State, p: Pid, f: Reader, vals: seq<int>, k: nat)
    requires p in s.procs && s.procs[p] == Snap(f, s.gen, [], s.meta) && Trace(f, s.meta, vals) && k <= |vals|
    ensures Run(s, Repeated(Observe(p), k)) == At(s, p, Snap(f, s.gen, vals[..k], s.meta))
    decreases k
  {
    hide Do;
    if k == 0 {
      assert vals[..0] == [] && s.procs[p := Snap(f, s.gen, [], s.meta)] == s.procs;
    } else {
      Observed(s, p, f, vals, k - 1);
      RepeatedMore(Observe(p), k - 1);
      RunSnoc(s, Repeated(Observe(p), k - 1), Observe(p));
      assert vals[..k] == vals[..k - 1] + [vals[k - 1]];
      var pc, pc' := Snap(f, s.gen, vals[..k - 1], s.meta), Snap(f, s.gen, vals[..k], s.meta);
      DoIs(At(s, p, pc), p, Observe(p));
      assert s.procs[p := pc][p := pc'] == s.procs[p := pc'];
    }
  }

  /** A reader that has seen all it asks for, under a generation that is still the one it loaded, returns its result;
      under another one it starts again. */
  lemma ValidateReturns(s: State, p: Pid)
    requires p in s.procs && s.procs[p].Snap? && s.procs[p].f(s.procs[p].vals).Done?
    ensures var pc, t := s.procs[p], Run(s, [Validate(p)]);
            if pc.seen == s.gen
            then t == At(s, p, Idle).(returned := s.returned + [Returned(pc.f, pc.f(pc.vals).result, s.meta)])
            else t == At(s, p, SnapLoad(pc.f))
  {
    hide Do;
    DoIs(s, p, Validate(p));
    RunOne(s, Validate(p));
  }

  lemma SnapshotStarted(s: State, p: Pid, f: Reader)
    requires p in s.procs && s.procs[p] == Idle && s.gen % 2 == 0
    ensures Run(s, [StartSnapshot(p, f), Advance(p)]) == At(s, p, Snap(f, s.gen, [], s.meta))
  {
    hide Do;
    RunTwo(s, StartSnapshot(p, f), Advance(p));
    SnapshotAsked(s, p, f);
    GenerationLoaded(At(s, p, SnapLoad(f)), p, f);
    Moved(s, p, SnapLoad(f), Snap(f, s.gen, [], s.meta));
  }

  lemma SnapshotAsked(s: State, p: Pid, f: Reader)
    requires p in s.procs && s.procs[p] == Idle
    ensures Do(s, StartSnapshot(p, f)) == At(s, p, SnapLoad(f))
  {
    hide DoBeginOp, DoBeginStores, DoStoreNext, DoStoreWord, DoFinish, DoDie, DoLock, DoAdvance, DoObserve, DoValidate;
  }

  lemma GenerationLoaded(s: State, p: Pid, f: Reader)
    requires p in s.procs && s.procs[p] == SnapLoad(f) && s.gen % 2 == 0
    ensures Do(s, Advance(p)) == At(s, p, Snap(f, s.gen, [], s.meta))
  {
    hide DoBeginOp, DoBeginStores, DoStoreNext, DoStoreWord, DoFinish, DoDie, DoLock, DoObserve, DoValidate;
  }

  /** An idle reader that nobody disturbs returns its function of the metadata and changes nothing. */
  lemma SnapshotCompletes(s: State, p: Pid, f: Reader, vals: seq<int>, r: int)
    requires p in s.procs && s.procs[p] == Idle && s.gen % 2 == 0 && Trace(f, s.meta, vals) && f(vals) == Done(r)
    ensures Run(s, [StartSnapshot(p, f), Advance(p)] + Repeated(Observe(p), |vals|) + [Validate(p)]) ==
            s.(returned := s.returned + [Returned(f, r, s.meta)])
  {
    hide Do, Run, Repeated, Trace;
    var xs, ys := [StartSnapshot(p, f), Advance(p)], Repeated(Observe(p), |vals|);
    SnapshotStarted(s, p, f);
    var t := Run(s, xs);
    Observed(t, p, f, vals, |vals|);
    assert vals[..|vals|] == vals;
    var u := Run(t, ys);
    ValidateReturns(u, p);
    RunConcat(s, xs, ys);
    RunConcat(s, xs + ys, [Validate(p)]);
    assert Run(u, [Validate(p)]).procs == s.procs;
  }
}
