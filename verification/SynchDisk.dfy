/** The synchronous disk (filesys/synchdisk.cc, machine/disk.cc): any number of threads read
    and write sectors through a lock, a completion semaphore and a four-slot cache in front of
    an asynchronous disk.

    A step is the code between two points where interrupts are enabled again, so a thread can
    be preempted between any two steps.  WriteSector releases the lock before it invalidates
    the cache; a read in between can still be answered from the stale slot.  The history
    variables `log`, `late`, `doneFor` and the operation numbers are not program state. */
module SynchDisk {
  import opened Basics
  import opened Semaphores

  const CACHE_SIZE := 4

  type Data = seq<int>

  datatype Op = Read(sector: nat) | Write(sector: nat, data: Data)

  // What an operation did to the store: a read with the data it returns, or a write.
  datatype Event = Event(id: nat, tid: Tid, op: Op, data: Data)

  datatype Slot = Slot(valid: bool, sector: nat, cnt: int, data: Data)

  datatype Pc =
    | Idle
    | Acquiring(op: Op, id: nat)
    | Locked(op: Op, id: nat)                 // owns the lock, nothing done yet
    | Waiting(op: Op, id: nat, buf: Data)     // in semaphore->P()
    | Releasing(op: Op, id: nat, buf: Data)   // about to call lock->Release()
    | Invalidating(op: Op, id: nat)           // a writer that has released the lock

  datatype State = State(
    disk: seq<Data>,
    active: bool,                // Disk::active
    pending: Option<nat>,        // the operation whose disk interrupt is scheduled
    sem: Sem,                    // V'ed when a request is done
    lock: Lock,
    cache: seq<Slot>,
    pcs: map<Tid, Pc>,
    nextId: nat,
    doneFor: Option<nat>,        // the operation whose V is waiting in sem
    log: seq<Event>,             // operations in the order in which they take effect
    late: seq<Event>)            // writes that are on disk but hidden by a stale cache slot

  // ---------------------------------------------------------------------------
  // The atomic store the disk should look like

  function Apply(store: seq<Data>, e: Event): seq<Data>
    requires e.op.sector < |store|
  {
    if e.op.Write? then store[e.op.sector := e.data] else store
  }

  predicate InRange(log: seq<Event>) {
    forall e | e in log :: e.op.sector < NUM_SECTORS
  }

  function Replay(init: seq<Data>, log: seq<Event>): (r: seq<Data>)
    requires |init| == NUM_SECTORS && InRange(log)
    ensures |r| == NUM_SECTORS
  {
    if log == [] then init else Apply(Replay(init, log[..|log| - 1]), log[|log| - 1])
  }

  // Every read of the log returns the value its sector has at that place in the log.
  ghost predicate Legal(init: seq<Data>, log: seq<Event>)
    requires |init| == NUM_SECTORS && InRange(log)
  {
    forall i | 0 <= i < |log| && log[i].op.Read? ::
      log[i].data == Replay(init, log[..i])[log[i].op.sector]
  }

  // ---------------------------------------------------------------------------
  // Cache searches

  function FindSlot(cache: seq<Slot>, sector: nat, i: nat): (r: Option<nat>)
    requires i <= |cache|
    ensures r.Some? ==> i <= r.value < |cache| && cache[r.value].valid && cache[r.value].sector == sector
    ensures forall k | i <= k < (if r.Some? then r.value else |cache|) :: !(cache[k].valid && cache[k].sector == sector)
    decreases |cache| - i
  {
    if i == |cache| then None
    else if cache[i].valid && cache[i].sector == sector then Some(i)
    else FindSlot(cache, sector, i + 1)
  }

  function FirstValid(cache: seq<Slot>, i: nat): (r: Option<nat>)
    requires i <= |cache|
    ensures r.Some? ==> i <= r.value < |cache| && cache[r.value].valid
    ensures forall k | i <= k < (if r.Some? then r.value else |cache|) :: !cache[k].valid
    decreases |cache| - i
  {
    if i == |cache| then None
    else if cache[i].valid then Some(i)
    else FirstValid(cache, i + 1)
  }

  function Oldest(cache: seq<Slot>, best: nat, i: nat): (r: nat)
    requires best < |cache| && i <= |cache|
    ensures r < |cache| && cache[r].cnt <= cache[best].cnt
    ensures forall k | i <= k < |cache| :: cache[r].cnt <= cache[k].cnt
    decreases |cache| - i
  {
    if i == |cache| then best
    else Oldest(cache, if cache[i].cnt < cache[best].cnt then i else best, i + 1)
  }

  // The slot ReadSector fills on a miss: the first valid slot if there is one.
  function Victim(cache: seq<Slot>): (r: nat)
    requires |cache| == CACHE_SIZE
    ensures r < CACHE_SIZE
  {
    match FirstValid(cache, 0)
    case Some(i) => i
    case None => Oldest(cache, 0, 0)
  }

  function Invalidate(cache: seq<Slot>, sector: nat): (r: seq<Slot>)
    ensures |r| == |cache|
    ensures forall i | 0 <= i < |cache| ::
      r[i] == if cache[i].sector == sector then cache[i].(valid := false) else cache[i]
  {
    seq(|cache|, i requires 0 <= i < |cache| =>
      if cache[i].sector == sector then cache[i].(valid := false) else cache[i])
  }

  // ---------------------------------------------------------------------------
  // Steps

  datatype Step =
    | Invoke(t: Tid, op: Op)
    | TryLock(t: Tid)
    | Request(t: Tid, ticks: int)
    | Interrupt
    | TryWait(t: Tid)
    | Unlock(t: Tid)
    | DropCached(t: Tid)

  ghost predicate Init(init: seq<Data>, s: State) {
    && |init| == NUM_SECTORS
    && s.disk == init
    && !s.active && s.pending == None && s.sem == NewSem(0) && s.lock == NewLock()
    && |s.cache| == CACHE_SIZE && (forall i | 0 <= i < CACHE_SIZE :: !s.cache[i].valid)
    && (forall t | t in s.pcs :: s.pcs[t] == Idle)
    && s.nextId == 0 && s.doneFor == None && s.log == [] && s.late == []
  }

  function ReadRequest(s: State, t: Tid, sector: nat, id: nat, ticks: int): State
    requires |s.disk| == NUM_SECTORS && |s.cache| == CACHE_SIZE && sector < NUM_SECTORS
  {
    match FindSlot(s.cache, sector, 0)
    case Some(i) =>
      var buf := s.cache[i].data;
      s.(cache := s.cache[i := s.cache[i].(cnt := ticks)],
         active := false, sem := V(s.sem), doneFor := Some(id),
         pcs := s.pcs[t := Waiting(Read(sector), id, buf)],
         log := s.log + [Event(id, t, Read(sector), buf)])
    case None =>
      var buf := s.disk[sector];
      s.(active := true, pending := Some(id),
         cache := s.cache[Victim(s.cache) := Slot(true, sector, ticks, buf)],
         pcs := s.pcs[t := Waiting(Read(sector), id, buf)],
         log := s.log + s.late + [Event(id, t, Read(sector), buf)], late := [])
  }

  function WriteRequest(s: State, t: Tid, sector: nat, data: Data, id: nat): State
    requires |s.disk| == NUM_SECTORS && sector < NUM_SECTORS
  {
    var e := Event(id, t, Write(sector, data), data);
    var hidden := FindSlot(s.cache, sector, 0).Some?;
    s.(disk := s.disk[sector := data], active := true, pending := Some(id),
       pcs := s.pcs[t := Waiting(Write(sector, data), id, data)],
       log := if hidden then s.log else s.log + [e],
       late := if hidden then s.late + [e] else s.late)
  }

  ghost predicate Next(s: State, step: Step, s': State)
    requires |s.disk| == NUM_SECTORS && |s.cache| == CACHE_SIZE
  {
    match step
    case Invoke(t, op) =>
      && t in s.pcs && s.pcs[t] == Idle && op.sector < NUM_SECTORS
      && s' == s.(pcs := s.pcs[t := Acquiring(op, s.nextId)], nextId := s.nextId + 1)
    case TryLock(t) =>
      && t in s.pcs && s.pcs[t].Acquiring? && t !in s.lock.sem.queue
      && var (lock, ok) := TryAcquire(s.lock, t);
         s' == s.(lock := lock, pcs := if ok then s.pcs[t := Locked(s.pcs[t].op, s.pcs[t].id)] else s.pcs)
    case Request(t, ticks) =>
      && t in s.pcs && s.pcs[t].Locked? && s.pcs[t].op.sector < NUM_SECTORS
      && s' == (match s.pcs[t].op
                case Read(sector) => ReadRequest(s, t, sector, s.pcs[t].id, ticks)
                case Write(sector, data) => WriteRequest(s, t, sector, data, s.pcs[t].id))
    case Interrupt =>
      && s.pending.Some?
      && s' == s.(active := false, pending := None, sem := V(s.sem), doneFor := s.pending)
    case TryWait(t) =>
      && t in s.pcs && s.pcs[t].Waiting? && t !in s.sem.queue
      && var (sem, ok) := TryP(s.sem, t);
         var pc := s.pcs[t];
         s' == if ok then s.(sem := sem, doneFor := None, pcs := s.pcs[t := Releasing(pc.op, pc.id, pc.buf)])
               else s.(sem := sem)
    case Unlock(t) =>
      && t in s.pcs && s.pcs[t].Releasing?
      && var pc := s.pcs[t];
         s' == s.(lock := Release(s.lock),
                  pcs := s.pcs[t := if pc.op.Read? then Idle else Invalidating(pc.op, pc.id)])
    case DropCached(t) =>
      && t in s.pcs && s.pcs[t].Invalidating?
      && var x := s.pcs[t].op.sector;
         var hidden := FindSlot(s.cache, x, 0).Some?;
         s' == s.(cache := Invalidate(s.cache, x), pcs := s.pcs[t := Idle],
                  log := if hidden then s.log + s.late else s.log,
                  late := if hidden then [] else s.late)
  }

  // The operation that a step returns from, if any: a read returns after Release, a write
  // after it has dropped the cached copies.
  predicate Returns(s: State, step: Step, id: nat) {
    || (step.Unlock? && step.t in s.pcs && s.pcs[step.t].Releasing? && s.pcs[step.t].op.Read? && s.pcs[step.t].id == id)
    || (step.DropCached? && step.t in s.pcs && s.pcs[step.t].Invalidating? && s.pcs[step.t].op.Write? && s.pcs[step.t].id == id)
  }

  // A read returns what is in its buffer; a write returns after having written its data.
  function ReturnEvent(s: State, step: Step, id: nat): Event
    requires Returns(s, step, id)
  {
    Event(id, step.t, s.pcs[step.t].op, if step.Unlock? then s.pcs[step.t].buf else s.pcs[step.t].op.data)
  }

  // ---------------------------------------------------------------------------
  // Invariant, part 1: lock, completion semaphore and disk

  predicate Holds(pc: Pc) {
    pc.Locked? || pc.Waiting? || pc.Releasing?
  }

  ghost predicate Quiet(s: State) {
    s.sem.value == 0 && s.doneFor == None && s.pending == None && !s.active
  }

  ghost predicate Handshake(s: State, id: nat) {
    || (s.pending == Some(id) && s.active && s.doneFor == None && s.sem.value == 0)
    || (s.pending == None && !s.active && s.doneFor == Some(id) && s.sem.value == 1)
  }

  ghost predicate LockPart(s: State) {
    && LockInv(s.lock) && SemInv(s.sem)
    && (forall t | t in s.pcs :: Holds(s.pcs[t]) <==> s.lock.owner == Some(t))
    && (s.lock.owner.Some? ==> s.lock.owner.value in s.pcs)
    && (forall t | t in s.lock.sem.queue || t in s.lock.sem.woken :: t in s.pcs && s.pcs[t].Acquiring?)
    && (forall t | t in s.sem.queue || t in s.sem.woken :: t in s.pcs && s.pcs[t].Waiting?)
    && (s.lock.owner.Some? && s.pcs[s.lock.owner.value].Waiting?
        ==> Handshake(s, s.pcs[s.lock.owner.value].id))
    && (!(s.lock.owner.Some? && s.pcs[s.lock.owner.value].Waiting?) ==> Quiet(s))
  }

  lemma LockPartTryLock(s: State, t: Tid, s': State)
    requires |s.disk| == NUM_SECTORS && |s.cache| == CACHE_SIZE
    requires LockPart(s) && Next(s, TryLock(t), s')
    ensures LockPart(s')
  {
    TryAcquireKeepsInv(s.lock, t);
  }

  lemma LockPartRequest(s: State, t: Tid, ticks: int, s': State)
    requires |s.disk| == NUM_SECTORS && |s.cache| == CACHE_SIZE
    requires LockPart(s) && Next(s, Request(t, ticks), s')
    ensures LockPart(s')
  {
    VKeepsInv(s.sem);
  }

  lemma LockPartTryWait(s: State, t: Tid, s': State)
    requires |s.disk| == NUM_SECTORS && |s.cache| == CACHE_SIZE
    requires LockPart(s) && Next(s, TryWait(t), s')
    ensures LockPart(s')
    ensures s'.pcs[t].Releasing? ==> s.doneFor == Some(s.pcs[t].id)
  {
    TryPKeepsInv(s.sem, t);
  }

  lemma LockPartUnlock(s: State, t: Tid, s': State)
    requires |s.disk| == NUM_SECTORS && |s.cache| == CACHE_SIZE
    requires LockPart(s) && Next(s, Unlock(t), s')
    ensures LockPart(s')
  {
    ReleaseKeepsInv(s.lock);
    VKeepsInv(s.lock.sem);
  }

  lemma LockPartInterrupt(s: State, s': State)
    requires |s.disk| == NUM_SECTORS && |s.cache| == CACHE_SIZE
    requires LockPart(s) && Next(s, Interrupt, s')
    ensures LockPart(s')
  {
    VKeepsInv(s.sem);
  }

  lemma LockPartOutside(s: State, step: Step, s': State)
    requires |s.disk| == NUM_SECTORS && |s.cache| == CACHE_SIZE
    requires LockPart(s) && Next(s, step, s') && (step.Invoke? || step.DropCached?)
    ensures LockPart(s')
  {
  }

  lemma LockPartStep(s: State, step: Step, s': State)
    requires |s.disk| == NUM_SECTORS && |s.cache| == CACHE_SIZE
    requires LockPart(s) && Next(s, step, s')
    ensures LockPart(s')
  {
    match step
    case Invoke(t, op) => LockPartOutside(s, step, s');
    case TryLock(t) => LockPartTryLock(s, t, s');
    case Request(t, ticks) => LockPartRequest(s, t, ticks, s');
    case Interrupt => LockPartInterrupt(s, s');
    case TryWait(t) => LockPartTryWait(s, t, s');
    case Unlock(t) => LockPartUnlock(s, t, s');
    case DropCached(t) => LockPartOutside(s, step, s');
  }

  // ---------------------------------------------------------------------------
  // Invariant, part 2: cache, disk and the two history sequences

  ghost predicate CachePart(s: State) {
    && |s.disk| == NUM_SECTORS && |s.cache| == CACHE_SIZE
    && (forall i, j | 0 <= i < j < CACHE_SIZE :: !(s.cache[i].valid && s.cache[j].valid))
    && (forall i | 0 <= i < CACHE_SIZE && s.cache[i].valid :: s.cache[i].sector < NUM_SECTORS)
  }

  // The store as readers see it: the disk, covered by the one valid slot.
  ghost function View(s: State): (r: seq<Data>)
    requires CachePart(s)
    ensures |r| == NUM_SECTORS
  {
    match FirstValid(s.cache, 0)
    case Some(i) => s.disk[s.cache[i].sector := s.cache[i].data]
    case None => s.disk
  }

  ghost predicate PastDisk(pc: Pc) {
    (pc.Waiting? || pc.Releasing? || pc.Invalidating?) && pc.op.Write?
  }

  // A late write is hidden by the valid slot, and its writer has not invalidated yet.
  ghost predicate IsLate(s: State, e: Event)
    requires CachePart(s)
  {
    && e.op.Write? && e.op.data == e.data
    && e.tid in s.pcs && PastDisk(s.pcs[e.tid]) && s.pcs[e.tid].id == e.id && s.pcs[e.tid].op == e.op
    && var v := FirstValid(s.cache, 0);
       v.Some? && s.cache[v.value].sector == e.op.sector
  }

  ghost predicate LatePart(s: State)
    requires CachePart(s)
  {
    && (forall e | e in s.late :: IsLate(s, e))
    && (if s.late == [] then View(s) == s.disk
        else var e := s.late[|s.late| - 1];
             e.op.sector < NUM_SECTORS && s.disk == View(s)[e.op.sector := e.data])
  }

  lemma LateInRange(s: State)
    requires CachePart(s) && LatePart(s)
    ensures InRange(s.late)
  {
    forall e | e in s.late ensures e.op.sector < NUM_SECTORS {
      assert IsLate(s, e);
    }
  }

  ghost predicate NoId(log: seq<Event>, id: nat) {
    forall e | e in log :: e.id != id
  }

  // What the histories hold about the operation thread t is performing.
  ghost predicate Recorded(s: State, t: Tid)
    requires t in s.pcs
  {
    match s.pcs[t]
    case Idle => true
    case Acquiring(op, id) => NoId(s.log, id) && NoId(s.late, id)
    case Locked(op, id) => NoId(s.log, id) && NoId(s.late, id)
    case Waiting(op, id, buf) =>
      if op.Read? then Event(id, t, op, buf) in s.log
      else Event(id, t, op, op.data) in s.log || Event(id, t, op, op.data) in s.late
    case Releasing(op, id, buf) =>
      if op.Read? then Event(id, t, op, buf) in s.log
      else Event(id, t, op, op.data) in s.log || Event(id, t, op, op.data) in s.late
    case Invalidating(op, id) =>
      op.Write? && (Event(id, t, op, op.data) in s.log || Event(id, t, op, op.data) in s.late)
  }

  ghost predicate UniqueIds(log: seq<Event>) {
    forall i, j | 0 <= i < j < |log| :: log[i].id != log[j].id
  }

  ghost predicate IdPart(s: State) {
    && (forall e | e in s.log :: e.id < s.nextId)
    && (forall e | e in s.late :: e.id < s.nextId && NoId(s.log, e.id))
    && UniqueIds(s.log) && UniqueIds(s.late)
    && (forall t | t in s.pcs && s.pcs[t] != Idle :: s.pcs[t].id < s.nextId && s.pcs[t].op.sector < NUM_SECTORS)
    && (forall t, u | t in s.pcs && u in s.pcs && t != u && s.pcs[t] != Idle && s.pcs[u] != Idle ::
          s.pcs[t].id != s.pcs[u].id)
    && (forall t | t in s.pcs :: Recorded(s, t))
  }

  ghost predicate LogPart(init: seq<Data>, s: State)
    requires CachePart(s)
  {
    && |init| == NUM_SECTORS && InRange(s.log)
    && Legal(init, s.log)
    && Replay(init, s.log) == View(s)
  }

  ghost predicate DataInv(init: seq<Data>, s: State) {
    CachePart(s) && LatePart(s) && IdPart(s) && LogPart(init, s)
  }

  ghost predicate Inv(init: seq<Data>, s: State) {
    LockPart(s) && DataInv(init, s)
  }

  // --- facts about logs

  lemma LegalSnoc(init: seq<Data>, log: seq<Event>, e: Event)
    requires |init| == NUM_SECTORS && InRange(log) && e.op.sector < NUM_SECTORS
    requires Legal(init, log)
    requires e.op.Read? ==> e.data == Replay(init, log)[e.op.sector]
    ensures InRange(log + [e]) && Legal(init, log + [e])
    ensures Replay(init, log + [e]) == Apply(Replay(init, log), e)
  {
    var l := log + [e];
    assert l[..|l| - 1] == log;
    forall i | 0 <= i < |l| && l[i].op.Read?
      ensures l[i].data == Replay(init, l[..i])[l[i].op.sector]
    {
      if i < |log| {
        assert l[..i] == log[..i];
      }
    }
  }

  lemma OneMoreWrite(init: seq<Data>, log: seq<Event>, more: seq<Event>, e: Event, x: nat)
    requires |init| == NUM_SECTORS && InRange(log) && InRange(more) && Legal(init, more)
    requires e.op.Write? && e.op.sector == x < NUM_SECTORS
    requires Replay(init, more) == Replay(init, log)[x := Replay(init, more)[x]]
    ensures InRange(more + [e]) && Legal(init, more + [e])
    ensures Replay(init, more + [e]) == Replay(init, log)[x := e.data]
  {
    LegalSnoc(init, more, e);
  }

  // Writes to one sector, appended in order, leave the last of them.
  lemma {:induction false} LegalWrites(init: seq<Data>, log: seq<Event>, late: seq<Event>, x: nat)
    requires |init| == NUM_SECTORS && InRange(log) && x < NUM_SECTORS && Legal(init, log)
    requires forall e | e in late :: e.op.Write? && e.op.sector == x
    ensures InRange(log + late) && Legal(init, log + late)
    ensures Replay(init, log + late) ==
      if late == [] then Replay(init, log) else Replay(init, log)[x := late[|late| - 1].data]
    decreases |late|
  {
    if late == [] {
      assert log + late == log;
    } else {
      var front, last := late[..|late| - 1], late[|late| - 1];
      assert late == front + [last];
      assert last in late && forall e | e in front :: e in late;
      LegalWrites(init, log, front, x);
      OneMoreWrite(init, log, log + front, last, x);
      assert log + front + [last] == log + late;
    }
  }

  // Letting the late writes take effect makes the log agree with the disk.
  lemma FlushLate(init: seq<Data>, s: State)
    requires CachePart(s) && LatePart(s) && LogPart(init, s)
    ensures InRange(s.log + s.late) && Legal(init, s.log + s.late)
    ensures Replay(init, s.log + s.late) == s.disk
  {
    if s.late == [] {
      assert s.log + s.late == s.log;
    } else {
      LateInRange(s);
      var e := s.late[|s.late| - 1];
      assert e in s.late;
      forall d | d in s.late ensures d.op.Write? && d.op.sector == e.op.sector {
        assert IsLate(s, d) && IsLate(s, e);
      }
      LegalWrites(init, s.log, s.late, e.op.sector);
    }
  }

  lemma UniqueAppend(a: seq<Event>, b: seq<Event>)
    requires UniqueIds(a) && UniqueIds(b) && (forall e | e in b :: NoId(a, e.id))
    ensures UniqueIds(a + b)
  {
    forall i, j | 0 <= i < j < |a + b| ensures (a + b)[i].id != (a + b)[j].id {
      if i < |a| <= j {
        assert (a + b)[j] in b && (a + b)[i] in a;
      }
    }
  }

  // --- steps

  // The numbering survives a step that records events of thread t's operation only.
  lemma IdStep(s: State, t: Tid, s': State)
    requires IdPart(s) && t in s.pcs && s.pcs[t] != Idle
    requires s'.nextId == s.nextId && t in s'.pcs && s'.pcs == s.pcs[t := s'.pcs[t]]
    requires s'.pcs[t] != Idle ==> s'.pcs[t].id == s.pcs[t].id && s'.pcs[t].op == s.pcs[t].op
    requires forall e | e in s.log :: e in s'.log
    requires forall e | e in s.late :: e in s'.log || e in s'.late
    requires forall e | e in s'.log || e in s'.late :: e in s.log || e in s.late || e.id == s.pcs[t].id
    requires UniqueIds(s'.log) && UniqueIds(s'.late) && (forall e | e in s'.late :: NoId(s'.log, e.id))
    requires Recorded(s', t)
    ensures IdPart(s')
  {
    forall u | u in s'.pcs ensures Recorded(s', u) {
      assert Recorded(s, u);
    }
  }

  lemma HitCache(init: seq<Data>, s: State, t: Tid, ticks: int, s': State)
    requires DataInv(init, s) && Next(s, Request(t, ticks), s') && s.pcs[t].op.Read?
    requires FindSlot(s.cache, s.pcs[t].op.sector, 0).Some?
    ensures CachePart(s') && LatePart(s')
    ensures View(s') == View(s) && View(s)[s.pcs[t].op.sector] == s'.pcs[t].buf
  {
    var i := FindSlot(s.cache, s.pcs[t].op.sector, 0).value;
    assert CachePart(s') && s'.cache[i].valid;
    assert FirstValid(s.cache, 0) == Some(i) == FirstValid(s'.cache, 0);
    forall d | d in s.late ensures IsLate(s', d) { assert IsLate(s, d); }
  }

  lemma HitStep(init: seq<Data>, s: State, t: Tid, ticks: int, s': State)
    requires DataInv(init, s) && Next(s, Request(t, ticks), s') && s.pcs[t].op.Read?
    requires FindSlot(s.cache, s.pcs[t].op.sector, 0).Some?
    ensures DataInv(init, s')
  {
    HitCache(init, s, t, ticks, s');
    HitIds(s, t, ticks, s');
    var e := Event(s.pcs[t].id, t, s.pcs[t].op, s'.pcs[t].buf);
    assert s'.log == s.log + [e];
    LegalSnoc(init, s.log, e);
  }

  lemma HitIds(s: State, t: Tid, ticks: int, s': State)
    requires CachePart(s) && IdPart(s) && Next(s, Request(t, ticks), s') && s.pcs[t].op.Read?
    requires FindSlot(s.cache, s.pcs[t].op.sector, 0).Some?
    ensures IdPart(s')
  {
    var e := Event(s.pcs[t].id, t, s.pcs[t].op, s'.pcs[t].buf);
    assert s'.log == s.log + [e];
    assert Recorded(s, t);
    UniqueAppend(s.log, [e]);
    IdStep(s, t, s');
  }

  lemma MissCache(init: seq<Data>, s: State, t: Tid, ticks: int, s': State)
    requires DataInv(init, s) && Next(s, Request(t, ticks), s') && s.pcs[t].op.Read?
    requires FindSlot(s.cache, s.pcs[t].op.sector, 0).None?
    ensures CachePart(s') && LatePart(s') && View(s') == s.disk
  {
    var v := Victim(s.cache);
    assert CachePart(s');
    assert s'.cache[v].valid;
    assert FirstValid(s'.cache, 0) == Some(v);
  }

  lemma MissIds(init: seq<Data>, s: State, t: Tid, ticks: int, s': State)
    requires DataInv(init, s) && Next(s, Request(t, ticks), s') && s.pcs[t].op.Read?
    requires FindSlot(s.cache, s.pcs[t].op.sector, 0).None?
    ensures IdPart(s')
  {
    var e := Event(s.pcs[t].id, t, s.pcs[t].op, s.disk[s.pcs[t].op.sector]);
    assert s'.log == s.log + s.late + [e];
    assert Recorded(s, t);
    UniqueAppend(s.log, s.late);
    UniqueAppend(s.log + s.late, [e]);
    IdStep(s, t, s');
  }

  lemma MissStep(init: seq<Data>, s: State, t: Tid, ticks: int, s': State)
    requires DataInv(init, s) && Next(s, Request(t, ticks), s') && s.pcs[t].op.Read?
    requires FindSlot(s.cache, s.pcs[t].op.sector, 0).None?
    ensures DataInv(init, s')
  {
    MissCache(init, s, t, ticks, s');
    MissIds(init, s, t, ticks, s');
    var e := Event(s.pcs[t].id, t, s.pcs[t].op, s.disk[s.pcs[t].op.sector]);
    FlushLate(init, s);
    LegalSnoc(init, s.log + s.late, e);
    assert s'.log == s.log + s.late + [e];
  }

  lemma WriteHiddenIds(s: State, t: Tid, ticks: int, s': State)
    requires CachePart(s) && IdPart(s) && Next(s, Request(t, ticks), s') && s.pcs[t].op.Write?
    requires FindSlot(s.cache, s.pcs[t].op.sector, 0).Some?
    ensures IdPart(s')
  {
    var e := Event(s.pcs[t].id, t, s.pcs[t].op, s.pcs[t].op.data);
    assert s'.late == s.late + [e];
    assert Recorded(s, t);
    UniqueAppend(s.late, [e]);
    IdStep(s, t, s');
  }

  lemma WriteHidden(init: seq<Data>, s: State, t: Tid, ticks: int, s': State)
    requires DataInv(init, s) && Next(s, Request(t, ticks), s') && s.pcs[t].op.Write?
    requires FindSlot(s.cache, s.pcs[t].op.sector, 0).Some?
    ensures DataInv(init, s')
  {
    WriteHiddenIds(s, t, ticks, s');
    var e := Event(s.pcs[t].id, t, s.pcs[t].op, s.pcs[t].op.data);
    assert CachePart(s') && s'.cache == s.cache && s'.late == s.late + [e];
    assert View(s') == View(s);
    assert IsLate(s', e);
    forall d | d in s.late ensures IsLate(s', d) { assert IsLate(s, d); }
  }

  lemma WriteVisibleCache(init: seq<Data>, s: State, t: Tid, ticks: int, s': State)
    requires DataInv(init, s) && Next(s, Request(t, ticks), s') && s.pcs[t].op.Write?
    requires FindSlot(s.cache, s.pcs[t].op.sector, 0).None?
    ensures CachePart(s') && LatePart(s')
    ensures View(s') == View(s)[s.pcs[t].op.sector := s.pcs[t].op.data]
  {
    var op := s.pcs[t].op;
    assert CachePart(s') && s'.cache == s.cache;
    assert View(s') == View(s)[op.sector := op.data];
    assert Recorded(s, t);
    forall d | d in s.late ensures IsLate(s', d) { assert IsLate(s, d); }
    if s.late != [] {
      var d := s.late[|s.late| - 1];
      assert IsLate(s, d);
      assert s'.disk == View(s')[d.op.sector := d.data];
    }
  }

  lemma WriteVisible(init: seq<Data>, s: State, t: Tid, ticks: int, s': State)
    requires DataInv(init, s) && Next(s, Request(t, ticks), s') && s.pcs[t].op.Write?
    requires FindSlot(s.cache, s.pcs[t].op.sector, 0).None?
    ensures DataInv(init, s')
  {
    WriteVisibleCache(init, s, t, ticks, s');
    var e := Event(s.pcs[t].id, t, s.pcs[t].op, s.pcs[t].op.data);
    assert s'.log == s.log + [e];
    assert Recorded(s, t);
    LegalSnoc(init, s.log, e);
    UniqueAppend(s.log, [e]);
    IdStep(s, t, s');
  }

  lemma DropHidden(init: seq<Data>, s: State, t: Tid, s': State)
    requires DataInv(init, s) && Next(s, DropCached(t), s')
    requires FindSlot(s.cache, s.pcs[t].op.sector, 0).Some?
    ensures DataInv(init, s')
  {
    assert CachePart(s');
    assert FirstValid(s'.cache, 0) == None;
    assert View(s') == s.disk;
    FlushLate(init, s);
    UniqueAppend(s.log, s.late);
    IdStep(s, t, s');
  }

  lemma DropOther(init: seq<Data>, s: State, t: Tid, s': State)
    requires DataInv(init, s) && Next(s, DropCached(t), s')
    requires FindSlot(s.cache, s.pcs[t].op.sector, 0).None?
    ensures DataInv(init, s')
  {
    DropOtherLate(s, t, s');
    IdStep(s, t, s');
  }

  lemma DropOtherLate(s: State, t: Tid, s': State)
    requires CachePart(s) && LatePart(s) && IdPart(s) && Next(s, DropCached(t), s')
    requires FindSlot(s.cache, s.pcs[t].op.sector, 0).None?
    ensures CachePart(s') && LatePart(s') && View(s') == View(s)
  {
    assert FirstValid(s'.cache, 0) == FirstValid(s.cache, 0);
    forall d | d in s.late ensures IsLate(s', d) {
      assert IsLate(s, d);
      assert d.op.sector != s.pcs[t].op.sector;
    }
  }

  lemma InvokeStep(init: seq<Data>, s: State, t: Tid, op: Op, s': State)
    requires DataInv(init, s) && Next(s, Invoke(t, op), s')
    ensures DataInv(init, s')
  {
    assert CachePart(s') && View(s') == View(s);
    forall d | d in s.late ensures IsLate(s', d) { assert IsLate(s, d); }
    forall u | u in s'.pcs ensures Recorded(s', u) { assert Recorded(s, u); }
  }

  // The remaining steps leave cache, disk and histories alone.
  lemma QuietStep(init: seq<Data>, s: State, step: Step, s': State)
    requires DataInv(init, s) && Next(s, step, s')
    requires step.TryLock? || step.TryWait? || step.Unlock?
    ensures DataInv(init, s')
  {
    QuietLate(s, step, s');
    QuietIds(s, step, s');
  }

  lemma QuietIds(s: State, step: Step, s': State)
    requires CachePart(s) && IdPart(s) && Next(s, step, s')
    requires step.TryLock? || step.TryWait? || step.Unlock?
    ensures IdPart(s')
  {
    assert Recorded(s, step.t);
    IdStep(s, step.t, s');
  }

  lemma QuietLate(s: State, step: Step, s': State)
    requires CachePart(s) && LatePart(s) && Next(s, step, s')
    requires step.TryLock? || step.TryWait? || step.Unlock?
    ensures CachePart(s') && LatePart(s') && View(s') == View(s)
  {
    assert CachePart(s') && View(s') == View(s);
    forall d | d in s.late ensures IsLate(s', d) { assert IsLate(s, d); }
  }

  lemma InterruptStep(init: seq<Data>, s: State, s': State)
    requires DataInv(init, s) && Next(s, Interrupt, s')
    ensures DataInv(init, s')
  {
    assert CachePart(s') && View(s') == View(s);
    forall d | d in s.late ensures IsLate(s', d) { assert IsLate(s, d); }
    forall u | u in s'.pcs ensures Recorded(s', u) { assert Recorded(s, u); }
  }

  lemma NextKeepsInv(init: seq<Data>, s: State, step: Step, s': State)
    requires Inv(init, s) && Next(s, step, s')
    ensures Inv(init, s')
  {
    LockPartStep(s, step, s');
    match step
    case Invoke(t, op) => InvokeStep(init, s, t, op, s');
    case Request(t, ticks) =>
      var hidden := FindSlot(s.cache, s.pcs[t].op.sector, 0).Some?;
      if s.pcs[t].op.Read? {
        if hidden { HitStep(init, s, t, ticks, s'); } else { MissStep(init, s, t, ticks, s'); }
      } else {
        if hidden { WriteHidden(init, s, t, ticks, s'); } else { WriteVisible(init, s, t, ticks, s'); }
      }
    case DropCached(t) =>
      if FindSlot(s.cache, s.pcs[t].op.sector, 0).Some? {
        DropHidden(init, s, t, s');
      } else {
        DropOther(init, s, t, s');
      }
    case Interrupt => InterruptStep(init, s, s');
    case _ => QuietStep(init, s, step, s');
  }

  // ---------------------------------------------------------------------------
  // Whole runs

  ghost predicate Run(init: seq<Data>, states: seq<State>, steps: seq<Step>) {
    && |states| == |steps| + 1
    && Init(init, states[0])
    && forall i | 0 <= i < |steps| ::
         |states[i].disk| == NUM_SECTORS && |states[i].cache| == CACHE_SIZE && Next(states[i], steps[i], states[i + 1])
  }

  lemma {:induction false} RunInv(init: seq<Data>, states: seq<State>, steps: seq<Step>, i: nat)
    requires Run(init, states, steps) && i < |states|
    ensures Inv(init, states[i])
  {
    if i == 0 {
      assert FirstValid(states[0].cache, 0) == None;
      forall t | t in states[0].pcs ensures Recorded(states[0], t) { }
    } else {
      RunInv(init, states, steps, i - 1);
      NextKeepsInv(init, states[i - 1], steps[i - 1], states[i]);
    }
  }

  lemma {:induction false} LogGrows(init: seq<Data>, states: seq<State>, steps: seq<Step>, i: nat, j: nat)
    requires Run(init, states, steps) && i <= j < |states|
    ensures states[i].log <= states[j].log && states[i].nextId <= states[j].nextId
    decreases j
  {
    if i < j {
      LogGrows(init, states, steps, i, j - 1);
      assert Next(states[j - 1], steps[j - 1], states[j]);
    }
  }

  // The operation that returns at a step took effect before it returned, with the data it
  // returns.
  lemma ReturnIsLogged(init: seq<Data>, s: State, step: Step, s': State, id: nat)
    requires Inv(init, s) && Next(s, step, s') && Returns(s, step, id)
    ensures ReturnEvent(s, step, id) in s'.log
  {
    assert Recorded(s, step.t);
    if step.DropCached? && FindSlot(s.cache, s.pcs[step.t].op.sector, 0).None? {
      forall e | e in s.late ensures e.op.sector != s.pcs[step.t].op.sector {
        assert IsLate(s, e);
      }
    }
  }

  // Operation `id` of thread t was invoked, as op, in one of the first n steps.
  ghost predicate Invoked(states: seq<State>, steps: seq<Step>, n: nat, id: nat, t: Tid, op: Op) {
    exists j :: 0 <= j < n && j < |steps| && j < |states| && steps[j] == Invoke(t, op) && states[j].nextId == id
  }

  ghost predicate Genuine(states: seq<State>, steps: seq<Step>, n: nat, e: Event) {
    Invoked(states, steps, n, e.id, e.tid, e.op) && (e.op.Write? ==> e.data == e.op.data)
  }

  ghost predicate AllGenuine(states: seq<State>, steps: seq<Step>, n: nat)
    requires n < |states|
  {
    && (forall e | e in states[n].log :: Genuine(states, steps, n, e))
    && (forall e | e in states[n].late :: Genuine(states, steps, n, e))
    && (forall t | t in states[n].pcs && states[n].pcs[t] != Idle ::
          Invoked(states, steps, n, states[n].pcs[t].id, t, states[n].pcs[t].op))
  }

  // What a step adds to the histories is the operation of the thread that takes it.
  lemma NewEvents(s: State, step: Step, s': State, e: Event)
    requires |s.disk| == NUM_SECTORS && |s.cache| == CACHE_SIZE && Next(s, step, s')
    requires e in s'.log || e in s'.late
    ensures e in s.log || e in s.late ||
      (step.Request? && s.pcs[step.t] != Idle && e.id == s.pcs[step.t].id && e.tid == step.t
       && e.op == s.pcs[step.t].op && (e.op.Write? ==> e.data == e.op.data))
  {
  }

  // A thread goes on with its operation or begins one.
  lemma SameOperation(s: State, step: Step, s': State, t: Tid)
    requires |s.disk| == NUM_SECTORS && |s.cache| == CACHE_SIZE && Next(s, step, s')
    requires t in s'.pcs && s'.pcs[t] != Idle
    ensures t in s.pcs
    ensures (step == Invoke(t, s'.pcs[t].op) && s'.pcs[t].id == s.nextId)
      || (s.pcs[t] != Idle && s.pcs[t].id == s'.pcs[t].id && s.pcs[t].op == s'.pcs[t].op)
  {
  }

  lemma {:induction false} EventsGenuine(init: seq<Data>, states: seq<State>, steps: seq<Step>, n: nat)
    requires Run(init, states, steps) && n < |states|
    ensures AllGenuine(states, steps, n)
  {
    if n > 0 {
      EventsGenuine(init, states, steps, n - 1);
      var s, step, s' := states[n - 1], steps[n - 1], states[n];
      forall e | e in s'.log || e in s'.late ensures Genuine(states, steps, n, e) {
        NewEvents(s, step, s', e);
        InvokedLater(states, steps, n - 1, e.id, e.tid, e.op);
      }
      forall t | t in s'.pcs && s'.pcs[t] != Idle ensures Invoked(states, steps, n, s'.pcs[t].id, t, s'.pcs[t].op) {
        SameOperation(s, step, s', t);
        InvokedLater(states, steps, n - 1, s'.pcs[t].id, t, s'.pcs[t].op);
      }
    }
  }

  lemma InvokedLater(states: seq<State>, steps: seq<Step>, n: nat, id: nat, t: Tid, op: Op)
    ensures Invoked(states, steps, n, id, t, op) ==> Invoked(states, steps, n + 1, id, t, op)
  {
  }

  /** Linearizability.  For every run there is one legal order of the operations, `log`, in
      which every read returns the last value written to its sector.  Every event of it is an
      operation that was invoked, a write with the data it was invoked with; an operation is
      placed in it at most once, is in it when it returns, with the data it returns, and was
      not in it when it was invoked. */
  lemma Linearizable(init: seq<Data>, states: seq<State>, steps: seq<Step>, i: nat, id: nat)
    requires Run(init, states, steps) && i < |steps|
    ensures var log := states[|steps|].log;
      && InRange(log) && Legal(init, log) && UniqueIds(log)
      && (Returns(states[i], steps[i], id) ==>
            |states[i + 1].log| <= |log| && ReturnEvent(states[i], steps[i], id) in log[..|states[i + 1].log|])
      && (steps[i].Invoke? && id == states[i].nextId ==>
            forall k | 0 <= k < |states[i].log| :: |states[i].log| <= |log| && log[k].id != id)
    ensures forall e | e in states[|steps|].log ::
      && Invoked(states, steps, |steps|, e.id, e.tid, e.op)
      && (e.op.Write? ==> e.data == e.op.data)
  {
    RunInv(init, states, steps, |steps|);
    RunInv(init, states, steps, i);
    LogGrows(init, states, steps, i, |steps|);
    LogGrows(init, states, steps, i + 1, |steps|);
    EventsGenuine(init, states, steps, |steps|);
    var log := states[|steps|].log;
    if Returns(states[i], steps[i], id) {
      ReturnIsLogged(init, states[i], steps[i], states[i + 1], id);
    }
    forall k | 0 <= k < |states[i].log| ensures log[k].id < states[i].nextId {
      assert log[k] == states[i].log[k];
    }
    assert forall e | e in log :: Genuine(states, steps, |steps|, e);
  }

  /** The order respects real time: an operation that returned before another one was invoked
      comes before it. */
  lemma RealTimeOrder(init: seq<Data>, states: seq<State>, steps: seq<Step>, i: nat, j: nat, a: nat, b: nat, k: nat, l: nat)
    requires Run(init, states, steps) && i < j < |steps|
    requires Returns(states[i], steps[i], a) && steps[j].Invoke? && states[j].nextId == b
    requires k < |states[|steps|].log| && states[|steps|].log[k].id == a
    requires l < |states[|steps|].log| && states[|steps|].log[l].id == b
    ensures k < l
  {
    Linearizable(init, states, steps, i, a);
    Linearizable(init, states, steps, j, b);
    LogGrows(init, states, steps, i + 1, j);
  }

  /** A valid cache slot differs from the disk only while some writer of its sector is between
      its disk write and its invalidation; and at most one slot is valid. */
  lemma StaleOnlyWhileWriting(init: seq<Data>, states: seq<State>, steps: seq<Step>, i: nat, c: nat)
    requires Run(init, states, steps) && i < |states|
    requires c < |states[i].cache| && states[i].cache[c].valid
    ensures var s := states[i];
      && s.cache[c].sector < |s.disk|
      && (forall d | 0 <= d < |s.cache| && s.cache[d].valid :: d == c)
      && (s.cache[c].data != s.disk[s.cache[c].sector] ==>
            exists t :: t in s.pcs && PastDisk(s.pcs[t]) && s.pcs[t].op.sector == s.cache[c].sector)
  {
    RunInv(init, states, steps, i);
    var s := states[i];
    assert FirstValid(s.cache, 0) == Some(c);
    if s.late != [] {
      var e := s.late[|s.late| - 1];
      assert IsLate(s, e);
      assert PastDisk(s.pcs[e.tid]);
    }
  }

  /** Whenever the lock is free the completion semaphore is 0 and the disk inactive; so a
      request always finds the disk inactive, and the P of a request succeeds only on the V
      that belongs to that request. */
  lemma OneRequestAtATime(init: seq<Data>, states: seq<State>, steps: seq<Step>, i: nat)
    requires Run(init, states, steps) && i < |steps|
    ensures states[i].lock.owner == None ==> Quiet(states[i])
    ensures steps[i].Request? ==> !states[i].active && states[i].sem.value == 0
    ensures steps[i].TryWait? && states[i + 1].pcs[steps[i].t].Releasing? ==>
      states[i].doneFor == Some(states[i].pcs[steps[i].t].id)
  {
    RunInv(init, states, steps, i);
    assert Next(states[i], steps[i], states[i + 1]);
    if steps[i].Request? {
      assert Holds(states[i].pcs[steps[i].t]);
    } else if steps[i].TryWait? {
      LockPartTryWait(states[i], steps[i].t, states[i + 1]);
    }
  }

  // A step that is not a failed retry.
  ghost predicate Effective(s: State, step: Step)
    requires |s.disk| == NUM_SECTORS && |s.cache| == CACHE_SIZE
  {
    && !step.Invoke? && (exists s' :: Next(s, step, s'))
    && (step.TryLock? ==> s.lock.sem.value > 0)
    && (step.TryWait? ==> s.sem.value > 0)
  }

  /** While an operation is under way, some thread or the disk interrupt can make progress. */
  lemma NeverStuck(init: seq<Data>, s: State, t: Tid) returns (step: Step)
    requires Inv(init, s) && t in s.pcs && s.pcs[t] != Idle
    ensures Effective(s, step)
  {
    var s';
    if s.lock.owner.Some? {
      var h := s.lock.owner.value;
      if s.pcs[h].Locked? {
        step := Request(h, 0);
        s' := match s.pcs[h].op
          case Read(x) => ReadRequest(s, h, x, s.pcs[h].id, 0)
          case Write(x, d) => WriteRequest(s, h, x, d, s.pcs[h].id);
      } else if s.pcs[h].Releasing? {
        var pc := s.pcs[h];
        step := Unlock(h);
        s' := s.(lock := Release(s.lock), pcs := s.pcs[h := if pc.op.Read? then Idle else Invalidating(pc.op, pc.id)]);
      } else if s.pending.Some? {
        step := Interrupt;
        s' := s.(active := false, pending := None, sem := V(s.sem), doneFor := s.pending);
      } else {
        var u := h;
        if h in s.sem.queue {
          u := AvailableHasWoken(s.sem);
        }
        step := TryWait(u);
        var pc := s.pcs[u];
        s' := s.(sem := TryP(s.sem, u).0, doneFor := None, pcs := s.pcs[u := Releasing(pc.op, pc.id, pc.buf)]);
      }
    } else if s.pcs[t].Invalidating? {
      var x := s.pcs[t].op.sector;
      var hidden := FindSlot(s.cache, x, 0).Some?;
      step := DropCached(t);
      s' := s.(cache := Invalidate(s.cache, x), pcs := s.pcs[t := Idle],
               log := if hidden then s.log + s.late else s.log,
               late := if hidden then [] else s.late);
    } else {
      var u := t;
      if t in s.lock.sem.queue {
        u := AvailableHasWoken(s.lock.sem);
      }
      step := TryLock(u);
      s' := s.(lock := TryAcquire(s.lock, u).0, pcs := s.pcs[u := Locked(s.pcs[u].op, s.pcs[u].id)]);
    }
    assert Next(s, step, s');
  }
}
