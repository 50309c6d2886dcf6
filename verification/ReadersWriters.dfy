/** The readers/writers protocol around OpenFile::Read and OpenFile::Write
    (filesys/synchdisk.cc ReaderIn, ReaderOut, WriteBegin, WriteDone; filesys/openfile.cc).

    Every header sector has a counter and a semaphore, but one readerLock guards all the
    counters: the first reader of a sector waits for the sector's semaphore while it holds
    that lock.  Threads call the four routines in balanced, un-nested pairs.  A thread can be
    preempted between any two steps. */
module ReadersWriters {
  import opened Basics
  import opened Semaphores

  datatype Pc =
    | Idle
    | InAcquire(x: nat)    // ReaderIn: readerLock->Acquire()
    | InCount(x: nat)      //   about to count itself
    | InWait(x: nat)       //   first reader, in mutex[x]->P()
    | InRelease(x: nat)    //   readerLock->Release()
    | Reading(x: nat)
    | OutAcquire(x: nat)   // ReaderOut: readerLock->Acquire()
    | OutCount(x: nat)
    | OutSignal(x: nat)    //   last reader, mutex[x]->V()
    | OutRelease(x: nat)
    | WriteWait(x: nat)    // WriteBegin: mutex[x]->P()
    | Writing(x: nat)

  // Who the unit of a sector's semaphore is with; a history variable.
  datatype Holder = Free | Readers | Writer(t: Tid)

  datatype State = State(
    readerLock: Lock,
    mutex: seq<Sem>,
    readerNum: seq<int>,
    holder: seq<Holder>,
    pcs: map<Tid, Pc>)

  datatype Step =
    | StartRead(t: Tid, x: nat) | StartWrite(t: Tid, x: nat)
    | TryLock(t: Tid) | Count(t: Tid) | TryMutex(t: Tid) | Unlock(t: Tid)
    | EndRead(t: Tid) | Uncount(t: Tid) | Signal(t: Tid) | EndWrite(t: Tid)

  ghost predicate Init(s: State) {
    && s.readerLock == NewLock()
    && |s.mutex| == |s.readerNum| == |s.holder|
    && (forall x | 0 <= x < |s.mutex| :: s.mutex[x] == NewSem(1) && s.readerNum[x] == 0 && s.holder[x] == Free)
    && (forall t | t in s.pcs :: s.pcs[t] == Idle)
  }

  predicate Shape(s: State) {
    && |s.mutex| == |s.readerNum| == |s.holder|
    && (forall t | t in s.pcs && s.pcs[t] != Idle :: s.pcs[t].x < |s.mutex|)
  }

  ghost predicate Next(s: State, step: Step, s': State)
    requires Shape(s)
  {
    && step.t in s.pcs
    && var t := step.t;
       var pc := s.pcs[t];
       match step
       case StartRead(_, x) =>
         pc == Idle && x < |s.mutex| && s' == s.(pcs := s.pcs[t := InAcquire(x)])
       case StartWrite(_, x) =>
         pc == Idle && x < |s.mutex| && s' == s.(pcs := s.pcs[t := WriteWait(x)])
       case TryLock(_) =>
         && (pc.InAcquire? || pc.OutAcquire?) && t !in s.readerLock.sem.queue
         && var (lock, ok) := TryAcquire(s.readerLock, t);
            s' == s.(readerLock := lock,
                     pcs := if !ok then s.pcs
                            else s.pcs[t := if pc.InAcquire? then InCount(pc.x) else OutCount(pc.x)])
       case Count(_) =>
         && pc.InCount?
         && var n := s.readerNum[pc.x] + 1;
            s' == s.(readerNum := s.readerNum[pc.x := n],
                     pcs := s.pcs[t := if n == 1 then InWait(pc.x) else InRelease(pc.x)])
       case TryMutex(_) =>
         && (pc.InWait? || pc.WriteWait?) && t !in s.mutex[pc.x].queue
         && var (m, ok) := TryP(s.mutex[pc.x], t);
            s' == if !ok then s.(mutex := s.mutex[pc.x := m])
                  else s.(mutex := s.mutex[pc.x := m],
                          holder := s.holder[pc.x := if pc.InWait? then Readers else Writer(t)],
                          pcs := s.pcs[t := if pc.InWait? then InRelease(pc.x) else Writing(pc.x)])
       case Unlock(_) =>
         && (pc.InRelease? || pc.OutRelease?)
         && s' == s.(readerLock := Release(s.readerLock),
                     pcs := s.pcs[t := if pc.InRelease? then Reading(pc.x) else Idle])
       case EndRead(_) =>
         pc.Reading? && s' == s.(pcs := s.pcs[t := OutAcquire(pc.x)])
       case Uncount(_) =>
         && pc.OutCount?
         && var n := s.readerNum[pc.x] - 1;
            s' == s.(readerNum := s.readerNum[pc.x := n],
                     pcs := s.pcs[t := if n == 0 then OutSignal(pc.x) else OutRelease(pc.x)])
       case Signal(_) =>
         && pc.OutSignal?
         && s' == s.(mutex := s.mutex[pc.x := V(s.mutex[pc.x])], holder := s.holder[pc.x := Free],
                     pcs := s.pcs[t := OutRelease(pc.x)])
       case EndWrite(_) =>
         && pc.Writing?
         && s' == s.(mutex := s.mutex[pc.x := V(s.mutex[pc.x])], holder := s.holder[pc.x := Free],
                     pcs := s.pcs[t := Idle])
  }

  // ---------------------------------------------------------------------------
  // Invariant

  predicate HoldsLock(pc: Pc) {
    pc.InCount? || pc.InWait? || pc.InRelease? || pc.OutCount? || pc.OutSignal? || pc.OutRelease?
  }

  predicate Counted(pc: Pc, x: nat) {
    pc == InWait(x) || pc == InRelease(x) || pc == Reading(x) || pc == OutAcquire(x) || pc == OutCount(x)
  }

  // Threads for which the readers' unit of sector x must be taken.
  predicate Inside(pc: Pc, x: nat) {
    pc == InRelease(x) || pc == Reading(x) || pc == OutAcquire(x) || pc == OutCount(x) || pc == OutSignal(x)
  }

  ghost function CountedSet(s: State, x: nat): set<Tid> {
    set t | t in s.pcs && Counted(s.pcs[t], x)
  }

  ghost predicate LockPart(s: State) {
    && LockInv(s.readerLock)
    && (forall t | t in s.pcs :: HoldsLock(s.pcs[t]) <==> s.readerLock.owner == Some(t))
    && (s.readerLock.owner.Some? ==> s.readerLock.owner.value in s.pcs)
    && (forall t | t in s.readerLock.sem.queue || t in s.readerLock.sem.woken ::
          t in s.pcs && (s.pcs[t].InAcquire? || s.pcs[t].OutAcquire?))
  }

  ghost predicate SemPart(s: State, x: nat)
    requires Shape(s) && x < |s.mutex|
  {
    && SemInv(s.mutex[x])
    && s.mutex[x].value == (if s.holder[x] == Free then 1 else 0)
    && (forall t | t in s.mutex[x].queue || t in s.mutex[x].woken ::
          t in s.pcs && (s.pcs[t] == InWait(x) || s.pcs[t] == WriteWait(x)))
  }

  // What thread t's place says about the holder and the counter of sector x.
  ghost predicate PcOk(pc: Pc, t: Tid, holder: Holder, readerNum: int, x: nat) {
    && (pc == Writing(x) <==> holder == Writer(t))
    && (Inside(pc, x) ==> holder == Readers)
    && (pc == InWait(x) ==> holder != Readers && readerNum == 1)
    && (pc == OutSignal(x) ==> readerNum == 0)
  }

  ghost predicate HolderPart(s: State, x: nat)
    requires Shape(s) && x < |s.mutex|
  {
    && s.readerNum[x] == |CountedSet(s, x)|
    && (forall t | t in s.pcs :: PcOk(s.pcs[t], t, s.holder[x], s.readerNum[x], x))
    && (s.holder[x].Writer? ==> s.holder[x].t in s.pcs)
    && (s.holder[x] == Readers && s.readerNum[x] == 0 ==>
          s.readerLock.owner.Some? && s.readerLock.owner.value in s.pcs
          && s.pcs[s.readerLock.owner.value] == OutSignal(x))
  }

  ghost predicate SectorPart(s: State, x: nat)
    requires Shape(s) && x < |s.mutex|
  {
    SemPart(s, x) && HolderPart(s, x)
  }

  ghost predicate Inv(s: State) {
    && Shape(s) && LockPart(s)
    && forall x: nat | x < |s.mutex| :: SectorPart(s, x)
  }

  lemma LockFrame(s: State, t: Tid, s': State)
    requires LockPart(s) && t in s.pcs && t in s'.pcs && s'.pcs == s.pcs[t := s'.pcs[t]]
    requires s'.readerLock == s.readerLock && HoldsLock(s'.pcs[t]) == HoldsLock(s.pcs[t])
    requires !s.pcs[t].InAcquire? && !s.pcs[t].OutAcquire?
    ensures LockPart(s')
  {
  }

  lemma LockTry(s: State, t: Tid, s': State)
    requires Shape(s) && LockPart(s) && Next(s, TryLock(t), s')
    ensures LockPart(s')
  {
    TryAcquireKeepsInv(s.readerLock, t);
  }

  lemma LockRelease(s: State, t: Tid, s': State)
    requires Shape(s) && LockPart(s) && Next(s, Unlock(t), s')
    ensures LockPart(s')
  {
    assert HoldsLock(s.pcs[t]);
    ReleaseKeepsInv(s.readerLock);
    VKeepsInv(s.readerLock.sem);
  }

  lemma LockPartStep(s: State, step: Step, s': State)
    requires Shape(s) && LockPart(s) && Next(s, step, s')
    ensures Shape(s') && LockPart(s')
  {
    match step
    case TryLock(t) => LockTry(s, t, s');
    case Unlock(t) => LockRelease(s, t, s');
    case _ => LockFrame(s, step.t, s');
  }

  // How a step of thread t moves it in or out of the counted readers of sector x.
  lemma CountedStep(s: State, t: Tid, s': State, x: nat)
    requires t in s.pcs && t in s'.pcs && s'.pcs == s.pcs[t := s'.pcs[t]]
    ensures |CountedSet(s', x)| == |CountedSet(s, x)|
      + (if Counted(s'.pcs[t], x) then 1 else 0) - (if Counted(s.pcs[t], x) then 1 else 0)
  {
    var a, b := CountedSet(s, x), CountedSet(s', x);
    assert forall u :: u != t ==> (u in b <==> u in a);
    CountOne(a, b, t);
  }

  // For sector x it makes no difference whether a thread is at pc or at pc'.
  predicate Neutral(pc: Pc, pc': Pc, x: nat) {
    && Counted(pc, x) == Counted(pc', x) && Inside(pc, x) == Inside(pc', x)
    && pc !in {InWait(x), OutSignal(x), Writing(x), WriteWait(x)}
    && pc' !in {InWait(x), OutSignal(x), Writing(x)}
  }

  lemma SemFrame(s: State, t: Tid, s': State, x: nat)
    requires Shape(s) && Shape(s') && x < |s.mutex| == |s'.mutex| && SemPart(s, x)
    requires t in s.pcs && t in s'.pcs && s'.pcs == s.pcs[t := s'.pcs[t]] && Neutral(s.pcs[t], s'.pcs[t], x)
    requires s.mutex[x] == s'.mutex[x] && s.holder[x] == s'.holder[x]
    ensures SemPart(s', x)
  {
  }

  lemma SectorFrame(s: State, t: Tid, s': State, x: nat)
    requires Shape(s) && Shape(s') && x < |s.mutex| == |s'.mutex| && SectorPart(s, x)
    requires t in s.pcs && t in s'.pcs && s'.pcs == s.pcs[t := s'.pcs[t]] && Neutral(s.pcs[t], s'.pcs[t], x)
    requires s.mutex[x] == s'.mutex[x] && s.readerNum[x] == s'.readerNum[x] && s.holder[x] == s'.holder[x]
    requires s.readerLock.owner.Some? && s.readerLock.owner != Some(t) ==> s'.readerLock.owner == s.readerLock.owner
    ensures SectorPart(s', x)
  {
    SemFrame(s, t, s', x);
    CountedStep(s, t, s', x);
  }

  lemma CountStep(s: State, step: Step, s': State)
    requires Shape(s) && LockPart(s) && Next(s, step, s') && Shape(s') && step.Count?
    requires SectorPart(s, s.pcs[step.t].x)
    ensures SectorPart(s', s.pcs[step.t].x)
  {
    var t, x := step.t, s.pcs[step.t].x;
    assert HoldsLock(s.pcs[t]);
    assert SemPart(s', x);
    CountedStep(s, t, s', x);
    if s.readerNum[x] > 0 {
      var u :| u in CountedSet(s, x);
      assert !s.pcs[u].InWait? by { assert HoldsLock(InWait(x)); }
      assert Inside(s.pcs[u], x);
    }
  }

  lemma UncountStep(s: State, step: Step, s': State)
    requires Shape(s) && LockPart(s) && Next(s, step, s') && Shape(s') && LockPart(s') && step.Uncount?
    requires SectorPart(s, s.pcs[step.t].x)
    ensures SectorPart(s', s.pcs[step.t].x)
  {
    var t, x := step.t, s.pcs[step.t].x;
    assert Inside(s.pcs[t], x) && HoldsLock(s.pcs[t]);
    CountedStep(s, t, s', x);
    assert t in CountedSet(s, x);
    assert s'.readerNum[x] >= 0;
  }

  lemma MutexHolder(s: State, t: Tid, s': State, x: nat)
    requires Shape(s) && Next(s, TryMutex(t), s') && Shape(s') && x == s.pcs[t].x && SectorPart(s, x)
    ensures HolderPart(s', x)
  {
    CountedStep(s, t, s', x);
    assert PcOk(s.pcs[t], t, s.holder[x], s.readerNum[x], x);
    forall u | u in s'.pcs
      ensures PcOk(s'.pcs[u], u, s'.holder[x], s'.readerNum[x], x)
    {
      assert PcOk(s.pcs[u], u, s.holder[x], s.readerNum[x], x);
      if s.pcs[t].InWait? && u != t && Counted(s.pcs[u], x) {
        OneMember(CountedSet(s, x), t, u);
      }
    }
  }

  lemma OneMember(a: set<Tid>, t: Tid, u: Tid)
    requires t in a && u in a && |a| == 1
    ensures t == u
  {
    assert |a - {t}| == 0;
    assert u !in a - {t};
  }

  lemma MutexStep(s: State, t: Tid, s': State, x: nat)
    requires Shape(s) && Next(s, TryMutex(t), s') && Shape(s') && x == s.pcs[t].x && SectorPart(s, x)
    ensures SectorPart(s', x)
  {
    TryPKeepsInv(s.mutex[x], t);
    MutexHolder(s, t, s', x);
    assert SemPart(s', x);
  }

  // The unit of sector x is given back by thread t.
  lemma FreeSem(s: State, t: Tid, s': State, x: nat)
    requires Shape(s) && Shape(s') && x < |s.mutex| && SemPart(s, x) && s.holder[x] != Free
    requires t in s.pcs && t in s'.pcs && s'.pcs == s.pcs[t := s'.pcs[t]] && s.pcs[t] !in {InWait(x), WriteWait(x)}
    requires |s'.mutex| == |s.mutex| && s'.mutex[x] == V(s.mutex[x]) && s'.holder[x] == Free
    ensures SemPart(s', x)
  {
    VKeepsInv(s.mutex[x]);
  }

  lemma FreeHolder(s: State, t: Tid, s': State, x: nat)
    requires Shape(s) && Shape(s') && x < |s.mutex| && HolderPart(s, x)
    requires t in s.pcs && t in s'.pcs && s'.pcs == s.pcs[t := s'.pcs[t]]
    requires s'.pcs[t] in {Idle, OutRelease(x)} && !Counted(s.pcs[t], x)
    requires |s'.mutex| == |s.mutex| && s'.readerNum[x] == s.readerNum[x] && s'.holder[x] == Free
    requires forall u | u in s.pcs && u != t :: !Inside(s.pcs[u], x) && s.pcs[u] != Writing(x)
    ensures HolderPart(s', x)
  {
    CountedStep(s, t, s', x);
    forall u | u in s'.pcs
      ensures PcOk(s'.pcs[u], u, s'.holder[x], s'.readerNum[x], x)
    {
      assert PcOk(s.pcs[u], u, s.holder[x], s.readerNum[x], x);
    }
  }

  lemma SignalStep(s: State, t: Tid, s': State, x: nat)
    requires Shape(s) && Next(s, Signal(t), s') && Shape(s') && x == s.pcs[t].x && SectorPart(s, x)
    requires forall u | u in s.pcs && s.pcs[u].OutSignal? :: u == t
    ensures SectorPart(s', x)
  {
    assert Inside(s.pcs[t], x);
    FreeSem(s, t, s', x);
    assert CountedSet(s, x) == {};
    assert forall u | u in s.pcs && Counted(s.pcs[u], x) :: u in CountedSet(s, x);
    FreeHolder(s, t, s', x);
  }

  lemma EndWriteStep(s: State, t: Tid, s': State, x: nat)
    requires Shape(s) && Next(s, EndWrite(t), s') && Shape(s') && x == s.pcs[t].x && SectorPart(s, x)
    ensures SectorPart(s', x)
  {
    FreeSem(s, t, s', x);
    FreeHolder(s, t, s', x);
  }

  lemma OwnSector(s: State, step: Step, s': State)
    requires Inv(s) && Next(s, step, s') && Shape(s') && LockPart(s')
    requires step.Count? || step.Uncount? || step.TryMutex? || step.Signal? || step.EndWrite?
    ensures SectorPart(s', s.pcs[step.t].x)
  {
    var t, x := step.t, s.pcs[step.t].x;
    assert SectorPart(s, x);
    match step
    case Count(_) => CountStep(s, step, s');
    case Uncount(_) => UncountStep(s, step, s');
    case TryMutex(_) => MutexStep(s, t, s', x);
    case Signal(_) =>
      assert forall u | u in s.pcs && s.pcs[u].OutSignal? :: HoldsLock(s.pcs[u]);
      SignalStep(s, t, s', x);
    case EndWrite(_) => EndWriteStep(s, t, s', x);
  }

  // What a step does to a sector whose data it leaves alone.
  lemma NeutralStep(s: State, step: Step, s': State, x: nat)
    requires Shape(s) && Next(s, step, s') && x < |s.mutex|
    requires step.Count? || step.Uncount? || step.TryMutex? || step.Signal? || step.EndWrite? ==> x != s.pcs[step.t].x
    ensures step.t in s'.pcs && s'.pcs == s.pcs[step.t := s'.pcs[step.t]]
    ensures Neutral(s.pcs[step.t], s'.pcs[step.t], x)
    ensures |s'.mutex| == |s.mutex| && |s'.readerNum| == |s'.holder| == |s.mutex|
    ensures s.mutex[x] == s'.mutex[x] && s.readerNum[x] == s'.readerNum[x] && s.holder[x] == s'.holder[x]
  {
  }

  lemma OtherSector(s: State, step: Step, s': State, x: nat)
    requires Shape(s) && LockPart(s) && Next(s, step, s') && Shape(s') && x < |s.mutex| && SectorPart(s, x)
    requires step.Count? || step.Uncount? || step.TryMutex? || step.Signal? || step.EndWrite? ==> x != s.pcs[step.t].x
    ensures |s'.mutex| == |s.mutex| && SectorPart(s', x)
  {
    NeutralStep(s, step, s', x);
    assert HoldsLock(s.pcs[step.t]) <==> s.readerLock.owner == Some(step.t);
    SectorFrame(s, step.t, s', x);
  }

  lemma NextKeepsInv(s: State, step: Step, s': State)
    requires Inv(s) && Next(s, step, s')
    ensures Inv(s')
  {
    LockPartStep(s, step, s');
    forall x: nat | x < |s'.mutex| ensures SectorPart(s', x) {
      assert |s'.mutex| == |s.mutex| && SectorPart(s, x);
      if (step.Count? || step.Uncount? || step.TryMutex? || step.Signal? || step.EndWrite?) && x == s.pcs[step.t].x {
        OwnSector(s, step, s');
      } else {
        OtherSector(s, step, s', x);
      }
    }
  }

  // ---------------------------------------------------------------------------
  // Whole runs

  ghost predicate Run(states: seq<State>, steps: seq<Step>) {
    && |states| == |steps| + 1
    && Init(states[0])
    && forall i | 0 <= i < |steps| :: Shape(states[i]) && Next(states[i], steps[i], states[i + 1])
  }

  lemma InitInv(s: State)
    requires Init(s)
    ensures Inv(s)
  {
    forall x: nat | x < |s.mutex| ensures SectorPart(s, x) {
      assert CountedSet(s, x) == {};
    }
  }

  lemma {:induction false} RunInv(states: seq<State>, steps: seq<Step>, i: nat)
    requires Run(states, steps) && i < |states|
    ensures Inv(states[i])
  {
    if i == 0 {
      InitInv(states[0]);
    } else {
      RunInv(states, steps, i - 1);
      NextKeepsInv(states[i - 1], steps[i - 1], states[i]);
    }
  }

  /** In every state of every run, for every sector: no two writers, no writer together with a
      reader, and the counter is never negative. */
  lemma ReadersExcludeWriters(states: seq<State>, steps: seq<Step>, i: nat, t: Tid, u: Tid, x: nat)
    requires Run(states, steps) && i < |states|
    requires t in states[i].pcs && u in states[i].pcs && t != u && x < |states[i].mutex|
    ensures !(states[i].pcs[t] == Writing(x) && states[i].pcs[u] == Writing(x))
    ensures !(states[i].pcs[t] == Writing(x) && states[i].pcs[u] == Reading(x))
    ensures |states[i].readerNum| == |states[i].mutex| && states[i].readerNum[x] >= 0
  {
    RunInv(states, steps, i);
    assert SectorPart(states[i], x);
    if states[i].pcs[u] == Reading(x) {
      assert Inside(states[i].pcs[u], x);
    }
  }

  // A step of a thread inside one of the four routines, or ending its access, that is not a
  // failed retry.
  ghost predicate Effective(s: State, step: Step)
    requires Shape(s)
  {
    && !step.StartRead? && !step.StartWrite?
    && (exists s' :: Next(s, step, s'))
    && (step.TryLock? ==> s.readerLock.sem.value > 0)
    && (step.TryMutex? ==> s.mutex[s.pcs[step.t].x].value > 0)
  }

  // A thread that can step without waiting for anyone.
  ghost function FreeStep(s: State, t: Tid): Step
    requires t in s.pcs && s.pcs[t] != Idle
  {
    match s.pcs[t]
    case InCount(_) => Count(t)
    case InRelease(_) => Unlock(t)
    case Reading(_) => EndRead(t)
    case OutCount(_) => Uncount(t)
    case OutSignal(_) => Signal(t)
    case OutRelease(_) => Unlock(t)
    case Writing(_) => EndWrite(t)
    case InWait(_) => TryMutex(t)
    case WriteWait(_) => TryMutex(t)
    case _ => TryLock(t)
  }

  lemma FreeStepEffective(s: State, t: Tid)
    requires Shape(s) && t in s.pcs && s.pcs[t] != Idle
    requires s.pcs[t].InAcquire? || s.pcs[t].OutAcquire? ==> t !in s.readerLock.sem.queue && s.readerLock.sem.value > 0
    requires s.pcs[t].InWait? || s.pcs[t].WriteWait? ==>
      t !in s.mutex[s.pcs[t].x].queue && s.mutex[s.pcs[t].x].value > 0
    ensures Effective(s, FreeStep(s, t))
  {
    var pc := s.pcs[t];
    var s' :=
      match pc
      case InCount(x) =>
        var n := s.readerNum[x] + 1;
        s.(readerNum := s.readerNum[x := n], pcs := s.pcs[t := if n == 1 then InWait(x) else InRelease(x)])
      case InRelease(x) => s.(readerLock := Release(s.readerLock), pcs := s.pcs[t := Reading(x)])
      case OutRelease(x) => s.(readerLock := Release(s.readerLock), pcs := s.pcs[t := Idle])
      case Reading(x) => s.(pcs := s.pcs[t := OutAcquire(x)])
      case OutCount(x) =>
        var n := s.readerNum[x] - 1;
        s.(readerNum := s.readerNum[x := n], pcs := s.pcs[t := if n == 0 then OutSignal(x) else OutRelease(x)])
      case OutSignal(x) =>
        s.(mutex := s.mutex[x := V(s.mutex[x])], holder := s.holder[x := Free], pcs := s.pcs[t := OutRelease(x)])
      case Writing(x) =>
        s.(mutex := s.mutex[x := V(s.mutex[x])], holder := s.holder[x := Free], pcs := s.pcs[t := Idle])
      case InWait(x) =>
        s.(mutex := s.mutex[x := TryP(s.mutex[x], t).0], holder := s.holder[x := Readers], pcs := s.pcs[t := InRelease(x)])
      case WriteWait(x) =>
        s.(mutex := s.mutex[x := TryP(s.mutex[x], t).0], holder := s.holder[x := Writer(t)], pcs := s.pcs[t := Writing(x)])
      case InAcquire(x) => s.(readerLock := TryAcquire(s.readerLock, t).0, pcs := s.pcs[t := InCount(x)])
      case OutAcquire(x) => s.(readerLock := TryAcquire(s.readerLock, t).0, pcs := s.pcs[t := OutCount(x)])
      case Idle => s;
    assert Next(s, FreeStep(s, t), s');
  }

  // Someone can move on a sector that thread t waits for, unless its unit is with readers.
  lemma SectorProgress(s: State, t: Tid) returns (step: Step)
    requires Inv(s) && t in s.pcs && (s.pcs[t].InWait? || s.pcs[t].WriteWait?)
    requires s.holder[s.pcs[t].x] != Readers
    ensures Effective(s, step)
  {
    var x := s.pcs[t].x;
    assert SectorPart(s, x);
    var u := t;
    if s.holder[x].Writer? {
      u := s.holder[x].t;
    } else if t in s.mutex[x].queue {
      u := AvailableHasWoken(s.mutex[x]);
    }
    FreeStepEffective(s, u);
    step := FreeStep(s, u);
  }

  /** No deadlock: while some thread is inside a routine or an access, some thread can take a
      step that is not a failed retry, although readers wait for a sector while they hold the
      lock every reader needs. */
  lemma NeverDeadlocks(s: State, t: Tid) returns (step: Step)
    requires Inv(s) && t in s.pcs && s.pcs[t] != Idle
    ensures Effective(s, step)
  {
    if s.readerLock.owner.Some? {
      var h := s.readerLock.owner.value;
      assert HoldsLock(s.pcs[h]);
      if s.pcs[h].InWait? {
        assert SectorPart(s, s.pcs[h].x);
        step := SectorProgress(s, h);
      } else {
        FreeStepEffective(s, h);
        step := FreeStep(s, h);
      }
    } else {
      assert !HoldsLock(s.pcs[t]);
      var x := s.pcs[t].x;
      assert SectorPart(s, x);
      if s.pcs[t].WriteWait? && s.holder[x] != Readers {
        step := SectorProgress(s, t);
      } else {
        var u := t;
        if s.pcs[t].WriteWait? {
          assert CountedSet(s, x) != {};
          u :| u in CountedSet(s, x);
          assert !HoldsLock(s.pcs[u]);
        }
        if u in s.readerLock.sem.queue {
          u := AvailableHasWoken(s.readerLock.sem);
        }
        FreeStepEffective(s, u);
        step := FreeStep(s, u);
      }
    }
  }
}
