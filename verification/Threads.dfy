/** Threads and the FIFO scheduler (threads/thread.cc, threads/scheduler.cc).

    One step is a kernel operation with interrupts off: Fork, Yield, Sleep on a wait queue,
    Finish, and the wakeup of the first thread of a wait queue, which a running thread or an
    interrupt handler performs.  Sleep and Finish keep the CPU idle, still on the stack of the
    sleeping thread, while no thread is ready.  A thread that was switched out before resumes
    inside Scheduler::Run and deletes threadToBeDestroyed; a thread that runs for the first
    time starts in ThreadRoot and does not. */
module Threads {
  import opened Basics
  import opened Lists
  import opened Semaphores

  type QueueId = nat

  datatype Status = JustCreated | Running | Ready | Blocked

  datatype Kernel = Kernel(
    current: Tid,
    idling: bool,                      // current sleeps and no other thread was ready
    status: map<Tid, Status>,
    ready: seq<Tid>,
    waiting: map<QueueId, seq<Tid>>,
    started: set<Tid>,                 // threads that have run before
    toBeDestroyed: Option<Tid>,
    finished: set<Tid>,                // threads that called Finish
    deleted: set<Tid>)

  function Queue(k: Kernel, q: QueueId): seq<Tid> {
    if q in k.waiting then k.waiting[q] else []
  }

  function Boot(): Kernel {
    Kernel(0, false, map[0 := Running], [], map[], {0}, None, {}, {})
  }

  // --- scheduler operations

  function MakeReady(k: Kernel, t: Tid): Kernel {
    k.(status := k.status[t := Ready], ready := k.ready + [t])
  }

  // FindNextToRun followed by Run.
  function Dispatch(k: Kernel): Kernel
    requires k.ready != []
  {
    var next := k.ready[0];
    var k1 := k.(ready := k.ready[1..], current := next, idling := false, status := k.status[next := Running],
                 started := k.started + {next});
    if next in k.started && k.toBeDestroyed.Some?
    then k1.(deleted := k.deleted + {k.toBeDestroyed.value}, toBeDestroyed := None)
    else k1
  }

  // The loop of Sleep: switch to a ready thread, or idle.
  function GiveUpCpu(k: Kernel): Kernel {
    var k1 := k.(status := k.status[k.current := Blocked]);
    if k1.ready == [] then k1.(idling := true) else Dispatch(k1)
  }

  // --- kernel steps

  datatype Step =
    | Create(t: Tid) | Fork(t: Tid) | Yield | Sleep(q: QueueId) | Finish
    | Wake(q: QueueId) | EndIdle

  predicate Enabled(k: Kernel, step: Step) {
    match step
    case Create(t) => !k.idling && t !in k.status
    case Fork(t) => !k.idling && t in k.status && k.status[t] == JustCreated
    case Yield => !k.idling
    case Sleep(_) => !k.idling
    case Finish => !k.idling
    case Wake(q) => Queue(k, q) != []
    case EndIdle => k.idling && k.ready != []
  }

  function Do(k: Kernel, step: Step): Kernel
    requires Enabled(k, step)
  {
    match step
    case Create(t) => k.(status := k.status[t := JustCreated])
    case Fork(t) => MakeReady(k, t)
    case Yield => Dispatch(MakeReady(k, k.current))
    case Sleep(q) => GiveUpCpu(k.(waiting := k.waiting[q := Queue(k, q) + [k.current]]))
    case Finish => GiveUpCpu(k.(toBeDestroyed := Some(k.current), finished := k.finished + {k.current}))
    case Wake(q) => MakeReady(k.(waiting := k.waiting[q := Queue(k, q)[1..]]), Queue(k, q)[0])
    case EndIdle => Dispatch(k)
  }

  // Whether a step puts a thread on the CPU.
  predicate Dispatches(k: Kernel, step: Step) {
    step.Yield? || step.EndIdle? || ((step.Sleep? || step.Finish?) && k.ready != [])
  }

  // ---------------------------------------------------------------------------
  // Invariant: everything about one thread

  ghost predicate OnCpu(k: Kernel, t: Tid) {
    t == k.current && !k.idling
  }

  ghost predicate Waits(k: Kernel, t: Tid) {
    exists q :: q in k.waiting && t in k.waiting[q]
  }

  // Thread t is in exactly the place its status says.
  ghost predicate Placed(k: Kernel, t: Tid)
    requires t in k.status
  {
    && (OnCpu(k, t) <==> k.status[t] == Running)
    && (t in k.ready <==> k.status[t] == Ready)
    && (Waits(k, t) <==> k.status[t] == Blocked && t !in k.finished)
    && (t in k.finished ==> k.status[t] == Blocked)
  }

  ghost predicate QueuesApart(k: Kernel) {
    && Distinct(k.ready)
    && (forall q | q in k.waiting :: Distinct(k.waiting[q]))
    && (forall p, q | p in k.waiting && q in k.waiting && p != q ::
          forall t | t in k.waiting[p] :: t !in k.waiting[q])
  }

  ghost predicate Known(k: Kernel) {
    && k.current in k.status
    && (forall t | t in k.ready :: t in k.status)
    && (forall q, t | q in k.waiting && t in k.waiting[q] :: t in k.status)
    && k.finished <= k.status.Keys
  }

  ghost predicate Graveyard(k: Kernel) {
    && k.deleted <= k.finished
    && (k.toBeDestroyed.Some? ==> k.toBeDestroyed.value in k.finished && k.toBeDestroyed.value !in k.deleted)
  }

  ghost predicate KernelInv(k: Kernel) {
    && Known(k) && QueuesApart(k) && Graveyard(k)
    && (forall t | t in k.status :: Placed(k, t))
  }

  lemma MakeReadyInv(k: Kernel, t: Tid, k': Kernel)
    requires Known(k) && QueuesApart(k) && Graveyard(k) && t in k.status && t !in k.finished && !Waits(k, t) && t !in k.ready
    requires forall u | u in k.status && u != t :: Placed(k, u)
    requires k' == MakeReady(k, t)
    ensures Known(k') && QueuesApart(k') && Graveyard(k')
    ensures forall u | u in k'.status && u != t :: Placed(k', u)
    ensures !OnCpu(k, t) ==> Placed(k', t)
  {
    forall u | u in k'.status ensures Waits(k', u) == Waits(k, u) { }
  }

  // All threads but the one that leaves the CPU are where they should be; that one is Ready,
  // asleep or finished by now.
  ghost predicate Leaving(k: Kernel) {
    && Known(k) && QueuesApart(k) && Graveyard(k)
    && KernelInv(k.(idling := true))
  }

  lemma DispatchInv(k: Kernel)
    requires Leaving(k) && k.ready != []
    ensures KernelInv(Dispatch(k))
  {
    var k' := Dispatch(k);
    var next := k.ready[0];
    assert next in k.ready;
    var k0 := k.(idling := true);
    assert Placed(k0, next);
    assert forall t | t in k.ready[1..] :: t in k.ready && t != next;
    assert forall t | t in k.ready && t != next :: t in k.ready[1..];
    forall t | t in k'.status ensures Placed(k', t) {
      assert Placed(k0, t);
      assert Waits(k', t) == Waits(k0, t);
    }
  }

  lemma GiveUpInv(k: Kernel)
    requires k.current in k.status && Leaving(k.(status := k.status[k.current := Blocked]))
    ensures KernelInv(GiveUpCpu(k))
  {
    var k1 := k.(status := k.status[k.current := Blocked]);
    if k1.ready != [] {
      DispatchInv(k1);
    }
  }

  lemma SleepInv(k: Kernel, q: QueueId)
    requires KernelInv(k) && Enabled(k, Sleep(q))
    ensures KernelInv(Do(k, Sleep(q)))
  {
    var c := k.current;
    assert Placed(k, c);
    var k1 := k.(waiting := k.waiting[q := Queue(k, q) + [c]]);
    var k2 := k1.(status := k1.status[c := Blocked], idling := true);
    assert c in k1.waiting[q];
    forall t | t in k2.status ensures Placed(k2, t) {
      assert Placed(k, t);
      if t == c {
        assert Waits(k2, c);
      } else {
        assert Waits(k2, t) == Waits(k, t) by {
          if Waits(k, t) {
            var p :| p in k.waiting && t in k.waiting[p];
            assert t in k2.waiting[p];
          }
          if Waits(k2, t) {
            var p :| p in k2.waiting && t in k2.waiting[p];
            assert p in k.waiting && t in k.waiting[p];
          }
        }
      }
    }
    SleepQueues(k, q);
    assert KernelInv(k2);
    GiveUpInv(k1);
  }

  lemma SleepQueues(k: Kernel, q: QueueId)
    requires KernelInv(k) && Enabled(k, Sleep(q))
    ensures QueuesApart(k.(waiting := k.waiting[q := Queue(k, q) + [k.current]]))
  {
    assert Placed(k, k.current);
    assert forall p | p in k.waiting :: k.current !in k.waiting[p];
  }

  lemma FinishInv(k: Kernel)
    requires KernelInv(k) && Enabled(k, Finish)
    ensures KernelInv(Do(k, Finish))
  {
    var c := k.current;
    assert Placed(k, c);
    var k1 := k.(toBeDestroyed := Some(c), finished := k.finished + {c});
    var k2 := k1.(status := k1.status[c := Blocked], idling := true);
    forall t | t in k2.status ensures Placed(k2, t) {
      assert Placed(k, t);
      assert Waits(k2, t) == Waits(k, t);
    }
    assert KernelInv(k2);
    GiveUpInv(k1);
  }

  lemma YieldInv(k: Kernel)
    requires KernelInv(k) && Enabled(k, Yield)
    ensures KernelInv(Do(k, Yield))
  {
    var c := k.current;
    assert Placed(k, c);
    var k1 := MakeReady(k, c);
    MakeReadyInv(k, c, k1);
    forall t | t in k1.status ensures Placed(k1.(idling := true), t) {
      assert Waits(k1, t) == Waits(k, t) == Waits(k1.(idling := true), t);
      assert t != c ==> Placed(k1, t);
    }
    DispatchInv(k1);
  }

  lemma WakeQueues(k: Kernel, q: QueueId, k1: Kernel)
    requires KernelInv(k) && Enabled(k, Wake(q))
    requires k1 == k.(waiting := k.waiting[q := Queue(k, q)[1..]])
    ensures QueuesApart(k1) && Known(k1) && !Waits(k1, Queue(k, q)[0])
    ensures forall t | t != Queue(k, q)[0] :: Waits(k1, t) == Waits(k, t)
  {
    var w := Queue(k, q)[0];
    assert w in k.waiting[q];
    assert forall t | t in k1.waiting[q] :: t in k.waiting[q] && t != w;
    forall t | t != w ensures Waits(k1, t) == Waits(k, t) {
      if Waits(k, t) {
        var p :| p in k.waiting && t in k.waiting[p];
        assert t in k1.waiting[p];
      }
    }
  }

  lemma WakeInv(k: Kernel, q: QueueId)
    requires KernelInv(k) && Enabled(k, Wake(q))
    ensures KernelInv(Do(k, Wake(q)))
  {
    var w := Queue(k, q)[0];
    assert w in k.waiting[q] && Waits(k, w) && Placed(k, w);
    var k1 := k.(waiting := k.waiting[q := Queue(k, q)[1..]]);
    WakeQueues(k, q, k1);
    forall u | u in k1.status && u != w ensures Placed(k1, u) {
      assert Placed(k, u);
    }
    MakeReadyInv(k1, w, Do(k, Wake(q)));
  }

  lemma StepInv(k: Kernel, step: Step)
    requires KernelInv(k) && Enabled(k, step)
    ensures KernelInv(Do(k, step))
  {
    match step
    case Create(t) =>
      var k' := Do(k, step);
      forall u | u in k'.status ensures Placed(k', u) {
        assert Waits(k', u) == Waits(k, u);
        if u != t { assert Placed(k, u); }
      }
    case Fork(t) =>
      assert Placed(k, t);
      MakeReadyInv(k, t, Do(k, step));
    case Yield => YieldInv(k);
    case Sleep(q) => SleepInv(k, q);
    case Finish => FinishInv(k);
    case Wake(q) => WakeInv(k, q);
    case EndIdle =>
      assert k.(idling := true) == k;
      DispatchInv(k);
  }

  // ---------------------------------------------------------------------------
  // Whole runs

  predicate Runnable(k: Kernel, steps: seq<Step>)
    decreases |steps|
  {
    steps == [] || (Enabled(k, steps[0]) && Runnable(Do(k, steps[0]), steps[1..]))
  }

  function After(k: Kernel, steps: seq<Step>): Kernel
    requires Runnable(k, steps)
    decreases |steps|
  {
    if steps == [] then k else After(Do(k, steps[0]), steps[1..])
  }

  lemma BootInv()
    ensures KernelInv(Boot())
  {
    assert Placed(Boot(), 0);
  }

  lemma {:induction false} RunInv(k: Kernel, steps: seq<Step>)
    requires KernelInv(k) && Runnable(k, steps)
    ensures KernelInv(After(k, steps))
    decreases |steps|
  {
    if steps != [] {
      StepInv(k, steps[0]);
      RunInv(Do(k, steps[0]), steps[1..]);
    }
  }

  /** In every reachable state a thread that was forked and has not finished is in exactly one
      place: on the CPU, once on the ready list, or once in one wait queue; and its status says
      which. */
  lemma ExactlyOnePlace(steps: seq<Step>, t: Tid)
    requires Runnable(Boot(), steps)
    requires var k := After(Boot(), steps); t in k.status && k.status[t] != JustCreated && t !in k.finished
    ensures var k := After(Boot(), steps);
      match k.status[t]
      case Running => OnCpu(k, t) && t !in k.ready && !Waits(k, t)
      case Ready => multiset(k.ready)[t] == 1 && !OnCpu(k, t) && !Waits(k, t)
      case Blocked =>
        && !OnCpu(k, t) && t !in k.ready
        && exists q :: q in k.waiting && multiset(k.waiting[q])[t] == 1
             && forall p | p in k.waiting && p != q :: t !in k.waiting[p]
      case JustCreated => false
  {
    BootInv();
    RunInv(Boot(), steps);
    var k := After(Boot(), steps);
    assert Placed(k, t);
    DistinctOnce(k.ready, t);
    if Waits(k, t) {
      var q :| q in k.waiting && t in k.waiting[q];
      DistinctOnce(k.waiting[q], t);
    }
  }

  /** A finished thread never gets the CPU again, however the run goes on. */
  lemma {:induction false} FinishedNeverRuns(k: Kernel, steps: seq<Step>, t: Tid)
    requires KernelInv(k) && Runnable(k, steps) && t in k.finished
    ensures t in After(k, steps).finished && !OnCpu(After(k, steps), t) && t !in After(k, steps).ready
    decreases |steps|
  {
    assert Placed(k, t);
    if steps != [] {
      StepInv(k, steps[0]);
      FinishedNeverRuns(Do(k, steps[0]), steps[1..], t);
    }
  }

  /** A thread that a step deletes has finished, was not deleted before, and is not the current
      thread. */
  lemma DeletedNeverCurrent(k: Kernel, step: Step, t: Tid)
    requires KernelInv(k) && Enabled(k, step) && t !in k.deleted && t in Do(k, step).deleted
    ensures t in Do(k, step).finished && Do(k, step).current != t && Dispatches(k, step)
  {
    StepInv(k, step);
    assert Placed(Do(k, step), t);
  }

  function DispatchCount(k: Kernel, steps: seq<Step>): nat
    requires Runnable(k, steps)
    decreases |steps|
  {
    if steps == [] then 0
    else (if Dispatches(k, steps[0]) then 1 else 0) + DispatchCount(Do(k, steps[0]), steps[1..])
  }

  lemma {:induction false} MovesUp(k: Kernel, steps: seq<Step>, j: nat)
    requires Runnable(k, steps) && j < |k.ready|
    ensures var d := DispatchCount(k, steps);
      d <= j ==> j - d < |After(k, steps).ready| && After(k, steps).ready[j - d] == k.ready[j]
    decreases |steps|
  {
    if steps != [] {
      var k1 := Do(k, steps[0]);
      OneUp(k, steps[0], j);
      if !Dispatches(k, steps[0]) {
        MovesUp(k1, steps[1..], j);
      } else if j > 0 {
        MovesUp(k1, steps[1..], j - 1);
      }
    }
  }

  // A dispatch moves the line up by one; new threads go to its end.
  lemma OneUp(k: Kernel, step: Step, j: nat)
    requires Enabled(k, step) && j < |k.ready|
    ensures var d := if Dispatches(k, step) then 1 else 0;
      d <= j ==> j - d < |Do(k, step).ready| && Do(k, step).ready[j - d] == k.ready[j]
  {
  }

  /** FIFO: a thread with j threads ahead of it on the ready list gets the CPU at the (j+1)-th
      dispatch from now, whatever steps the run takes. */
  lemma RunsAtItsTurn(k: Kernel, steps: seq<Step>, step: Step, j: nat)
    requires Runnable(k, steps) && j < |k.ready| && DispatchCount(k, steps) == j
    requires Enabled(After(k, steps), step) && Dispatches(After(k, steps), step)
    ensures OnCpu(Do(After(k, steps), step), k.ready[j])
  {
    MovesUp(k, steps, j);
  }

  // How often the first thread of wait queue q is woken.
  function WakeCount(steps: seq<Step>, q: QueueId): nat {
    if steps == [] then 0 else (if steps[0] == Wake(q) then 1 else 0) + WakeCount(steps[1..], q)
  }

  // A wakeup moves its queue up by one; new sleepers go to the end.
  lemma OneUpWaiting(k: Kernel, step: Step, q: QueueId, j: nat)
    requires Enabled(k, step) && j < |Queue(k, q)|
    ensures var d := if step == Wake(q) then 1 else 0;
      d <= j ==> j - d < |Queue(Do(k, step), q)| && Queue(Do(k, step), q)[j - d] == Queue(k, q)[j]
  {
  }

  lemma {:induction false} WaitMovesUp(k: Kernel, steps: seq<Step>, q: QueueId, j: nat)
    requires Runnable(k, steps) && j < |Queue(k, q)|
    ensures var d := WakeCount(steps, q);
      d <= j ==> j - d < |Queue(After(k, steps), q)| && Queue(After(k, steps), q)[j - d] == Queue(k, q)[j]
    decreases |steps|
  {
    if steps != [] {
      OneUpWaiting(k, steps[0], q, j);
      if steps[0] != Wake(q) {
        WaitMovesUp(Do(k, steps[0]), steps[1..], q, j);
      } else if j > 0 {
        WaitMovesUp(Do(k, steps[0]), steps[1..], q, j - 1);
      }
    }
  }

  /** FIFO wait queues: a thread that goes to sleep behind j others is still asleep until the (j + 1)-th wakeup
      of its queue, and that wakeup puts it at the end of the ready list. */
  lemma WokenAtItsTurn(k: Kernel, steps: seq<Step>, q: QueueId)
    requires Enabled(k, Sleep(q)) && Runnable(Do(k, Sleep(q)), steps)
    requires WakeCount(steps, q) <= |Queue(k, q)|
    ensures var k' := After(Do(k, Sleep(q)), steps);
      && k.current in Queue(k', q)
      && (WakeCount(steps, q) == |Queue(k, q)| ==>
            Enabled(k', Wake(q)) && Do(k', Wake(q)).ready == k'.ready + [k.current])
  {
    assert Queue(Do(k, Sleep(q)), q) == Queue(k, q) + [k.current];
    WaitMovesUp(Do(k, Sleep(q)), steps, q, |Queue(k, q)|);
  }

  // --- what becomes of finished threads

  // The thread that a dispatching step puts on the CPU.
  function NextThread(k: Kernel): Tid {
    if k.ready == [] then k.current else k.ready[0]
  }

  ghost predicate Forgotten(k: Kernel, t: Tid) {
    t in k.finished && t !in k.deleted && k.toBeDestroyed != Some(t)
  }

  /** A finished thread that another Finish overwrote in threadToBeDestroyed is never deleted. */
  lemma {:induction false} ForgottenForever(k: Kernel, steps: seq<Step>, t: Tid)
    requires KernelInv(k) && Runnable(k, steps) && Forgotten(k, t)
    ensures Forgotten(After(k, steps), t)
    decreases |steps|
  {
    if steps != [] {
      assert Placed(k, t);
      StepInv(k, steps[0]);
      ForgottenForever(Do(k, steps[0]), steps[1..], t);
    }
  }

  // Step i of the run resumes a thread that has run before, and no thread has finished up to then.
  predicate ResumesAt(k: Kernel, steps: seq<Step>, i: nat)
    requires Runnable(k, steps)
    decreases |steps|
  {
    && i < |steps| && !steps[0].Finish?
    && if i == 0 then Dispatches(k, steps[0]) && NextThread(k) in k.started
       else ResumesAt(Do(k, steps[0]), steps[1..], i - 1)
  }

  // What one step does to the thread that waits for its deletion.
  lemma NextStepDeletes(k: Kernel, step: Step, t: Tid)
    requires KernelInv(k) && Enabled(k, step) && k.toBeDestroyed == Some(t)
    ensures var k' := Do(k, step);
      if step.Finish? then Forgotten(k', t)
      else if Dispatches(k, step) && NextThread(k) in k.started then t in k'.deleted
      else k'.toBeDestroyed == Some(t) && t !in k'.deleted
  {
    assert Placed(k, t) && Placed(k, k.current);
  }

  lemma {:induction false} StaysDeleted(k: Kernel, steps: seq<Step>, t: Tid)
    requires Runnable(k, steps) && t in k.deleted
    ensures t in After(k, steps).deleted
    decreases |steps|
  {
    if steps != [] {
      StaysDeleted(Do(k, steps[0]), steps[1..], t);
    }
  }

  /** Over a run, a thread that waits for its deletion is deleted exactly when some step resumes a
      thread that has run before, and no other thread has finished by then. */
  lemma {:induction false} DeletedInRunIff(k: Kernel, steps: seq<Step>, t: Tid)
    requires KernelInv(k) && Runnable(k, steps) && k.toBeDestroyed == Some(t)
    ensures t in After(k, steps).deleted <==> exists i: nat :: ResumesAt(k, steps, i)
    decreases |steps|
  {
    if steps != [] {
      var k', rest := Do(k, steps[0]), steps[1..];
      assert After(k, steps) == After(k', rest);
      StepInv(k, steps[0]);
      NextStepDeletes(k, steps[0], t);
      if steps[0].Finish? {
        ForgottenForever(k', rest, t);
      } else if Dispatches(k, steps[0]) && NextThread(k) in k.started {
        StaysDeleted(k', rest, t);
        assert ResumesAt(k, steps, 0);
        assert exists i: nat :: ResumesAt(k, steps, i);
      } else {
        DeletedInRunIff(k', rest, t);
        ResumesLater(k, steps);
      }
    }
  }

  lemma ResumesShift(k: Kernel, steps: seq<Step>, i: nat)
    requires Runnable(k, steps) && steps != [] && !steps[0].Finish?
    ensures ResumesAt(k, steps, i + 1) <==> ResumesAt(Do(k, steps[0]), steps[1..], i)
  {
  }

  lemma ResumesLater(k: Kernel, steps: seq<Step>)
    requires Runnable(k, steps) && steps != [] && !steps[0].Finish?
    requires !ResumesAt(k, steps, 0)
    ensures (exists i: nat :: ResumesAt(k, steps, i)) <==> (exists i: nat :: ResumesAt(Do(k, steps[0]), steps[1..], i))
  {
    if i: nat :| ResumesAt(k, steps, i) {
      ResumesShift(k, steps, i - 1);
    }
    if i: nat :| ResumesAt(Do(k, steps[0]), steps[1..], i) {
      ResumesShift(k, steps, i);
    }
  }

  /** From its Finish on: the thread is deleted exactly when the dispatch of its own Finish, or one
      of the run before another thread finishes, resumes a thread that has run before. */
  lemma FinishDeletesIff(k: Kernel, steps: seq<Step>)
    requires KernelInv(k) && Enabled(k, Finish) && Runnable(Do(k, Finish), steps)
    ensures k.current in After(Do(k, Finish), steps).deleted <==>
      || (k.ready != [] && k.ready[0] in k.started)
      || (exists i: nat :: ResumesAt(Do(k, Finish), steps, i))
  {
    assert Placed(k, k.current);
    var k' := Do(k, Finish);
    StepInv(k, Finish);
    if k.ready != [] && k.ready[0] in k.started {
      StaysDeleted(k', steps, k.current);
    } else {
      DeletedInRunIff(k', steps, k.current);
    }
  }

  // Two new threads that finish one after the other: the first is never deleted.
  lemma FinishForgets() returns (steps: seq<Step>)
    ensures Runnable(Boot(), steps) && Forgotten(After(Boot(), steps), 1)
  {
    steps := [Create(1), Fork(1), Create(2), Fork(2), Yield, Finish, Finish];
    var k1 := Do(Boot(), steps[0]);
    var k2 := Do(k1, steps[1]);
    var k3 := Do(k2, steps[2]);
    var k4 := Do(k3, steps[3]);
    assert k4.ready == [1, 2];
    var k5 := Do(k4, steps[4]);
    assert k5.ready == [2, 0] && k5.current == 1;
    var k6 := Do(k5, steps[5]);
    assert k6.ready == [0] && k6.current == 2 && k6.toBeDestroyed == Some(1);
    var k7 := Do(k6, steps[6]);
    assert k7.deleted == {2};
    assert steps[6..][1..] == [];
    Unfold(k6, steps[6..], k7);
    assert steps[5..][1..] == steps[6..];
    Unfold(k5, steps[5..], k7);
    assert steps[4..][1..] == steps[5..];
    Unfold(k4, steps[4..], k7);
    assert steps[3..][1..] == steps[4..];
    Unfold(k3, steps[3..], k7);
    assert steps[2..][1..] == steps[3..];
    Unfold(k2, steps[2..], k7);
    assert steps[1..][1..] == steps[2..];
    Unfold(k1, steps[1..], k7);
    Unfold(Boot(), steps, k7);
  }

  lemma Unfold(k: Kernel, steps: seq<Step>, end: Kernel)
    requires steps != [] && Enabled(k, steps[0]) && Runnable(Do(k, steps[0]), steps[1..])
    requires After(Do(k, steps[0]), steps[1..]) == end
    ensures Runnable(k, steps) && After(k, steps) == end
  {
  }

  // ---------------------------------------------------------------------------
  // The kernel routines, on the kernel's variables and the linked ready list

  lemma DispatchFront(k: Kernel, next: Tid)
    ensures var k1 := k.(current := next, idling := false, status := k.status[next := Running], started := k.started + {next});
      Dispatch(k.(ready := [next] + k.ready)) ==
        if next in k.started && k.toBeDestroyed.Some?
        then k1.(deleted := k.deleted + {k.toBeDestroyed.value}, toBeDestroyed := None) else k1
  {
    assert ([next] + k.ready)[1..] == k.ready;
  }

  class Scheduler {
    const readyList: List<Tid>
    var currentThread: Tid
    var idling: bool
    var status: map<Tid, Status>
    var waiting: map<QueueId, seq<Tid>>
    var started: set<Tid>
    var threadToBeDestroyed: Option<Tid>
    ghost var finished: set<Tid>
    ghost var deleted: set<Tid>

    ghost function Repr(): set<object>
      reads this, readyList
    {
      {this, readyList} + readyList.Cells()
    }

    ghost predicate Valid()
      reads this, readyList, readyList.Cells()
    {
      readyList.Valid() && this !in readyList.Cells() && readyList !in readyList.Cells()
    }

    // The kernel state the variables stand for.
    ghost function View(): Kernel
      reads this, readyList
    {
      Kernel(currentThread, idling, status, Things(readyList.Contents()), waiting, started, threadToBeDestroyed,
             finished, deleted)
    }

    constructor ()
      ensures Valid() && View() == Boot() && KernelInv(View()) && fresh(Repr())
    {
      readyList := new List();
      currentThread, idling, status, waiting := 0, false, map[0 := Running], map[];
      started, threadToBeDestroyed, finished, deleted := {0}, None, {}, {};
      new;
      BootInv();
    }

    // The linked list grows by one cell at its end.
    method ReadyToRun(t: Tid)
      requires Valid()
      modifies Repr()
      ensures Valid() && fresh(Repr() - old(Repr())) && View() == MakeReady(old(View()), t)
    {
      ghost var items := readyList.Contents();
      status := status[t := Ready];
      readyList.Append(t);
      assert Things(items + [Item(t, 0)]) == Things(items) + [t];
    }

    method FindNextToRun() returns (next: Option<Tid>)
      requires Valid()
      modifies readyList
      ensures Valid() && Repr() <= old(Repr())
      ensures next == None <==> old(View()).ready == []
      ensures next == None ==> View() == old(View())
      ensures next.Some? ==> old(View()) == View().(ready := [next.value] + View().ready)
    {
      ghost var items := readyList.Contents();
      var item := readyList.SortedRemove();
      match item
      case None => next := None;
      case Some(x) =>
        next := Some(x.thing);
        assert Things(items) == [x.thing] + Things(items[1..]);
    }

    // `next` was taken off the front of the ready list.
    method Run(next: Tid)
      requires Valid()
      modifies this
      ensures Valid() && Repr() == old(Repr())
      ensures View() == Dispatch(old(View()).(ready := [next] + old(View()).ready))
    {
      DispatchFront(View(), next);
      var resumes := next in started;
      currentThread, idling := next, false;
      status := status[next := Running];
      started := started + {next};
      if resumes && threadToBeDestroyed.Some? {
        deleted := deleted + {threadToBeDestroyed.value};
        threadToBeDestroyed := None;
      }
    }

    method Yield()
      requires Valid() && KernelInv(View()) && Enabled(View(), Step.Yield)
      modifies Repr()
      ensures Valid() && fresh(Repr() - old(Repr())) && KernelInv(View()) && View() == Do(old(View()), Step.Yield)
    {
      StepInv(View(), Step.Yield);
      ReadyToRun(currentThread);
      var next := FindNextToRun();
      Run(next.value);
    }

    method Sleep(q: QueueId)
      requires Valid() && KernelInv(View()) && Enabled(View(), Step.Sleep(q))
      modifies Repr()
      ensures Valid() && Repr() <= old(Repr()) && KernelInv(View()) && View() == Do(old(View()), Step.Sleep(q))
    {
      StepInv(View(), Step.Sleep(q));
      waiting := waiting[q := (if q in waiting then waiting[q] else []) + [currentThread]];
      Block();
    }

    method Finish()
      requires Valid() && KernelInv(View()) && Enabled(View(), Step.Finish)
      modifies Repr()
      ensures Valid() && Repr() <= old(Repr()) && KernelInv(View()) && View() == Do(old(View()), Step.Finish)
    {
      StepInv(View(), Step.Finish);
      finished, threadToBeDestroyed := finished + {currentThread}, Some(currentThread);
      Block();
    }

    // The common part of Sleep: the CPU goes to the next ready thread, or idles.
    method Block()
      requires Valid()
      modifies Repr()
      ensures Valid() && Repr() <= old(Repr()) && View() == GiveUpCpu(old(View()))
    {
      status := status[currentThread := Blocked];
      var next := FindNextToRun();
      if next.Some? {
        Run(next.value);
      } else {
        idling := true;
      }
    }
  }
}
