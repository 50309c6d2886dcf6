/** Semaphores and locks (threads/synch.cc).

    `P` is a retry loop: a woken thread goes back to the ready list and tests the value
    again, so a thread that was never queued can overtake it.  A `Sem` records the queue of
    sleeping threads and the set of threads that `V` has woken and that have not yet retried;
    every operation between two interrupt-enable points is one function on it.  The protocols
    of the other modules embed `Sem` and `Lock`. */
module Semaphores {
  import opened Basics

  type Tid = nat


  datatype Sem = Sem(value: nat, queue: seq<Tid>, woken: set<Tid>)

  function NewSem(value: nat): Sem {
    Sem(value, [], {})
  }

  // One pass of the loop in P by thread t: it sleeps when the value is 0, else it decrements.
  function TryP(s: Sem, t: Tid): (Sem, bool) {
    if s.value == 0 then (Sem(0, s.queue + [t], s.woken - {t}), false)
    else (Sem(s.value - 1, s.queue, s.woken - {t}), true)
  }

  // V moves the thread at the head of the queue, if any, to the ready list, then increments.
  function V(s: Sem): Sem {
    if s.queue == [] then s.(value := s.value + 1)
    else Sem(s.value + 1, s.queue[1..], s.woken + {s.queue[0]})
  }

  // The last conjunct is the no-lost-wakeup property.
  ghost predicate SemInv(s: Sem) {
    && Distinct(s.queue)
    && (forall t | t in s.queue :: t !in s.woken)
    && (s.queue != [] ==> s.value <= |s.woken|)
  }

  lemma TryPKeepsInv(s: Sem, t: Tid)
    requires SemInv(s) && t !in s.queue
    ensures SemInv(TryP(s, t).0)
  {
  }

  lemma VKeepsInv(s: Sem)
    requires SemInv(s)
    ensures SemInv(V(s))
    ensures forall t :: t in V(s).queue ==> t in s.queue
    ensures forall t :: t in V(s).woken ==> t in s.queue || t in s.woken
    ensures s.queue != [] ==> s.queue[0] !in V(s).queue
  {
    if s.queue != [] {
      assert forall t | t in s.queue[1..] :: t in s.queue && t != s.queue[0];
      assert s.queue[0] in s.queue;
    }
  }

  // ---------------------------------------------------------------------------
  // Any number of threads calling P and V on one semaphore

  datatype System = System(sem: Sem, inP: set<Tid>, vs: nat, ps: nat)

  ghost predicate Init(initial: nat, s: System) {
    s == System(NewSem(initial), {}, 0, 0)
  }

  datatype Step = CallP(t: Tid) | Retry(t: Tid) | CallV

  ghost predicate Next(s: System, step: Step, s': System) {
    match step
    case CallP(t) =>
      t !in s.inP && s' == s.(inP := s.inP + {t})
    case Retry(t) =>
      && t in s.inP && t !in s.sem.queue
      && var (sem, ok) := TryP(s.sem, t);
         s' == if ok then s.(sem := sem, inP := s.inP - {t}, ps := s.ps + 1) else s.(sem := sem)
    case CallV =>
      s' == s.(sem := V(s.sem), vs := s.vs + 1)
  }

  ghost predicate Run(initial: nat, states: seq<System>, steps: seq<Step>) {
    && |states| == |steps| + 1
    && Init(initial, states[0])
    && forall i | 0 <= i < |steps| :: Next(states[i], steps[i], states[i + 1])
  }

  ghost predicate Inv(initial: nat, s: System) {
    && SemInv(s.sem)
    && s.sem.value + s.ps == initial + s.vs
    && (forall t | t in s.sem.queue :: t in s.inP)
    && s.sem.woken <= s.inP
  }

  lemma NextKeepsInv(initial: nat, s: System, step: Step, s': System)
    requires Inv(initial, s) && Next(s, step, s')
    ensures Inv(initial, s')
  {
    match step
    case CallP(t) =>
    case Retry(t) => TryPKeepsInv(s.sem, t);
    case CallV => VKeepsInv(s.sem);
  }

  /** In every state of every run the value is initial + Vs - completed Ps; and while threads
      sleep in the queue, at most as many units are available as there are woken threads that
      have yet to retry. */
  lemma {:induction false} RunCounts(initial: nat, states: seq<System>, steps: seq<Step>, i: nat)
    requires Run(initial, states, steps) && i < |states|
    ensures Inv(initial, states[i])
    ensures states[i].sem.value == initial + states[i].vs - states[i].ps
    ensures states[i].sem.queue != [] ==> states[i].sem.value <= |states[i].sem.woken|
  {
    if i > 0 {
      RunCounts(initial, states, steps, i - 1);
      NextKeepsInv(initial, states[i - 1], steps[i - 1], states[i]);
    }
  }

  function VsIn(steps: seq<Step>): nat {
    if steps == [] then 0 else VsIn(steps[..|steps| - 1]) + (if steps[|steps| - 1].CallV? then 1 else 0)
  }

  lemma VsInSnoc(steps: seq<Step>, i: nat, j: nat)
    requires i < j <= |steps|
    ensures VsIn(steps[i..j]) == VsIn(steps[i..j - 1]) + (if steps[j - 1].CallV? then 1 else 0)
  {
    assert steps[i..j][..j - 1 - i] == steps[i..j - 1];
  }

  // Where a sleeper stands in the queue after one step.
  lemma NextPosition(initial: nat, s: System, step: Step, s': System, p: nat)
    requires Inv(initial, s) && Next(s, step, s') && p < |s.sem.queue|
    ensures !step.CallV? ==> p < |s'.sem.queue| && s'.sem.queue[p] == s.sem.queue[p]
    ensures step.CallV? && p > 0 ==> p <= |s'.sem.queue| && s'.sem.queue[p - 1] == s.sem.queue[p]
    ensures step.CallV? && p == 0 ==> s.sem.queue[p] !in s'.sem.queue && s.sem.queue[p] in s'.sem.woken
  {
    if step.CallV? {
      VKeepsInv(s.sem);
    }
  }

  lemma {:induction false} PositionInRun(initial: nat, states: seq<System>, steps: seq<Step>, i: nat, j: nat, t: Tid)
    requires Run(initial, states, steps) && i < j <= |steps|
    requires steps[i] == Retry(t) && states[i].sem.value == 0
    requires VsIn(steps[i + 1..j]) <= |states[i].sem.queue|
    ensures var p := |states[i].sem.queue| - VsIn(steps[i + 1..j]);
      p < |states[j].sem.queue| && states[j].sem.queue[p] == t
    decreases j
  {
    if j == i + 1 {
      assert Next(states[i], steps[i], states[j]);
    } else {
      VsInSnoc(steps, i + 1, j);
      PositionInRun(initial, states, steps, i, j - 1, t);
      RunCounts(initial, states, steps, j - 1);
      NextPosition(initial, states[j - 1], steps[j - 1], states[j], |states[i].sem.queue| - VsIn(steps[i + 1..j - 1]));
    }
  }

  /** First come, first woken: a thread whose test in P finds the value 0 while k others sleep is
      in the queue until the (k + 1)-th V from then on, and that V wakes it. */
  lemma WokenAtItsTurn(initial: nat, states: seq<System>, steps: seq<Step>, i: nat, j: nat, t: Tid)
    requires Run(initial, states, steps) && i < j <= |steps|
    requires steps[i] == Retry(t) && states[i].sem.value == 0
    requires VsIn(steps[i + 1..j]) <= |states[i].sem.queue|
    ensures t in states[j].sem.queue
    ensures j < |steps| && steps[j].CallV? && VsIn(steps[i + 1..j]) == |states[i].sem.queue| ==>
      t !in states[j + 1].sem.queue && t in states[j + 1].sem.woken
  {
    PositionInRun(initial, states, steps, i, j, t);
    if j < |steps| {
      RunCounts(initial, states, steps, j);
      NextPosition(initial, states[j], steps[j], states[j + 1], |states[i].sem.queue| - VsIn(steps[i + 1..j]));
    }
  }

  // A woken thread exists whenever a unit is available and someone sleeps.
  lemma AvailableHasWoken(s: Sem) returns (w: Tid)
    requires SemInv(s) && s.value > 0 && s.queue != []
    ensures w in s.woken && w !in s.queue
  {
    assert |s.woken| > 0;
    w :| w in s.woken;
  }

  /** No waiter is stranded: while a unit is available and some thread is inside P, one of the
      threads inside P is not asleep and its retry succeeds. */
  lemma NoStrandedWaiter(initial: nat, s: System) returns (t: Tid, s': System)
    requires Inv(initial, s) && s.sem.value > 0 && s.inP != {}
    ensures t in s.inP && t !in s.sem.queue
    ensures Next(s, Retry(t), s') && s'.ps == s.ps + 1
  {
    if s.sem.queue == [] {
      t :| t in s.inP;
    } else {
      t := AvailableHasWoken(s.sem);
    }
    s' := s.(sem := TryP(s.sem, t).0, inP := s.inP - {t}, ps := s.ps + 1);
  }

  // ---------------------------------------------------------------------------
  // Lock: a semaphore of value 1 and an owner field

  datatype Lock = Lock(sem: Sem, owner: Option<Tid>)

  function NewLock(): Lock {
    Lock(NewSem(1), None)
  }

  function TryAcquire(l: Lock, t: Tid): (Lock, bool) {
    var (sem, ok) := TryP(l.sem, t);
    (Lock(sem, if ok then Some(t) else l.owner), ok)
  }

  // Release does not look at the owner.
  function Release(l: Lock): Lock {
    Lock(V(l.sem), None)
  }

  ghost predicate LockInv(l: Lock) {
    && SemInv(l.sem)
    && l.sem.value == (if l.owner.None? then 1 else 0)
  }

  lemma TryAcquireKeepsInv(l: Lock, t: Tid)
    requires LockInv(l) && t !in l.sem.queue
    ensures LockInv(TryAcquire(l, t).0)
    ensures TryAcquire(l, t).1 <==> l.owner == None
  {
    TryPKeepsInv(l.sem, t);
  }

  lemma ReleaseKeepsInv(l: Lock)
    requires LockInv(l) && l.owner.Some?
    ensures LockInv(Release(l))
  {
    VKeepsInv(l.sem);
  }

  // Threads that acquire and release one lock; `inside` are those between the two calls.
  datatype LockSystem = LockSystem(lock: Lock, inside: set<Tid>)

  datatype LockStep = Acquire(t: Tid) | Leave(t: Tid)

  // Leave(t) is a call of Release by any thread, inside or not.
  function NextLock(s: LockSystem, step: LockStep): LockSystem {
    match step
    case Acquire(t) =>
      if t in s.inside || t in s.lock.sem.queue then s
      else
        var (l, ok) := TryAcquire(s.lock, t);
        LockSystem(l, if ok then s.inside + {t} else s.inside)
    case Leave(t) =>
      LockSystem(Release(s.lock), s.inside - {t})
  }

  function RunLock(s: LockSystem, steps: seq<LockStep>): LockSystem
    decreases |steps|
  {
    if steps == [] then s else RunLock(NextLock(s, steps[0]), steps[1..])
  }

  // Every release of the run is made by a thread that holds the lock at that moment.
  ghost predicate OnlyHoldersRelease(s: LockSystem, steps: seq<LockStep>)
    decreases |steps|
  {
    steps == [] ||
    (&& (steps[0].Leave? ==> steps[0].t in s.inside)
     && OnlyHoldersRelease(NextLock(s, steps[0]), steps[1..]))
  }

  // At most one thread is inside, and the owner field names it.
  ghost predicate Exclusive(s: LockSystem) {
    && LockInv(s.lock)
    && s.inside == (if s.lock.owner.Some? then {s.lock.owner.value} else {})
  }

  lemma NextLockKeepsExclusive(s: LockSystem, step: LockStep)
    requires Exclusive(s)
    requires step.Leave? ==> step.t in s.inside
    ensures Exclusive(NextLock(s, step))
  {
    match step
    case Acquire(t) =>
      if t !in s.inside && t !in s.lock.sem.queue {
        TryAcquireKeepsInv(s.lock, t);
      }
    case Leave(t) =>
      ReleaseKeepsInv(s.lock);
  }

  lemma {:induction false} RunLockExclusive(s: LockSystem, steps: seq<LockStep>)
    requires Exclusive(s) && OnlyHoldersRelease(s, steps)
    ensures Exclusive(RunLock(s, steps))
    decreases |steps|
  {
    if steps != [] {
      NextLockKeepsExclusive(s, steps[0]);
      RunLockExclusive(NextLock(s, steps[0]), steps[1..]);
    }
  }

  // A release by a thread that does not hold the lock lets two threads in.
  lemma BothGetIn(s: LockSystem, t: Tid, u: Tid, v: Tid) returns (steps: seq<LockStep>)
    requires Exclusive(s) && u != v && t !in s.inside
    requires forall x | x in {u, v} :: x !in s.inside && x !in s.lock.sem.queue
    ensures OnlyHoldersRelease(NextLock(s, Leave(t)), steps) && |RunLock(NextLock(s, Leave(t)), steps).inside| > 1
  {
    var s1 := NextLock(s, Leave(t));
    VKeepsInv(s.lock.sem);
    steps := [Acquire(u), Acquire(v)];
    var s2 := NextLock(s1, steps[0]);
    var s3 := NextLock(s2, steps[1]);
    assert steps[1..][1..] == [];
    assert OnlyHoldersRelease(s3, []);
    assert OnlyHoldersRelease(s2, steps[1..]);
    assert OnlyHoldersRelease(s1, steps);
    assert RunLock(s3, []) == s3;
    assert RunLock(s2, steps[1..]) == s3;
    assert RunLock(s1, steps) == s3;
    var w := if s.lock.owner.Some? then s.lock.owner.value else v;
    assert {u, w} <= s3.inside;
    TwoMembers(s3.inside, u, w);
  }

  /** Mutual exclusion survives a release in every continuation exactly when the releasing
      thread holds the lock.  u and v are any two threads that may still call Acquire. */
  lemma ReleaseSafeIffHolder(s: LockSystem, t: Tid, u: Tid, v: Tid)
    requires Exclusive(s) && u != v
    requires forall x | x in {u, v} :: x !in s.inside && x !in s.lock.sem.queue
    ensures t in s.inside <==>
      forall steps | OnlyHoldersRelease(NextLock(s, Leave(t)), steps) ::
        |RunLock(NextLock(s, Leave(t)), steps).inside| <= 1
  {
    var s1 := NextLock(s, Leave(t));
    if t in s.inside {
      NextLockKeepsExclusive(s, Leave(t));
      forall steps | OnlyHoldersRelease(s1, steps) ensures |RunLock(s1, steps).inside| <= 1 {
        RunLockExclusive(s1, steps);
      }
    } else {
      var steps := BothGetIn(s, t, u, v);
    }
  }

  lemma TwoMembers(s: set<Tid>, x: Tid, y: Tid)
    requires x != y && x in s && y in s
    ensures |s| >= 2
  {
    assert |s - {x}| == |s| - 1;
    assert y in s - {x};
  }

  // Two sets of threads that differ at most in t.
  lemma CountOne(a: set<Tid>, b: set<Tid>, t: Tid)
    requires forall u :: u != t ==> (u in b <==> u in a)
    ensures |b| == |a| + (if t in b then 1 else 0) - (if t in a then 1 else 0)
  {
    assert b == if t in b then a + {t} else a - {t};
  }
}
