/** SynchList (threads/synchlist.cc): a list guarded by a lock, with a condition variable on
    which Remove waits while the list is empty.  Condition::Wait (threads/synch.cc) releases
    the lock and goes to sleep in one step, and acquires the lock again after it is signalled;
    by then another thread may have taken the item.  Any number of threads append and remove,
    and can be preempted between any two steps. */
module SynchLists {
  import opened Basics
  import opened Semaphores

  type Item = int

  // `again` marks a remover that was signalled and has to look at the list again.
  datatype Pc =
    | Idle
    | AppendAcquire(item: Item) | AppendInsert(item: Item) | AppendSignal | AppendRelease
    | RemoveAcquire(again: bool) | RemoveTest(again: bool) | RemoveWait(again: bool) | RemoveTake(again: bool)
    | Sleeping                     // in the queue of the condition
    | RemoveRelease(item: Item)

  datatype State = State(
    lock: Lock,
    cond: seq<Tid>,            // queue of the condition
    list: seq<Item>,
    pcs: map<Tid, Pc>,
    appended: seq<Item>,       // history: everything ever put on the list, in order
    removed: seq<Item>)        // history: everything ever taken off, in order

  datatype Step =
    | StartAppend(t: Tid, item: Item) | StartRemove(t: Tid)
    | TryLock(t: Tid) | Insert(t: Tid) | Signal(t: Tid) | Unlock(t: Tid)
    | Test(t: Tid) | Wait(t: Tid) | Take(t: Tid)

  ghost predicate Init(s: State) {
    && s.lock == NewLock() && s.cond == [] && s.list == [] && s.appended == [] && s.removed == []
    && (forall t | t in s.pcs :: s.pcs[t] == Idle)
  }

  ghost predicate Next(s: State, step: Step, s': State) {
    && step.t in s.pcs
    && var t := step.t;
       var pc := s.pcs[t];
       match step
       case StartAppend(_, item) => pc == Idle && s' == s.(pcs := s.pcs[t := AppendAcquire(item)])
       case StartRemove(_) => pc == Idle && s' == s.(pcs := s.pcs[t := RemoveAcquire(false)])
       case TryLock(_) =>
         && (pc.AppendAcquire? || pc.RemoveAcquire?) && t !in s.lock.sem.queue
         && var (lock, ok) := TryAcquire(s.lock, t);
            s' == s.(lock := lock,
                     pcs := if !ok then s.pcs
                            else s.pcs[t := if pc.AppendAcquire? then AppendInsert(pc.item) else RemoveTest(pc.again)])
       case Insert(_) =>
         && pc.AppendInsert?
         && s' == s.(list := s.list + [pc.item], appended := s.appended + [pc.item], pcs := s.pcs[t := AppendSignal])
       case Signal(_) =>
         && pc.AppendSignal?
         && s' == if s.cond == [] then s.(pcs := s.pcs[t := AppendRelease])
                  else s.(cond := s.cond[1..], pcs := s.pcs[t := AppendRelease][s.cond[0] := RemoveAcquire(true)])
       case Test(_) =>
         && pc.RemoveTest?
         && s' == s.(pcs := s.pcs[t := if s.list == [] then RemoveWait(pc.again) else RemoveTake(pc.again)])
       case Wait(_) =>
         && pc.RemoveWait?
         && s' == s.(lock := Release(s.lock), cond := s.cond + [t], pcs := s.pcs[t := Sleeping])
       case Take(_) =>
         && pc.RemoveTake? && s.list != []
         && s' == s.(list := s.list[1..], removed := s.removed + [s.list[0]],
                     pcs := s.pcs[t := RemoveRelease(s.list[0])])
       case Unlock(_) =>
         && (pc.AppendRelease? || pc.RemoveRelease?)
         && s' == s.(lock := Release(s.lock), pcs := s.pcs[t := Idle])
  }

  // ---------------------------------------------------------------------------
  // Invariant

  predicate HoldsLock(pc: Pc) {
    pc.AppendInsert? || pc.AppendSignal? || pc.AppendRelease? ||
    pc.RemoveTest? || pc.RemoveWait? || pc.RemoveTake? || pc.RemoveRelease?
  }

  ghost predicate LockPart(s: State) {
    && LockInv(s.lock)
    && (forall t | t in s.pcs :: HoldsLock(s.pcs[t]) <==> s.lock.owner == Some(t))
    && (s.lock.owner.Some? ==> s.lock.owner.value in s.pcs)
    && (forall t | t in s.lock.sem.queue || t in s.lock.sem.woken ::
          t in s.pcs && (s.pcs[t].AppendAcquire? || s.pcs[t].RemoveAcquire?))
  }

  ghost predicate CondPart(s: State) {
    && Distinct(s.cond)
    && (forall t | t in s.cond :: t in s.pcs && s.pcs[t] == Sleeping)
    && (forall t | t in s.pcs && s.pcs[t] == Sleeping :: t in s.cond)
  }

  predicate ToRecheck(pc: Pc) {
    pc == RemoveAcquire(true) || pc == RemoveTest(true) || pc == RemoveTake(true)
  }

  // Signalled waiters that still have to look at the list.
  ghost function Signalled(s: State): set<Tid> {
    set t | t in s.pcs && ToRecheck(s.pcs[t])
  }

  // 1 while an appender has inserted its item and not yet signalled.
  ghost function Unsignalled(s: State): nat {
    if s.lock.owner.Some? && s.lock.owner.value in s.pcs && s.pcs[s.lock.owner.value] == AppendSignal then 1 else 0
  }

  ghost predicate ListPart(s: State) {
    && s.appended == s.removed + s.list
    && (forall t | t in s.pcs && s.pcs[t].RemoveTake? :: s.list != [])
    && (forall t | t in s.pcs && s.pcs[t].RemoveWait? :: s.list == [])
    && (s.cond != [] ==> |s.list| <= |Signalled(s)| + Unsignalled(s))
  }

  ghost predicate Inv(s: State) {
    LockPart(s) && CondPart(s) && ListPart(s)
  }

  lemma LockTry(s: State, t: Tid, s': State)
    requires LockPart(s) && Next(s, TryLock(t), s')
    ensures LockPart(s')
  {
    TryAcquireKeepsInv(s.lock, t);
  }

  lemma LockRelease(s: State, step: Step, s': State)
    requires LockPart(s) && Next(s, step, s') && (step.Unlock? || step.Wait?)
    ensures LockPart(s')
  {
    assert HoldsLock(s.pcs[step.t]);
    ReleaseKeepsInv(s.lock);
    VKeepsInv(s.lock.sem);
  }

  lemma LockSignal(s: State, t: Tid, s': State)
    requires LockPart(s) && CondPart(s) && Next(s, Signal(t), s')
    ensures LockPart(s')
  {
    if s.cond != [] {
      assert s.cond[0] in s.cond;
    }
  }

  lemma LockPartStep(s: State, step: Step, s': State)
    requires LockPart(s) && CondPart(s) && Next(s, step, s')
    ensures LockPart(s')
  {
    match step
    case TryLock(t) => LockTry(s, t, s');
    case Unlock(_) => LockRelease(s, step, s');
    case Wait(_) => LockRelease(s, step, s');
    case Signal(t) => LockSignal(s, t, s');
    case _ =>
  }

  lemma CondPartStep(s: State, step: Step, s': State)
    requires CondPart(s) && Next(s, step, s')
    ensures CondPart(s')
  {
    if step.Signal? && s.cond != [] {
      assert s.cond[0] in s.cond;
      assert forall t :: t in s.cond <==> t == s.cond[0] || t in s.cond[1..];
    }
  }

  lemma SignalledStep(s: State, t: Tid, s': State)
    requires t in s.pcs && t in s'.pcs && s'.pcs == s.pcs[t := s'.pcs[t]]
    ensures |Signalled(s')| == |Signalled(s)|
      + (if ToRecheck(s'.pcs[t]) then 1 else 0) - (if ToRecheck(s.pcs[t]) then 1 else 0)
  {
    var a, b := Signalled(s), Signalled(s');
    assert forall u :: u != t ==> (u in b <==> u in a);
    CountOne(a, b, t);
  }

  lemma SignalStep(s: State, t: Tid, s': State)
    requires Inv(s) && Next(s, Signal(t), s') && LockPart(s')
    ensures ListPart(s')
  {
    assert HoldsLock(s.pcs[t]);
    if s.cond != [] {
      var w := s.cond[0];
      assert w in s.cond;
      var mid := s.(pcs := s.pcs[t := AppendRelease]);
      SignalledStep(s, t, mid);
      SignalledStep(mid, w, s');
    }
  }

  // Steps of the thread that holds the lock.
  lemma HolderStep(s: State, step: Step, s': State)
    requires Inv(s) && Next(s, step, s')
    requires step.Insert? || step.Test? || step.Take?
    ensures ListPart(s')
  {
    var t := step.t;
    SignalledStep(s, t, s');
    assert HoldsLock(s.pcs[t]);
    assert forall u | u in s.pcs && u != t :: !HoldsLock(s.pcs[u]);
  }

  lemma ReleaseStep(s: State, step: Step, s': State)
    requires Inv(s) && Next(s, step, s')
    requires step.Wait? || step.Unlock?
    ensures ListPart(s')
  {
    var t := step.t;
    SignalledStep(s, t, s');
    assert HoldsLock(s.pcs[t]);
    assert forall u | u in s.pcs && u != t :: !HoldsLock(s.pcs[u]);
  }

  lemma OutsideStep(s: State, step: Step, s': State)
    requires Inv(s) && Next(s, step, s')
    requires step.StartAppend? || step.StartRemove? || step.TryLock?
    ensures ListPart(s')
  {
    var t := step.t;
    SignalledStep(s, t, s');
    assert !HoldsLock(s.pcs[t]);
  }

  lemma ListPartStep(s: State, step: Step, s': State)
    requires Inv(s) && Next(s, step, s') && LockPart(s')
    ensures ListPart(s')
  {
    match step
    case Signal(t) => SignalStep(s, t, s');
    case StartAppend(_, _) => OutsideStep(s, step, s');
    case StartRemove(_) => OutsideStep(s, step, s');
    case TryLock(_) => OutsideStep(s, step, s');
    case Wait(_) => ReleaseStep(s, step, s');
    case Unlock(_) => ReleaseStep(s, step, s');
    case _ => HolderStep(s, step, s');
  }

  lemma NextKeepsInv(s: State, step: Step, s': State)
    requires Inv(s) && Next(s, step, s')
    ensures Inv(s')
  {
    LockPartStep(s, step, s');
    CondPartStep(s, step, s');
    ListPartStep(s, step, s');
  }

  // ---------------------------------------------------------------------------
  // Whole runs

  ghost predicate Run(states: seq<State>, steps: seq<Step>) {
    && |states| == |steps| + 1
    && Init(states[0])
    && forall i | 0 <= i < |steps| :: Next(states[i], steps[i], states[i + 1])
  }

  lemma {:induction false} RunInv(states: seq<State>, steps: seq<Step>, i: nat)
    requires Run(states, steps) && i < |states|
    ensures Inv(states[i])
  {
    if i > 0 {
      RunInv(states, steps, i - 1);
      NextKeepsInv(states[i - 1], steps[i - 1], states[i]);
    }
  }

  /** FIFO: in every state what has been removed is, in order, a prefix of what has been
      appended, and the list holds the rest. */
  lemma RemovedIsPrefix(states: seq<State>, steps: seq<Step>, i: nat)
    requires Run(states, steps) && i < |states|
    ensures states[i].removed <= states[i].appended
    ensures states[i].appended == states[i].removed + states[i].list
  {
    RunInv(states, steps, i);
  }

  // --- what the callers see

  // The item of the last call of Append by thread t.
  function LastCall(steps: seq<Step>, t: Tid): Item {
    if steps == [] then 0
    else
      var last := steps[|steps| - 1];
      if last.StartAppend? && last.t == t then last.item else LastCall(steps[..|steps| - 1], t)
  }

  // What the callers of Append have put in, in the order in which their insertions took effect.
  function Put(steps: seq<Step>): seq<Item> {
    if steps == [] then []
    else
      var front, last := steps[..|steps| - 1], steps[|steps| - 1];
      if last.Insert? then Put(front) + [LastCall(front, last.t)] else Put(front)
  }

  // What a step hands back to a caller of Remove: the item that the thread has when it leaves.
  ghost function Handed(s: State, step: Step): seq<Item> {
    if step.Unlock? && step.t in s.pcs && s.pcs[step.t].RemoveRelease? then [s.pcs[step.t].item] else []
  }

  // What the first i steps have handed back.
  ghost function Got(states: seq<State>, steps: seq<Step>, i: nat): seq<Item>
    requires i <= |steps| <= |states|
  {
    if i == 0 then [] else Got(states, steps, i - 1) + Handed(states[i - 1], steps[i - 1])
  }

  // The item of a remover that has taken it and not yet left.
  ghost function InHand(s: State): seq<Item> {
    if s.lock.owner.Some? && s.lock.owner.value in s.pcs && s.pcs[s.lock.owner.value].RemoveRelease?
    then [s.pcs[s.lock.owner.value].item] else []
  }

  ghost predicate Calls(s: State, steps: seq<Step>) {
    forall t | t in s.pcs && (s.pcs[t].AppendAcquire? || s.pcs[t].AppendInsert?) :: s.pcs[t].item == LastCall(steps, t)
  }

  lemma PutSnoc(steps: seq<Step>, step: Step, t: Tid)
    ensures LastCall(steps + [step], t) == if step.StartAppend? && step.t == t then step.item else LastCall(steps, t)
    ensures Put(steps + [step]) == if step.Insert? then Put(steps) + [LastCall(steps, step.t)] else Put(steps)
  {
    assert (steps + [step])[..|steps|] == steps;
  }

  lemma CallsStep(s: State, step: Step, s': State, steps: seq<Step>)
    requires CondPart(s) && Next(s, step, s') && Calls(s, steps)
    ensures Calls(s', steps + [step])
  {
    forall t | t in s'.pcs && (s'.pcs[t].AppendAcquire? || s'.pcs[t].AppendInsert?)
      ensures s'.pcs[t].item == LastCall(steps + [step], t)
    {
      PutSnoc(steps, step, t);
    }
  }

  lemma PutStep(s: State, step: Step, s': State, steps: seq<Step>)
    requires Next(s, step, s') && Calls(s, steps) && s.appended == Put(steps)
    ensures s'.appended == Put(steps + [step])
  {
    PutSnoc(steps, step, step.t);
  }

  lemma HandStep(s: State, step: Step, s': State, got: seq<Item>)
    requires Inv(s) && LockPart(s') && Next(s, step, s') && s.removed == got + InHand(s)
    ensures s'.removed == got + Handed(s, step) + InHand(s')
  {
    var t := step.t;
    assert HoldsLock(s.pcs[t]) <==> s.lock.owner == Some(t);
    assert HoldsLock(s'.pcs[t]) <==> s'.lock.owner == Some(t);
    if step.Signal? && s.cond != [] {
      assert s.cond[0] in s.cond;
    }
  }

  lemma {:induction false} RunCalls(states: seq<State>, steps: seq<Step>, i: nat)
    requires Run(states, steps) && i < |states|
    ensures Calls(states[i], steps[..i]) && states[i].appended == Put(steps[..i])
  {
    if i > 0 {
      RunCalls(states, steps, i - 1);
      RunInv(states, steps, i - 1);
      assert steps[..i] == steps[..i - 1] + [steps[i - 1]];
      CallsStep(states[i - 1], steps[i - 1], states[i], steps[..i - 1]);
      PutStep(states[i - 1], steps[i - 1], states[i], steps[..i - 1]);
    }
  }

  lemma HandNext(states: seq<State>, steps: seq<Step>, i: nat, got: seq<Item>)
    requires Run(states, steps) && i < |steps| && states[i].removed == got + InHand(states[i])
    ensures states[i + 1].removed == got + Handed(states[i], steps[i]) + InHand(states[i + 1])
  {
    RunInv(states, steps, i);
    RunInv(states, steps, i + 1);
    HandStep(states[i], steps[i], states[i + 1], got);
  }

  lemma {:induction false} RunHanded(states: seq<State>, steps: seq<Step>, i: nat)
    requires Run(states, steps) && i < |states|
    ensures states[i].removed == Got(states, steps, i) + InHand(states[i])
  {
    if i > 0 {
      RunHanded(states, steps, i - 1);
      HandNext(states, steps, i - 1, Got(states, steps, i - 1));
    }
  }

  /** FIFO as the callers see it: what the calls of Remove have returned is, in order, a prefix of what the calls of
      Append have put in; the rest is on the list, but for one item in the hand of a remover about to return. */
  lemma CallersSeeFifo(states: seq<State>, steps: seq<Step>, i: nat)
    requires Run(states, steps) && i < |states|
    ensures Put(steps[..i]) == Got(states, steps, i) + InHand(states[i]) + states[i].list
  {
    RunCalls(states, steps, i);
    RunHanded(states, steps, i);
    RunInv(states, steps, i);
  }

  // --- the order in which sleepers are signalled

  function SignalsIn(steps: seq<Step>): nat {
    if steps == [] then 0 else SignalsIn(steps[..|steps| - 1]) + (if steps[|steps| - 1].Signal? then 1 else 0)
  }

  lemma SignalsSnoc(steps: seq<Step>, i: nat, j: nat)
    requires i < j <= |steps|
    ensures SignalsIn(steps[i..j]) == SignalsIn(steps[i..j - 1]) + (if steps[j - 1].Signal? then 1 else 0)
  {
    assert steps[i..j][..j - 1 - i] == steps[i..j - 1];
  }

  // What a step does to the queue of the condition.
  ghost predicate CondStep(s: State, step: Step, s': State) {
    s'.cond == if step.Wait? then s.cond + [step.t] else if step.Signal? && s.cond != [] then s.cond[1..] else s.cond
  }

  ghost predicate CondRun(states: seq<State>, steps: seq<Step>) {
    |states| == |steps| + 1 && forall i | 0 <= i < |steps| :: CondStep(states[i], steps[i], states[i + 1])
  }

  lemma NextIsCondStep(s: State, step: Step, s': State)
    requires Next(s, step, s')
    ensures CondStep(s, step, s')
    ensures step.Signal? && s.cond != [] ==> s.cond[0] in s'.pcs && s'.pcs[s.cond[0]] == RemoveAcquire(true)
  {
  }

  lemma RunIsCondRun(states: seq<State>, steps: seq<Step>)
    requires Run(states, steps)
    ensures CondRun(states, steps)
  {
    forall i | 0 <= i < |steps| ensures CondStep(states[i], steps[i], states[i + 1]) {
      NextIsCondStep(states[i], steps[i], states[i + 1]);
    }
  }

  // Thread t sleeps on the condition behind p others.
  ghost predicate CondAt(s: State, p: int, t: Tid) {
    0 <= p < |s.cond| && s.cond[p] == t
  }

  lemma CondUp(s: State, step: Step, s': State, p: int, t: Tid)
    requires CondStep(s, step, s') && CondAt(s, p, t) && (step.Signal? ==> p > 0)
    ensures CondAt(s', p - (if step.Signal? then 1 else 0), t)
  {
  }

  lemma {:induction false} CondPosition(states: seq<State>, steps: seq<Step>, i: nat, j: nat)
    requires CondRun(states, steps) && i < j <= |steps| && steps[i].Wait?
    requires SignalsIn(steps[i + 1..j]) <= |states[i].cond|
    ensures CondAt(states[j], |states[i].cond| - SignalsIn(steps[i + 1..j]), steps[i].t)
    decreases j
  {
    if j == i + 1 {
      assert CondStep(states[i], steps[i], states[i + 1]);
    } else {
      SignalsSnoc(steps, i + 1, j);
      CondPosition(states, steps, i, j - 1);
      CondUp(states[j - 1], steps[j - 1], states[j - 1 + 1], |states[i].cond| - SignalsIn(steps[i + 1..j - 1]), steps[i].t);
    }
  }

  /** First come, first signalled: a remover that goes to sleep while k others sleep on the condition sleeps until the
      (k + 1)-th signal from then on, and that one wakes it. */
  lemma SignalledAtItsTurn(states: seq<State>, steps: seq<Step>, i: nat, j: nat)
    requires Run(states, steps) && i < j <= |steps| && steps[i].Wait?
    requires SignalsIn(steps[i + 1..j]) <= |states[i].cond|
    ensures steps[i].t in states[j].pcs && states[j].pcs[steps[i].t] == Sleeping
    ensures j < |steps| && steps[j].Signal? && SignalsIn(steps[i + 1..j]) == |states[i].cond| ==>
      steps[i].t in states[j + 1].pcs && states[j + 1].pcs[steps[i].t] == RemoveAcquire(true)
  {
    RunIsCondRun(states, steps);
    CondPosition(states, steps, i, j);
    RunInv(states, steps, j);
    assert steps[i].t in states[j].cond;
    if j < |steps| {
      NextIsCondStep(states[j], steps[j], states[j + 1]);
    }
  }

  /** One thread at a time is between acquiring the lock and releasing it, and a remover that
      has found an item still finds it when it takes it. */
  lemma OneThreadInside(states: seq<State>, steps: seq<Step>, i: nat, t: Tid, u: Tid)
    requires Run(states, steps) && i < |states| && t in states[i].pcs && u in states[i].pcs
    ensures HoldsLock(states[i].pcs[t]) && HoldsLock(states[i].pcs[u]) ==> t == u
    ensures states[i].pcs[t].RemoveTake? ==> states[i].list != []
  {
    RunInv(states, steps, i);
  }

  /** No wakeup is lost: in every state in which threads sleep on the condition, the list is no
      longer than the number of signalled waiters that have yet to look at it, plus the one item
      of an appender that has inserted and not yet signalled. */
  lemma NoLostWakeup(states: seq<State>, steps: seq<Step>, i: nat)
    requires Run(states, steps) && i < |states|
    ensures states[i].cond != [] ==> |states[i].list| <= |Signalled(states[i])| + Unsignalled(states[i])
    ensures (forall t | t in states[i].pcs :: states[i].pcs[t] != AppendSignal) ==> Unsignalled(states[i]) == 0
  {
    RunInv(states, steps, i);
  }

  ghost predicate Effective(s: State, step: Step) {
    && !step.StartAppend? && !step.StartRemove?
    && (exists s' :: Next(s, step, s'))
    && (step.TryLock? ==> s.lock.sem.value > 0)
  }

  // A thread that is neither idle nor asleep on the condition, and not waiting for the lock.
  lemma HolderMoves(s: State, t: Tid) returns (step: Step)
    requires Inv(s) && t in s.pcs && HoldsLock(s.pcs[t])
    ensures Effective(s, step)
  {
    var pc, s' := s.pcs[t], s;
    match pc {
      case AppendInsert(item) =>
        step := Insert(t);
        s' := s.(list := s.list + [item], appended := s.appended + [item], pcs := s.pcs[t := AppendSignal]);
      case AppendSignal =>
        step := Signal(t);
        s' := if s.cond == [] then s.(pcs := s.pcs[t := AppendRelease])
              else s.(cond := s.cond[1..], pcs := s.pcs[t := AppendRelease][s.cond[0] := RemoveAcquire(true)]);
      case RemoveTest(again) =>
        step := Test(t);
        s' := s.(pcs := s.pcs[t := if s.list == [] then RemoveWait(again) else RemoveTake(again)]);
      case RemoveWait(_) =>
        step := Wait(t);
        s' := s.(lock := Release(s.lock), cond := s.cond + [t], pcs := s.pcs[t := Sleeping]);
      case RemoveTake(_) =>
        step := Take(t);
        s' := s.(list := s.list[1..], removed := s.removed + [s.list[0]], pcs := s.pcs[t := RemoveRelease(s.list[0])]);
      case _ =>
        step := Unlock(t);
        s' := s.(lock := Release(s.lock), pcs := s.pcs[t := Idle]);
    }
    assert Next(s, step, s');
  }

  /** Progress: unless every thread is idle or asleep on an empty list, some thread can take a
      step that is not a failed retry.  In particular no one sleeps on for ever next to an item. */
  lemma NeverStuck(s: State, t: Tid) returns (step: Step)
    requires Inv(s) && t in s.pcs && s.pcs[t] != Idle
    requires s.pcs[t] == Sleeping ==> s.list != []
    ensures Effective(s, step)
  {
    if s.lock.owner.Some? {
      step := HolderMoves(s, s.lock.owner.value);
    } else {
      var u := t;
      if s.pcs[t] == Sleeping {
        assert |Signalled(s)| > 0;
        u :| u in Signalled(s);
      }
      if u in s.lock.sem.queue {
        u := AvailableHasWoken(s.lock.sem);
      }
      step := TryLock(u);
      var pc := s.pcs[u];
      assert Next(s, step, s.(lock := TryAcquire(s.lock, u).0,
        pcs := s.pcs[u := if pc.AppendAcquire? then AppendInsert(pc.item) else RemoveTest(pc.again)]));
    }
  }
}
