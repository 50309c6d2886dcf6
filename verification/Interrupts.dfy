/** The simulated clock and its interrupt queue (machine/interrupt.cc): OneTick, Idle, SetLevel,
    Schedule and CheckIfDue, over the kernel's linked list.

    Interrupt handlers belong to the devices.  They are one function of the devices' state, the
    interrupt and the time; it gives the new device state, what the handler schedules and whether
    it asks for a context switch.  `scheduled` and `fired` record the whole run. */
module Interrupts {
  import opened Basics
  import opened Lists

  datatype Kind = TimerInt | DiskInt | ConsoleWriteInt | ConsoleReadInt | NetworkSendInt | NetworkRecvInt
  datatype Status = IdleMode | SystemMode | UserMode
  datatype Level = IntOff | IntOn

  // id tells apart the objects Schedule allocates.
  datatype Pending = Pending(id: nat, arg: int, when: int, kind: Kind)
  // asked: the handler asked for a context switch.
  datatype Firing = Firing(what: Pending, at: int, asked: bool)

  // Schedule asserts fromNow > 0.
  datatype Request_ = Request(arg: int, fromNow: int, kind: Kind)
  type Request = r: Request_ | r.fromNow > 0 witness Request(0, 1, TimerInt)

  datatype Reply<W> = Reply(world: W, requests: seq<Request>, wantsYield: bool)
  type Handler<!W> = (W, Pending, int) -> Reply<W>

  const USER_TICK := 1
  const SYSTEM_TICK := 10

  datatype State<W> = State(
    world: W, queue: seq<Item<Pending>>, total: int, idle: int, system: int, user: int,
    status: Status, level: Level, yieldOnReturn: bool, scheduled: seq<Pending>, fired: seq<Firing>)

  function Init<W>(world: W): State<W> {
    State(world, [], 0, 0, 0, 0, SystemMode, IntOff, false, [], [])
  }

  // ---- the operations on values ----

  function NewPending<W>(s: State<W>, r: Request): Pending {
    Pending(|s.scheduled|, r.arg, s.total + r.fromNow, r.kind)
  }

  function Schedule<W>(s: State<W>, r: Request): State<W> {
    var p := NewPending(s, r);
    s.(queue := Insert(s.queue, Item(p, p.when)), scheduled := s.scheduled + [p])
  }

  function ScheduleAll<W>(s: State<W>, rs: seq<Request>): State<W>
    decreases |rs|
  {
    if rs == [] then s else ScheduleAll(Schedule(s, rs[0]), rs[1..])
  }

  // The first pending interrupt is taken off the queue ...
  function Taken<W>(h: Handler<W>, s: State<W>): State<W>
    requires s.queue != []
  {
    var p := s.queue[0].thing;
    var reply := h(s.world, p, s.total);
    s.(queue := s.queue[1..], world := reply.world, fired := s.fired + [Firing(p, s.total, reply.wantsYield)],
       yieldOnReturn := s.yieldOnReturn || reply.wantsYield)
  }

  // ... and its handler schedules what it wants.
  function Fire<W>(h: Handler<W>, s: State<W>): State<W>
    requires s.queue != []
  {
    ScheduleAll(Taken(h, s), h(s.world, s.queue[0].thing, s.total).requests)
  }

  predicate LoneTimer<W>(s: State<W>) {
    |s.queue| == 1 && s.queue[0].thing.kind == TimerInt
  }

  predicate Due<W>(s: State<W>) {
    s.queue != [] && s.queue[0].key <= s.total
  }

  // Idle skips to the time of the first pending interrupt.
  function Advance<W>(s: State<W>): State<W> {
    if s.queue == [] || Due(s) then s
    else s.(idle := s.idle + (s.queue[0].key - s.total), total := s.queue[0].key)
  }

  function Looked<W>(s: State<W>, advanceClock: bool): State<W> {
    if advanceClock then Advance(s) else s
  }

  predicate Fires<W>(s: State<W>) {
    Due(s) && !(s.status == IdleMode && LoneTimer(s))
  }

  // One call of CheckIfDue(FALSE) that fires takes one due interrupt away and adds none.
  function DueCount(q: seq<Item<Pending>>, now: int): nat {
    if q == [] then 0 else (if q[0].key <= now then 1 else 0) + DueCount(q[1..], now)
  }

  lemma {:induction false} InsertLater(q: seq<Item<Pending>>, x: Item<Pending>, now: int)
    requires x.key > now
    ensures DueCount(Insert(q, x), now) == DueCount(q, now)
  {
    if q != [] && x.key >= q[0].key {
      InsertLater(q[1..], x, now);
      assert Insert(q, x)[1..] == Insert(q[1..], x);
    } else {
      assert Insert(q, x)[1..] == q;
    }
  }

  lemma {:induction false} ScheduleLater<W>(s: State<W>, rs: seq<Request>)
    ensures ScheduleAll(s, rs).total == s.total && ScheduleAll(s, rs).status == s.status
    ensures ScheduleAll(s, rs).level == s.level
    ensures DueCount(ScheduleAll(s, rs).queue, s.total) == DueCount(s.queue, s.total)
    decreases |rs|
  {
    if rs != [] {
      InsertLater(s.queue, Item(NewPending(s, rs[0]), NewPending(s, rs[0]).when), s.total);
      ScheduleLater(Schedule(s, rs[0]), rs[1..]);
    }
  }

  lemma FireCounts<W>(h: Handler<W>, s: State<W>)
    requires s.queue != []
    ensures Fire(h, s).total == s.total && Fire(h, s).status == s.status && Fire(h, s).level == s.level
    ensures Due(s) ==> DueCount(Fire(h, s).queue, s.total) < DueCount(s.queue, s.total)
  {
    ScheduleLater(Taken(h, s), h(s.world, s.queue[0].thing, s.total).requests);
  }

  // CheckIfDue that does not fire takes the first interrupt off the queue and puts it back, now
  // behind those of the same time.
  function Recheck<W>(s: State<W>): State<W> {
    if s.queue == [] then s else s.(queue := Insert(s.queue[1..], s.queue[0]))
  }

  // `while (CheckIfDue(FALSE));`
  function Drain<W>(h: Handler<W>, s: State<W>): State<W>
    decreases DueCount(s.queue, s.total)
  {
    if !Fires(s) then Recheck(s) else FireCounts(h, s); Drain(h, Fire(h, s))
  }

  lemma DrainStep<W>(h: Handler<W>, s: State<W>)
    ensures Drain(h, s) == if Fires(s) then Drain(h, Fire(h, s)) else Recheck(s)
    ensures Fires(s) ==> DueCount(Fire(h, s).queue, Fire(h, s).total) < DueCount(s.queue, s.total)
    ensures Fires(s) ==> Fire(h, s).level == s.level
  {
    if Fires(s) {
      FireCounts(h, s);
    }
  }

  function Clocked<W>(s: State<W>): State<W> {
    if s.status == SystemMode then s.(total := s.total + SYSTEM_TICK, system := s.system + SYSTEM_TICK)
    else s.(total := s.total + USER_TICK, user := s.user + USER_TICK)
  }

  // The caller yields when the result's flag was set; the flag is then clear.
  function Tick<W>(h: Handler<W>, s: State<W>): State<W> {
    Drain(h, Clocked(s).(level := IntOff)).(level := IntOn, yieldOnReturn := false)
  }

  predicate IdleFires<W>(s: State<W>) {
    s.queue != [] && !LoneTimer(s)
  }

  // With nothing but a timer pending, or nothing at all, the machine halts.
  function Idle<W>(h: Handler<W>, s: State<W>): State<W> {
    var s1 := Advance(s.(status := IdleMode));
    if IdleFires(s) then Drain(h, Fire(h, s1)).(yieldOnReturn := false, status := SystemMode) else Recheck(s1)
  }

  lemma IdleCases<W>(h: Handler<W>, s: State<W>)
    ensures Fires(Looked(s.(status := IdleMode), true)) <==> IdleFires(s)
    ensures IdleFires(s) ==> Fire(h, Looked(s.(status := IdleMode), true)).level == s.level
  {
    if IdleFires(s) {
      FireCounts(h, Looked(s.(status := IdleMode), true));
    }
  }

  function SetLevel<W>(h: Handler<W>, s: State<W>, now: Level): State<W> {
    if now == IntOn && s.level == IntOff then Tick(h, s.(level := IntOn)) else s.(level := now)
  }

  // ---- runs ----

  datatype Op = DoSchedule(r: Request) | DoTick | DoIdle | DoSetLevel(now: Level) | EnterUser | EnterKernel

  // Between operations the machine is idle only once it has halted.
  function Apply<W>(h: Handler<W>, s: State<W>, op: Op): State<W> {
    if s.status == IdleMode then s else
    match op
    case DoSchedule(r) => Schedule(s, r)
    case DoTick => Tick(h, s)
    case DoIdle => Idle(h, s)
    case DoSetLevel(now) => SetLevel(h, s, now)
    case EnterUser => s.(status := UserMode)
    case EnterKernel => s.(status := SystemMode)
  }

  function Run<W>(h: Handler<W>, s: State<W>, ops: seq<Op>): State<W> {
    if ops == [] then s else Apply(h, Run(h, s, ops[..|ops| - 1]), ops[|ops| - 1])
  }

  // ---- the counters ----

  ghost predicate SameCounters<W>(s: State<W>, s': State<W>) {
    s'.total == s.total && s'.user == s.user && s'.system == s.system && s'.idle == s.idle
  }

  lemma {:induction false} ScheduleCounters<W>(s: State<W>, rs: seq<Request>)
    ensures SameCounters(s, ScheduleAll(s, rs)) && ScheduleAll(s, rs).status == s.status
    decreases |rs|
  {
    if rs != [] {
      ScheduleCounters(Schedule(s, rs[0]), rs[1..]);
    }
  }

  // Handlers do not touch the counters.
  lemma {:induction false} DrainCounters<W>(h: Handler<W>, s: State<W>)
    ensures SameCounters(s, Drain(h, s)) && Drain(h, s).status == s.status
    decreases DueCount(s.queue, s.total)
  {
    if Fires(s) {
      FireCounts(h, s);
      ScheduleCounters(Taken(h, s), h(s.world, s.queue[0].thing, s.total).requests);
      DrainCounters(h, Fire(h, s));
    }
  }

  /** A tick in user mode is one user tick, any other tick is ten system ticks; whatever fires adds none. */
  lemma TickCounts<W>(h: Handler<W>, s: State<W>)
    ensures s.status == UserMode ==>
      Tick(h, s).user == s.user + 1 && Tick(h, s).system == s.system && Tick(h, s).total == s.total + 1
    ensures s.status == SystemMode ==>
      Tick(h, s).system == s.system + 10 && Tick(h, s).user == s.user && Tick(h, s).total == s.total + 10
    ensures Tick(h, s).idle == s.idle && Tick(h, s).status == s.status
  {
    DrainCounters(h, Clocked(s).(level := IntOff));
  }

  // Idle adds the time skipped, if any, to the idle ticks alone.
  lemma IdleCounts<W>(h: Handler<W>, s: State<W>)
    ensures Idle(h, s).user == s.user && Idle(h, s).system == s.system
    ensures Idle(h, s).total == if s.queue == [] || Due(s) then s.total else s.queue[0].key
    ensures Idle(h, s).idle - s.idle == Idle(h, s).total - s.total
  {
    var s1 := Advance(s.(status := IdleMode));
    if IdleFires(s) {
      ScheduleCounters(Taken(h, s1), h(s1.world, s1.queue[0].thing, s1.total).requests);
      DrainCounters(h, Fire(h, s1));
    }
  }

  // Whether an operation takes a tick: OneTick itself, and enabling interrupts that were off.
  predicate Ticks<W>(s: State<W>, op: Op) {
    s.status != IdleMode && (op == DoTick || (op == DoSetLevel(IntOn) && s.level == IntOff))
  }

  // How many ticks a run takes in the given mode.
  function TicksIn<W>(h: Handler<W>, s: State<W>, ops: seq<Op>, mode: Status): nat {
    if ops == [] then 0
    else
      var before := Run(h, s, ops[..|ops| - 1]);
      TicksIn(h, s, ops[..|ops| - 1], mode) + (if Ticks(before, ops[|ops| - 1]) && before.status == mode then 1 else 0)
  }

  lemma ApplyCounts<W>(h: Handler<W>, s: State<W>, op: Op)
    ensures Apply(h, s, op).user == s.user + (if Ticks(s, op) && s.status == UserMode then 1 else 0)
    ensures Apply(h, s, op).system == s.system + (if Ticks(s, op) && s.status == SystemMode then 10 else 0)
    ensures !op.DoIdle? ==> Apply(h, s, op).idle == s.idle
  {
    if s.status != IdleMode {
      match op
      case DoTick => TickCounts(h, s);
      case DoIdle => IdleCounts(h, s);
      case DoSetLevel(_) => TickCounts(h, s.(level := IntOn));
      case _ =>
    }
  }

  /** Over every run the user counter grows by the number of ticks taken in user mode, and the system counter by ten
      times the number of those taken in system mode. */
  lemma {:induction false} RunCounts<W>(h: Handler<W>, s: State<W>, ops: seq<Op>)
    ensures Run(h, s, ops).user == s.user + TicksIn(h, s, ops, UserMode)
    ensures Run(h, s, ops).system == s.system + 10 * TicksIn(h, s, ops, SystemMode)
  {
    if ops != [] {
      RunCounts(h, s, ops[..|ops| - 1]);
      ApplyCounts(h, Run(h, s, ops[..|ops| - 1]), ops[|ops| - 1]);
    }
  }

  // ---- what every step keeps ----

  ghost predicate QueueOk(q: seq<Item<Pending>>) {
    Sorted(q) && forall x <- q :: x.key == x.thing.when
  }

  // Fired in order of due time, never early, at most one system tick late.
  ghost predicate FiredOk(f: seq<Firing>) {
    && (forall i :: 0 <= i < |f| ==> f[i].what.when <= f[i].at <= f[i].what.when + SYSTEM_TICK)
    && (forall i, j :: 0 <= i < j < |f| ==> f[i].what.when <= f[j].what.when)
  }

  // What has fired was due by time t.
  ghost predicate FiredBy(f: seq<Firing>, t: int) {
    forall i :: 0 <= i < |f| ==> f[i].what.when <= t
  }

  // What is pending is due at time t or later.
  ghost predicate PendingFrom(q: seq<Item<Pending>>, t: int) {
    forall x <- q :: t <= x.key
  }

  function Whats(f: seq<Firing>): (t: seq<Pending>)
    ensures |t| == |f| && forall i :: 0 <= i < |f| ==> t[i] == f[i].what
  {
    if f == [] then [] else Whats(f[..|f| - 1]) + [f[|f| - 1].what]
  }

  // Everything scheduled is either pending or fired.
  ghost predicate Conserved(scheduled: seq<Pending>, f: seq<Firing>, q: seq<Item<Pending>>) {
    multiset(scheduled) == multiset(Whats(f)) + multiset(Things(q))
  }

  ghost predicate Numbered(scheduled: seq<Pending>) {
    forall i :: 0 <= i < |scheduled| ==> scheduled[i].id == i
  }

  // The last fired was due at `last`, which is no later than anything pending.
  ghost predicate OrderOk<W>(s: State<W>, last: int) {
    FiredOk(s.fired) && FiredBy(s.fired, last) && PendingFrom(s.queue, last) && last <= s.total
  }

  ghost predicate Inv<W>(s: State<W>, late: int) {
    && QueueOk(s.queue) && PendingFrom(s.queue, s.total - late)
    && (exists last :: OrderOk(s, last))
    && Conserved(s.scheduled, s.fired, s.queue) && Numbered(s.scheduled)
    && s.total == s.idle + s.system + s.user
  }

  lemma {:induction false} ThingsInsert(q: seq<Item<Pending>>, x: Item<Pending>)
    ensures multiset(Things(Insert(q, x))) == multiset(Things(q)) + multiset{x.thing}
  {
    if q != [] && x.key >= q[0].key {
      ThingsInsert(q[1..], x);
      assert Insert(q, x)[1..] == Insert(q[1..], x);
    } else {
      assert Insert(q, x)[1..] == q;
    }
  }

  lemma InsertOk(q: seq<Item<Pending>>, p: Pending)
    requires QueueOk(q)
    ensures QueueOk(Insert(q, Item(p, p.when)))
    ensures forall t :: PendingFrom(q, t) && t <= p.when ==> PendingFrom(Insert(q, Item(p, p.when)), t)
  {
    var item := Item(p, p.when);
    InsertSorted(q, item);
    forall x
      ensures x in Insert(q, item) <==> x == item || x in q
    {
      InsertMembers(q, item, x);
    }
  }

  lemma AddConserved(scheduled: seq<Pending>, f: seq<Firing>, q: seq<Item<Pending>>, p: Pending)
    requires Conserved(scheduled, f, q)
    ensures Conserved(scheduled + [p], f, Insert(q, Item(p, p.when)))
  {
    ThingsInsert(q, Item(p, p.when));
  }

  lemma ScheduleInv<W>(s: State<W>, r: Request, late: nat)
    requires Inv(s, late)
    ensures Inv(Schedule(s, r), late) && Schedule(s, r).total == s.total
  {
    var p := NewPending(s, r);
    InsertOk(s.queue, p);
    AddConserved(s.scheduled, s.fired, s.queue, p);
    var last :| OrderOk(s, last);
    assert OrderOk(Schedule(s, r), last);
  }

  lemma {:induction false} ScheduleAllInv<W>(s: State<W>, rs: seq<Request>, late: nat)
    requires Inv(s, late)
    ensures Inv(ScheduleAll(s, rs), late)
    decreases |rs|
  {
    if rs != [] {
      ScheduleInv(s, rs[0], late);
      ScheduleAllInv(Schedule(s, rs[0]), rs[1..], late);
    }
  }

  lemma FirstIsFirst(q: seq<Item<Pending>>)
    requires QueueOk(q) && q != []
    ensures QueueOk(q[1..]) && PendingFrom(q, q[0].key) && PendingFrom(q[1..], q[0].key)
    ensures q[0].key == q[0].thing.when
    ensures forall t :: PendingFrom(q, t) ==> t <= q[0].key && PendingFrom(q[1..], t)
  {
    assert q[0] in q;
    assert forall x <- q[1..] :: x in q;
  }

  lemma TakeOrder<W>(s: State<W>, s': State<W>)
    requires QueueOk(s.queue) && Due(s) && PendingFrom(s.queue, s.total - SYSTEM_TICK)
    requires exists last :: OrderOk(s, last)
    requires s'.queue == s.queue[1..] && s'.total == s.total
    requires |s'.fired| > 0 && s'.fired == s.fired + [Firing(s.queue[0].thing, s.total, s'.fired[|s'.fired| - 1].asked)]
    ensures OrderOk(s', s.queue[0].key)
  {
    FirstIsFirst(s.queue);
    var last :| OrderOk(s, last);
  }

  lemma TakeConserved(scheduled: seq<Pending>, f: seq<Firing>, q: seq<Item<Pending>>, at: int, asked: bool)
    requires q != [] && Conserved(scheduled, f, q)
    ensures Conserved(scheduled, f + [Firing(q[0].thing, at, asked)], q[1..])
  {
    var f' := f + [Firing(q[0].thing, at, asked)];
    assert f'[..|f'| - 1] == f;
  }

  lemma FireInv<W>(h: Handler<W>, s: State<W>, late: nat)
    requires Inv(s, late) && Due(s) && late <= SYSTEM_TICK
    ensures Inv(Fire(h, s), late)
  {
    FirstIsFirst(s.queue);
    assert PendingFrom(s.queue, s.total - SYSTEM_TICK);
    TakeOrder(s, Taken(h, s));
    TakeConserved(s.scheduled, s.fired, s.queue, s.total, h(s.world, s.queue[0].thing, s.total).wantsYield);
    ScheduleAllInv(Taken(h, s), h(s.world, s.queue[0].thing, s.total).requests, late);
  }

  lemma RecheckInv<W>(s: State<W>, late: int)
    requires Inv(s, late)
    ensures Inv(Recheck(s), late) && (Due(Recheck(s)) <==> Due(s)) && (LoneTimer(Recheck(s)) <==> LoneTimer(s))
  {
    if s.queue != [] {
      RotatedOk(s.queue);
      Rotated(s.queue);
      assert Conserved(s.scheduled, s.fired, Recheck(s).queue);
      var last :| OrderOk(s, last);
      assert OrderOk(Recheck(s), last);
    }
  }

  lemma RotatedOk(q: seq<Item<Pending>>)
    requires QueueOk(q) && q != []
    ensures QueueOk(Insert(q[1..], q[0])) && multiset(Things(Insert(q[1..], q[0]))) == multiset(Things(q))
    ensures forall t :: PendingFrom(q, t) ==> PendingFrom(Insert(q[1..], q[0]), t)
  {
    FirstIsFirst(q);
    InsertOk(q[1..], q[0].thing);
    ThingsInsert(q[1..], q[0]);
  }

  lemma Rotated(q: seq<Item<Pending>>)
    requires Sorted(q) && q != []
    ensures var q' := Insert(q[1..], q[0]); |q'| == |q| && q'[0].key == q[0].key && (|q| == 1 ==> q' == q)
  {
    var k := HasPlace(q[1..], q[0]);
    if k > 0 {
      assert q[1..][0] == q[1];
    }
  }

  lemma {:induction false} DrainInv<W>(h: Handler<W>, s: State<W>, late: nat)
    requires Inv(s, late) && late <= SYSTEM_TICK
    ensures Inv(Drain(h, s), late)
    ensures Drain(h, s).total == s.total && Drain(h, s).status == s.status && !Fires(Drain(h, s))
    decreases DueCount(s.queue, s.total)
  {
    if Fires(s) {
      FireCounts(h, s);
      FireInv(h, s, late);
      DrainInv(h, Fire(h, s), late);
    } else {
      RecheckInv(s, late);
    }
  }

  lemma ClockedInv<W>(s: State<W>)
    requires Inv(s, 0)
    ensures Inv(Clocked(s), SYSTEM_TICK)
  {
    var last :| OrderOk(s, last);
    assert OrderOk(Clocked(s), last);
  }

  lemma AdvanceInv<W>(s: State<W>)
    requires Inv(s, 0)
    ensures Inv(Advance(s), 0) && (s.queue != [] ==> Due(Advance(s)))
  {
    if s.queue != [] {
      FirstIsFirst(s.queue);
      var last :| OrderOk(s, last);
      assert OrderOk(Advance(s), last);
    }
  }

  lemma RelaxInv<W>(s: State<W>, late: int)
    requires Inv(s, late) && !Due(s)
    ensures Inv(s, 0)
  {
    if s.queue != [] {
      FirstIsFirst(s.queue);
    }
  }

  // Fields the invariant does not mention.
  lemma FlagsInv<W>(s: State<W>, s': State<W>, late: int)
    requires Inv(s, late)
    requires s' == s.(level := s'.level, status := s'.status, yieldOnReturn := s'.yieldOnReturn)
    ensures Inv(s', late)
  {
    var last :| OrderOk(s, last);
    assert OrderOk(s', last);
  }

  /** OneTick's loop ends with nothing due. */
  lemma TickInv<W>(h: Handler<W>, s: State<W>)
    requires Inv(s, 0) && s.status != IdleMode
    ensures Inv(Tick(h, s), 0) && !Due(Tick(h, s)) && Tick(h, s).status == s.status
  {
    var s1 := Clocked(s).(level := IntOff);
    ClockedInv(s);
    FlagsInv(Clocked(s), s1, SYSTEM_TICK);
    DrainInv(h, s1, SYSTEM_TICK);
    RelaxInv(Drain(h, s1), SYSTEM_TICK);
    FlagsInv(Drain(h, s1), Tick(h, s), 0);
  }

  // The handlers of q, called in order, ask for nothing.
  predicate Silent<W>(h: Handler<W>, world: W, q: seq<Item<Pending>>, now: int)
    decreases |q|
  {
    q == [] || (var reply := h(world, q[0].thing, now); reply.requests == [] && Silent(h, reply.world, q[1..], now))
  }

  predicate AllDue(q: seq<Item<Pending>>, now: int) {
    forall i :: 0 <= i < |q| ==> q[i].key <= now
  }

  lemma AllDueTail(q: seq<Item<Pending>>, now: int)
    requires q != []
    ensures AllDue(q, now) <==> q[0].key <= now && AllDue(q[1..], now)
  {
    assert forall i :: 0 <= i < |q| - 1 ==> q[1..][i] == q[i + 1];
    if AllDue(q[1..], now) {
      assert forall i :: 0 < i < |q| ==> q[i] == q[1..][i - 1];
    }
  }

  // Everything pending is due now, a timer interrupt comes last, and the handlers of all the
  // others schedule nothing.
  predicate TimerLeft<W>(h: Handler<W>, s: State<W>) {
    && s.queue != [] && AllDue(s.queue, s.total)
    && s.queue[|s.queue| - 1].thing.kind == TimerInt
    && Silent(h, s.world, s.queue[..|s.queue| - 1], s.total)
  }

  lemma {:induction false} RequestsStay<W>(s: State<W>, rs: seq<Request>)
    ensures forall x <- s.queue :: x in ScheduleAll(s, rs).queue
    ensures rs != [] ==> exists x <- ScheduleAll(s, rs).queue :: x.key > s.total
    decreases |rs|
  {
    if rs != [] {
      var p := NewPending(s, rs[0]);
      var x := Item(p, p.when);
      forall y
        ensures y in Insert(s.queue, x) <==> y == x || y in s.queue
      {
        InsertMembers(s.queue, x, y);
      }
      RequestsStay(Schedule(s, rs[0]), rs[1..]);
      assert x in Schedule(s, rs[0]).queue && x.key > s.total;
    }
  }

  // One firing does not change whether the timer will be left.
  lemma FireTimerLeft<W>(h: Handler<W>, s: State<W>)
    requires Sorted(s.queue) && Fires(s) && s.status == IdleMode
    ensures TimerLeft(h, Fire(h, s)) <==> TimerLeft(h, s)
  {
    var q, reply := s.queue, h(s.world, s.queue[0].thing, s.total);
    AllDueTail(q, s.total);
    FireGrows(h, s);
    FireCounts(h, s);
    RequestsStay(Taken(h, s), reply.requests);
    if reply.requests != [] {
      var x :| x in Fire(h, s).queue && x.key > s.total;
      assert !TimerLeft(h, Fire(h, s));
    } else {
      assert Fire(h, s).queue == q[1..];
    }
    if |q| > 1 {
      assert q[1..][..|q| - 2] == q[..|q| - 1][1..];
      assert q[..|q| - 1][0] == q[0];
    }
  }

  /** In idle mode the loop leaves something due exactly when the timer is left. */
  lemma {:induction false} DrainLeavesIff<W>(h: Handler<W>, s: State<W>)
    requires Inv(s, 0) && s.status == IdleMode
    ensures Due(Drain(h, s)) <==> TimerLeft(h, s)
    decreases DueCount(s.queue, s.total)
  {
    DrainStep(h, s);
    if Fires(s) {
      FireCounts(h, s);
      FireInv(h, s, 0);
      FireTimerLeft(h, s);
      DrainLeavesIff(h, Fire(h, s));
    } else {
      RecheckInv(s, 0);
    }
  }

  /** Idle halts exactly when nothing, or one timer interrupt, is pending.  Otherwise it leaves
      something due exactly when all that is pending is due at the time of the first, a timer
      interrupt is the last of them, and the handlers of the others schedule nothing: the loop,
      still in idle mode, puts that one back. */
  lemma IdleInv<W>(h: Handler<W>, s: State<W>)
    requires Inv(s, 0) && s.status != IdleMode
    ensures Inv(Idle(h, s), 0)
    ensures Idle(h, s).status == IdleMode <==> s.queue == [] || LoneTimer(s)
    ensures IdleFires(s) ==> |Idle(h, s).fired| > |s.fired|
    ensures IdleFires(s) ==> (Due(Idle(h, s)) <==> TimerLeft(h, Advance(s)))
  {
    var s0 := s.(status := IdleMode);
    FlagsInv(s, s0, 0);
    AdvanceInv(s0);
    if IdleFires(s) {
      IdleLeavesIff(h, s);
      FireInv(h, Advance(s0), 0);
      FireGrows(h, Advance(s0));
      FireCounts(h, Advance(s0));
      IdleDrain(h, Fire(h, Advance(s0)), Idle(h, s));
    } else {
      RecheckInv(Advance(s0), 0);
    }
  }

  lemma IdleLeavesIff<W>(h: Handler<W>, s: State<W>)
    requires Inv(s, 0) && IdleFires(s)
    ensures Due(Idle(h, s)) <==> TimerLeft(h, Advance(s))
  {
    var s0 := s.(status := IdleMode);
    FlagsInv(s, s0, 0);
    AdvanceInv(s0);
    DrainLeavesIff(h, Advance(s0));
    IdleIsDrain(h, s);
    SameQueue(h, Drain(h, Advance(s0)), Idle(h, s));
    SameQueue(h, Advance(s0), Advance(s));
  }

  lemma SameQueue<W>(h: Handler<W>, s: State<W>, s': State<W>)
    requires s'.queue == s.queue && s'.total == s.total && s'.world == s.world
    ensures (Due(s') <==> Due(s)) && (TimerLeft(h, s') <==> TimerLeft(h, s))
  {
  }

  lemma IdleIsDrain<W>(h: Handler<W>, s: State<W>)
    requires IdleFires(s)
    ensures Idle(h, s) ==
      Drain(h, Advance(s.(status := IdleMode))).(yieldOnReturn := false, status := SystemMode)
  {
    IdleCases(h, s);
    DrainStep(h, Advance(s.(status := IdleMode)));
  }

  lemma IdleDrain<W>(h: Handler<W>, s: State<W>, s': State<W>)
    requires Inv(s, 0) && s.status == IdleMode
    requires s' == Drain(h, s).(yieldOnReturn := false, status := SystemMode)
    ensures Inv(s', 0) && s.fired <= s'.fired
  {
    DrainInv(h, s, 0);
    DrainGrows(h, s);
    FlagsInv(Drain(h, s), s', 0);
  }

  lemma ApplyInv<W>(h: Handler<W>, s: State<W>, op: Op)
    requires Inv(s, 0)
    ensures Inv(Apply(h, s, op), 0)
  {
    if s.status != IdleMode {
      match op
      case DoSchedule(r) => ScheduleInv(s, r, 0);
      case DoTick => TickInv(h, s);
      case DoIdle => IdleInv(h, s);
      case DoSetLevel(now) =>
        FlagsInv(s, s.(level := now), 0);
        if now == IntOn && s.level == IntOff {
          TickInv(h, s.(level := now));
        }
      case EnterUser => FlagsInv(s, s.(status := UserMode), 0);
      case EnterKernel => FlagsInv(s, s.(status := SystemMode), 0);
    }
  }

  lemma {:induction false} RunInv<W>(h: Handler<W>, world: W, ops: seq<Op>)
    ensures Inv(Run(h, Init(world), ops), 0)
  {
    if ops == [] {
      assert OrderOk(Init(world), 0);
    } else {
      RunInv(h, world, ops[..|ops| - 1]);
      ApplyInv(h, Run(h, Init(world), ops[..|ops| - 1]), ops[|ops| - 1]);
    }
  }

  // ---- whole runs ----

  lemma {:induction false} ScheduleAllGrows<W>(s: State<W>, rs: seq<Request>)
    ensures ScheduleAll(s, rs).fired == s.fired && s.scheduled <= ScheduleAll(s, rs).scheduled
    ensures ScheduleAll(s, rs).yieldOnReturn == s.yieldOnReturn && ScheduleAll(s, rs).world == s.world
    decreases |rs|
  {
    if rs != [] {
      ScheduleAllGrows(Schedule(s, rs[0]), rs[1..]);
    }
  }

  lemma FireGrows<W>(h: Handler<W>, s: State<W>)
    requires s.queue != []
    ensures var reply := h(s.world, s.queue[0].thing, s.total);
      && Fire(h, s).fired == s.fired + [Firing(s.queue[0].thing, s.total, reply.wantsYield)]
      && Fire(h, s).yieldOnReturn == (s.yieldOnReturn || reply.wantsYield) && Fire(h, s).world == reply.world
    ensures s.scheduled <= Fire(h, s).scheduled
  {
    ScheduleAllGrows(Taken(h, s), h(s.world, s.queue[0].thing, s.total).requests);
  }

  lemma {:induction false} DrainGrows<W>(h: Handler<W>, s: State<W>)
    ensures s.fired <= Drain(h, s).fired && s.scheduled <= Drain(h, s).scheduled
    decreases DueCount(s.queue, s.total)
  {
    if Fires(s) {
      FireCounts(h, s);
      FireGrows(h, s);
      DrainGrows(h, Fire(h, s));
    }
  }

  // Some handler of the firings from the n-th on asked for a context switch.
  ghost predicate AskedFrom(f: seq<Firing>, n: nat) {
    exists i :: n <= i < |f| && f[i].asked
  }

  /** The flag is set in the end exactly when it was set before or a handler that ran asked for it. */
  lemma {:induction false} DrainYields<W>(h: Handler<W>, s: State<W>)
    ensures Drain(h, s).yieldOnReturn <==> s.yieldOnReturn || AskedFrom(Drain(h, s).fired, |s.fired|)
    decreases DueCount(s.queue, s.total)
  {
    DrainStep(h, s);
    if Fires(s) {
      var s1 := Fire(h, s);
      FireGrows(h, s);
      DrainYields(h, s1);
      DrainGrows(h, s1);
      AskedSplit(s1.fired, Drain(h, s1).fired);
    }
  }

  lemma AskedSplit(f: seq<Firing>, g: seq<Firing>)
    requires f != [] && f <= g
    ensures AskedFrom(g, |f| - 1) <==> f[|f| - 1].asked || AskedFrom(g, |f|)
  {
    assert g[|f| - 1] == f[|f| - 1];
  }

  /** No interrupt is lost and none fires twice: the interrupts fired and those pending are
      together exactly those scheduled, and the fired ones are all different. */
  lemma FiresOnce<W>(h: Handler<W>, world: W, ops: seq<Op>)
    ensures var s := Run(h, Init(world), ops);
      && multiset(s.scheduled) == multiset(Whats(s.fired)) + multiset(Things(s.queue))
      && forall i, j :: 0 <= i < j < |s.fired| ==> s.fired[i].what != s.fired[j].what
  {
    RunInv(h, world, ops);
    var s := Run(h, Init(world), ops);
    forall i, j | 0 <= i < j < |s.fired|
      ensures s.fired[i].what != s.fired[j].what
    {
      if s.fired[i].what == s.fired[j].what {
        TwiceInMultiset(Whats(s.fired), i, j);
        OnceInMultiset(s.scheduled, s.fired[i].what);
      }
    }
  }

  lemma TwiceInMultiset(t: seq<Pending>, i: nat, j: nat)
    requires i < j < |t| && t[i] == t[j]
    ensures multiset(t)[t[i]] >= 2
  {
    assert t == t[..j] + [t[j]] + t[j + 1..];
    assert t[i] in t[..j];
  }

  lemma {:induction false} OnceInMultiset(t: seq<Pending>, p: Pending)
    requires forall i :: 0 <= i < |t| ==> t[i].id == i
    ensures multiset(t)[p] <= 1
  {
    if t != [] {
      var n := |t| - 1;
      OnceInMultiset(t[..n], p);
      assert t == t[..n] + [t[n]];
      if t[n] == p {
        assert p !in t[..n];
      }
    }
  }

  /** Every interrupt fires at its time or up to one system tick later, in order of due time, and
      the tick counters add up. */
  lemma FiresOnTime<W>(h: Handler<W>, world: W, ops: seq<Op>)
    ensures var s := Run(h, Init(world), ops);
      && (forall f <- s.fired :: f.what.when <= f.at <= f.what.when + SYSTEM_TICK)
      && (forall i, j :: 0 <= i < j < |s.fired| ==> s.fired[i].what.when <= s.fired[j].what.when)
      && s.total == s.idle + s.system + s.user
  {
    RunInv(h, world, ops);
  }

  lemma ApplyGrows<W>(h: Handler<W>, s: State<W>, op: Op)
    ensures s.scheduled <= Apply(h, s, op).scheduled
  {
    if s.status != IdleMode {
      match op
      case DoTick => DrainGrows(h, Clocked(s).(level := IntOff));
      case DoIdle =>
        var s1 := Advance(s.(status := IdleMode));
        if IdleFires(s) {
          FireGrows(h, s1);
          DrainGrows(h, Fire(h, s1));
        }
      case DoSetLevel(_) => DrainGrows(h, Clocked(s.(level := IntOn)).(level := IntOff));
      case _ =>
    }
  }

  lemma {:induction false} RunGrows<W>(h: Handler<W>, s: State<W>, ops: seq<Op>, k: nat)
    requires k <= |ops|
    ensures Run(h, s, ops[..k]).scheduled <= Run(h, s, ops).scheduled
    decreases |ops|
  {
    if k == |ops| {
      assert ops[..k] == ops;
    } else {
      assert ops[..|ops| - 1][..k] == ops[..k];
      RunGrows(h, s, ops[..|ops| - 1], k);
      ApplyGrows(h, Run(h, s, ops[..|ops| - 1]), ops[|ops| - 1]);
    }
  }

  // What has been scheduled and is no longer pending has fired.
  lemma FiredOrPending(scheduled: seq<Pending>, f: seq<Firing>, q: seq<Item<Pending>>, p: Pending)
    requires Conserved(scheduled, f, q) && p in scheduled
    ensures (exists i :: 0 <= i < |q| && q[i].thing == p) || (exists i :: 0 <= i < |f| && f[i].what == p)
  {
    assert p in multiset(scheduled);
    assert p in Whats(f) || p in Things(q);
  }

  /** An interrupt asked for at time T, fromNow ticks ahead, fires no earlier than T + fromNow and at most one system
      tick later, in whatever the run does afterwards; once the clock is past its time, it has fired. */
  lemma FiresWhenAsked<W>(h: Handler<W>, world: W, ops: seq<Op>, k: nat) returns (p: Pending)
    requires k < |ops| && ops[k].DoSchedule? && Run(h, Init(world), ops[..k]).status != IdleMode
    ensures p.arg == ops[k].r.arg && p.kind == ops[k].r.kind
    ensures p.id == |Run(h, Init(world), ops[..k]).scheduled| && p in Run(h, Init(world), ops).scheduled
    ensures var due := Run(h, Init(world), ops[..k]).total + ops[k].r.fromNow;
      && (forall f <- Run(h, Init(world), ops).fired :: f.what.id == p.id ==> f.what == p && due <= f.at <= due + SYSTEM_TICK)
      && (Run(h, Init(world), ops).total > due ==> exists f <- Run(h, Init(world), ops).fired :: f.what == p)
  {
    var before, s := Run(h, Init(world), ops[..k]), Run(h, Init(world), ops);
    p := NewPending(before, ops[k].r);
    assert ops[..k + 1][..k] == ops[..k];
    RunGrows(h, Init(world), ops, k + 1);
    RunInv(h, world, ops);
    assert s.scheduled[p.id] == p;
    forall f | f in s.fired && f.what.id == p.id
      ensures f.what == p
    {
      FiredWasScheduled(s, f);
    }
    FiredOrPending(s.scheduled, s.fired, s.queue, p);
    if s.total > p.when && forall i :: 0 <= i < |s.queue| ==> s.queue[i].thing != p {
      var i :| 0 <= i < |s.fired| && s.fired[i].what == p;
      assert s.fired[i] in s.fired;
    }
  }

  lemma FiredWasScheduled<W>(s: State<W>, f: Firing)
    requires Conserved(s.scheduled, s.fired, s.queue) && Numbered(s.scheduled) && f in s.fired
    ensures 0 <= f.what.id < |s.scheduled| && s.scheduled[f.what.id] == f.what
  {
    var i :| 0 <= i < |s.fired| && s.fired[i] == f;
    assert Whats(s.fired)[i] == f.what;
    assert f.what in multiset(Whats(s.fired));
    assert f.what in multiset(s.scheduled);
  }

  // ---- ties ----

  // The first item goes behind those of its time: the queue stays as it is exactly when there
  // are none.
  lemma RotateSameIff(q: seq<Item<Pending>>)
    requires Sorted(q) && q != [] && (|q| >= 2 ==> q[0] != q[1])
    ensures Insert(q[1..], q[0]) == q <==> |q| < 2 || q[1].key != q[0].key
  {
    var k := HasPlace(q[1..], q[0]);
    if |q| >= 2 {
      assert q[1..][0] == q[1] && q[0].key <= q[1].key;
    }
  }

  lemma PendingDiffer<W>(s: State<W>, i: nat, j: nat)
    requires Conserved(s.scheduled, s.fired, s.queue) && Numbered(s.scheduled) && i < j < |s.queue|
    ensures s.queue[i] != s.queue[j]
  {
    if s.queue[i] == s.queue[j] {
      TwiceInMultiset(Things(s.queue), i, j);
      OnceInMultiset(s.scheduled, Things(s.queue)[i]);
    }
  }

  /** A tick for which nothing is due keeps the order of the queue exactly when the first two
      interrupts have different times.  Otherwise the first one falls behind its equals. */
  lemma TickKeepsOrderIff<W>(h: Handler<W>, s: State<W>)
    requires Inv(s, 0) && s.status != IdleMode && !Due(Clocked(s))
    ensures Tick(h, s).queue == s.queue <==> |s.queue| < 2 || s.queue[1].key != s.queue[0].key
  {
    var q := s.queue;
    if q != [] {
      if |q| >= 2 {
        PendingDiffer(s, 0, 1);
      }
      RotateSameIff(q);
    }
    DrainStep(h, Clocked(s).(level := IntOff));
  }

  lemma RunSnoc<W>(h: Handler<W>, s: State<W>, ops: seq<Op>, op: Op)
    ensures Run(h, s, ops + [op]) == Apply(h, Run(h, s, ops), op)
  {
    assert (ops + [op])[..|ops|] == ops;
  }

  // Two interrupts scheduled one after the other for the same time.
  lemma TwoScheduled<W>(h: Handler<W>, world: W, a: Request, b: Request)
    requires a.fromNow == b.fromNow
    ensures var s := Run(h, Init(world), [DoSchedule(a)] + [DoSchedule(b)]);
      && |s.scheduled| == 2 && s.total == 0 && s.status == SystemMode && s.world == world && s.fired == []
      && s.scheduled == [Pending(0, a.arg, a.fromNow, a.kind), Pending(1, b.arg, b.fromNow, b.kind)]
      && s.queue == [Item(s.scheduled[0], a.fromNow), Item(s.scheduled[1], a.fromNow)]
  {
    RunSnoc(h, Init(world), [], DoSchedule(a));
    assert [] + [DoSchedule(a)] == [DoSchedule(a)];
    RunSnoc(h, Init(world), [DoSchedule(a)], DoSchedule(b));
    var x, y := Item(Pending(0, a.arg, a.fromNow, a.kind), a.fromNow), Item(Pending(1, b.arg, b.fromNow, b.kind), a.fromNow);
    assert Insert([], x) == [x];
    InsertAt([x], y, 1);
  }

  /** Ties are not first come, first served: of two interrupts scheduled for the same time, the
      second fires first after a tick that comes too early for both. */
  lemma TiesSwap<W>(h: Handler<W>, world: W, a: Request, b: Request)
    requires a.fromNow == b.fromNow > SYSTEM_TICK
    ensures var s := Run(h, Init(world), [DoSchedule(a)] + [DoSchedule(b)] + [DoTick]);
      && |s.scheduled| == 2 && s.queue == [Item(s.scheduled[1], b.fromNow), Item(s.scheduled[0], a.fromNow)]
      && |Run(h, Init(world), [DoSchedule(a)] + [DoSchedule(b)] + [DoTick] + [DoIdle]).fired| > 0
      && Run(h, Init(world), [DoSchedule(a)] + [DoSchedule(b)] + [DoTick] + [DoIdle]).fired[0].what == s.scheduled[1]
  {
    TwoScheduled(h, world, a, b);
    RunSnoc(h, Init(world), [DoSchedule(a)] + [DoSchedule(b)], DoTick);
    RunSnoc(h, Init(world), [DoSchedule(a)] + [DoSchedule(b)] + [DoTick], DoIdle);
    var s := Run(h, Init(world), [DoSchedule(a)] + [DoSchedule(b)]);
    SwapTwo(h, s);
    FirstToFire(h, Tick(h, s));
  }

  lemma SwapTwo<W>(h: Handler<W>, s: State<W>)
    requires |s.queue| == 2 && s.queue[0].key == s.queue[1].key && !Due(Clocked(s))
    ensures Tick(h, s).queue == [s.queue[1], s.queue[0]] && Tick(h, s).scheduled == s.scheduled
    ensures Tick(h, s).fired == s.fired && Tick(h, s).status == s.status
  {
    DrainStep(h, Clocked(s).(level := IntOff));
    assert s.queue[1..] == [s.queue[1]];
    InsertAt(s.queue[1..], s.queue[0], 1);
  }

  lemma FirstToFire<W>(h: Handler<W>, s: State<W>)
    requires IdleFires(s) && s.fired == []
    ensures Idle(h, s).fired != [] && Idle(h, s).fired[0].what == s.queue[0].thing
  {
    var s1 := Advance(s.(status := IdleMode));
    FireGrows(h, s1);
    DrainGrows(h, Fire(h, s1));
  }

  /** Idle can leave a due timer interrupt behind: a disk and a timer interrupt for the same time,
      and handlers that schedule nothing. */
  lemma IdleLeavesTimer(a: Request, b: Request)
    requires a.fromNow == b.fromNow && a.kind == DiskInt && b.kind == TimerInt
    ensures Due(Run((w, p, t) => Reply(w, [], false), Init(()), [DoSchedule(a)] + [DoSchedule(b)] + [DoIdle]))
  {
    var h: Handler<()> := (w, p, t) => Reply(w, [], false);
    var s := Run(h, Init(()), [DoSchedule(a)] + [DoSchedule(b)]);
    TwoScheduled(h, (), a, b);
    RunInv(h, (), [DoSchedule(a)] + [DoSchedule(b)]);
    RunSnoc(h, Init(()), [DoSchedule(a)] + [DoSchedule(b)], DoIdle);
    TimerComesLast(h, Advance(s));
    IdleLeavesIff(h, s);
  }

  lemma TimerComesLast<W>(h: Handler<W>, s: State<W>)
    requires |s.queue| == 2 && s.queue[0].key == s.queue[1].key == s.total && s.queue[1].thing.kind == TimerInt
    requires h(s.world, s.queue[0].thing, s.total).requests == []
    ensures TimerLeft(h, s)
  {
    var q := s.queue;
    assert q[..1] == [q[0]] && q[..1][1..] == [];
    assert Silent(h, h(s.world, q[0].thing, s.total).world, [], s.total);
  }

  // ---- the code ----

  class Controller<W> {
    const handler: Handler<W>
    const pending: List<Pending>
    var world: W
    var total: int
    var idle: int
    var system: int
    var user: int
    var status: Status
    var level: Level
    var yieldOnReturn: bool
    ghost var scheduled: seq<Pending>
    ghost var fired: seq<Firing>
    var nextId: nat

    ghost function Repr(): set<object>
      reads this, pending
    {
      {this, pending} + pending.Cells()
    }

    ghost predicate Valid()
      reads this, pending, pending.Cells()
    {
      pending.Valid() && nextId == |scheduled| && this !in pending.Cells() && pending !in pending.Cells()
    }

    ghost function Now(): State<W>
      reads this, pending
    {
      State(world, pending.Contents(), total, idle, system, user, status, level, yieldOnReturn, scheduled, fired)
    }

    constructor (handler: Handler<W>, world: W)
      ensures Valid() && Now() == Init(world) && this.handler == handler && fresh(Repr())
    {
      this.handler := handler;
      this.world := world;
      pending := new List();
      total, idle, system, user, nextId := 0, 0, 0, 0, 0;
      status, level, yieldOnReturn := SystemMode, IntOff, false;
      scheduled, fired := [], [];
    }

    method Insert(item: Item<Pending>)
      requires Valid()
      modifies pending, pending.Cells()
      ensures Valid() && fresh(Repr() - old(Repr()))
      ensures Now() == old(Now()).(queue := Lists.Insert(old(pending.Contents()), item))
    {
      pending.SortedInsert(item.thing, item.key);
    }

    method Record(p: Pending)
      requires Valid()
      modifies this`nextId, this`scheduled
      ensures Valid() && Repr() == old(Repr()) && Now() == old(Now()).(scheduled := old(scheduled) + [p])
    {
      nextId := nextId + 1;
      scheduled := scheduled + [p];
    }

    method Add(r: Request)
      requires Valid()
      modifies Repr()
      ensures Valid() && fresh(Repr() - old(Repr())) && Now() == Schedule(old(Now()), r)
    {
      var toOccur := Pending(nextId, r.arg, total + r.fromNow, r.kind);
      assert toOccur == NewPending(Now(), r);
      Record(toOccur);
      Insert(Item(toOccur, toOccur.when));
    }

    method AddAll(rs: seq<Request>)
      requires Valid()
      modifies Repr()
      ensures Valid() && fresh(Repr() - old(Repr())) && Now() == ScheduleAll(old(Now()), rs)
    {
      var i := 0;
      while i < |rs|
        invariant 0 <= i <= |rs| && Valid() && fresh(Repr() - old(Repr()))
        invariant ScheduleAll(Now(), rs[i..]) == ScheduleAll(old(Now()), rs)
      {
        assert rs[i..][1..] == rs[i + 1..];
        Add(rs[i]);
        i := i + 1;
      }
    }

    method CallHandler(toOccur: Pending)
      requires Valid()
      modifies Repr()
      ensures Valid() && fresh(Repr() - old(Repr()))
      ensures var was := old(Now()); var reply := handler(was.world, toOccur, was.total);
        Now() == ScheduleAll(was.(world := reply.world, fired := was.fired + [Firing(toOccur, was.total, reply.wantsYield)],
                                  yieldOnReturn := was.yieldOnReturn || reply.wantsYield), reply.requests)
    {
      var reply := handler(world, toOccur, total);
      world, yieldOnReturn, fired :=
        reply.world, yieldOnReturn || reply.wantsYield, fired + [Firing(toOccur, total, reply.wantsYield)];
      AddAll(reply.requests);
    }

    // Has the time come?  Idle makes it come.
    method Skip(when: int, advanceClock: bool) returns (due: bool)
      modifies this`total, this`idle
      ensures due == (advanceClock || when <= old(total))
      ensures advanceClock && when > old(total) ==> total == when && idle == old(idle) + (when - old(total))
      ensures !advanceClock || when <= old(total) ==> total == old(total) && idle == old(idle)
    {
      if advanceClock && when > total {
        idle := idle + (when - total);
        total := when;
      } else if when > total {
        return false;
      }
      return true;
    }

    method Take(advanceClock: bool) returns (next: Option<Item<Pending>>, due: bool)
      requires Valid()
      modifies this, pending
      ensures Valid() && Repr() <= old(Repr())
      ensures next.None? ==> pending.Contents() == [] && Now() == old(Now())
      ensures next.Some? ==> TookFirst(Looked(old(Now()), advanceClock), next.value)
      ensures next.Some? ==> due == Due(Looked(old(Now()), advanceClock))
    {
      next := pending.SortedRemove();
      due := false;
      if next.Some? {
        due := Skip(next.value.key, advanceClock);
      }
    }

    method CheckIfDue(advanceClock: bool) returns (fires: bool)
      requires Valid() && level == IntOff
      modifies Repr()
      ensures Valid() && fresh(Repr() - old(Repr()))
      ensures fires == Fires(Looked(old(Now()), advanceClock))
      ensures fires ==> Now() == Fire(handler, Looked(old(Now()), advanceClock))
      ensures !fires ==> Now() == Recheck(Looked(old(Now()), advanceClock))
    {
      ghost var s := Looked(Now(), advanceClock);
      var next, due := Take(advanceClock);
      if next.None? {
        return false;
      }
      if !due {
        PutBack(s, next.value);
        return false;
      }
      fires := Deliver(s, next.value);
    }

    // The interrupt was taken off the front of the queue of state s.
    ghost predicate TookFirst(s: State<W>, first: Item<Pending>)
      reads this, pending
    {
      s.queue != [] && first == s.queue[0] && Now() == s.(queue := s.queue[1..])
    }

    method PutBack(ghost s: State<W>, first: Item<Pending>)
      requires Valid() && TookFirst(s, first)
      modifies pending, pending.Cells()
      ensures Valid() && fresh(Repr() - old(Repr())) && Now() == Recheck(s)
    {
      Insert(first);
    }

    // Its time has come.
    method Deliver(ghost s: State<W>, first: Item<Pending>) returns (fires: bool)
      requires Valid() && TookFirst(s, first)
      modifies Repr()
      ensures Valid() && fresh(Repr() - old(Repr()))
      ensures fires == !(s.status == IdleMode && LoneTimer(s))
      ensures Now() == if fires then Fire(handler, s) else Recheck(s)
    {
      var empty := pending.IsEmpty();
      if status == IdleMode && first.thing.kind == TimerInt && empty {
        PutBack(s, first);
        return false;
      }
      CallHandler(first.thing);
      return true;
    }

    method CheckAll()
      requires Valid() && level == IntOff
      modifies Repr()
      ensures Valid() && fresh(Repr() - old(Repr())) && Now() == Drain(handler, old(Now()))
    {
      var more := true;
      while more
        invariant Valid() && fresh(Repr() - old(Repr())) && (more ==> level == IntOff)
        invariant (if more then Drain(handler, Now()) else Now()) == Drain(handler, old(Now()))
        decreases more, DueCount(Now().queue, Now().total)
      {
        ghost var s := Now();
        DrainStep(handler, s);
        more := CheckIfDue(false);
      }
    }

    method Clock()
      requires Valid()
      modifies this`total, this`system, this`user
      ensures Valid() && Now() == Clocked(old(Now()))
    {
      if status == SystemMode {
        total, system := total + SYSTEM_TICK, system + SYSTEM_TICK;
      } else {
        total, user := total + USER_TICK, user + USER_TICK;
      }
    }

    // The caller yields when told to.
    method OneTick() returns (yieldNow: bool)
      requires Valid()
      modifies Repr()
      ensures Valid() && fresh(Repr() - old(Repr()))
      ensures Now() == Tick(handler, old(Now()))
      ensures yieldNow <==> old(yieldOnReturn) || AskedFrom(fired, |old(fired)|)
    {
      Clock();
      level := IntOff;
      assert Now() == Clocked(old(Now())).(level := IntOff);
      DrainYields(handler, Now());
      CheckAll();
      level := IntOn;
      yieldNow := yieldOnReturn;
      yieldOnReturn := false;
    }

    // Called by a thread that goes to sleep with nothing to run, interrupts off.
    method DoIdle() returns (halted: bool)
      requires Valid() && level == IntOff
      modifies Repr()
      ensures Valid() && fresh(Repr() - old(Repr()))
      ensures Now() == Idle(handler, old(Now())) && halted == !IdleFires(old(Now()))
    {
      ghost var s := Now();
      IdleCases(handler, s);
      status := IdleMode;
      assert Now() == s.(status := IdleMode);
      var fires := CheckIfDue(true);
      if fires {
        assert Now() == Fire(handler, Advance(s.(status := IdleMode)));
        Resume();
      }
      halted := !fires;
    }

    method Resume()
      requires Valid() && level == IntOff
      modifies Repr()
      ensures Valid() && fresh(Repr() - old(Repr()))
      ensures Now() == Drain(handler, old(Now())).(yieldOnReturn := false, status := SystemMode)
    {
      CheckAll();
      yieldOnReturn := false;
      status := SystemMode;
    }

    method DoSetLevel(now: Level) returns (was: Level, yieldNow: bool)
      requires Valid()
      modifies Repr()
      ensures Valid() && fresh(Repr() - old(Repr()))
      ensures was == old(level) && Now() == SetLevel(handler, old(Now()), now)
      ensures yieldNow <==> now == IntOn && old(level) == IntOff && (old(yieldOnReturn) || AskedFrom(fired, |old(fired)|))
    {
      was, yieldNow := level, false;
      level := now;
      if now == IntOn && was == IntOff {
        yieldNow := OneTick();
      }
    }
  }
}
