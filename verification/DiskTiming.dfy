/** How long the simulated disk takes (machine/disk.cc): seek, rotation, transfer and the track
    buffer, against the picture of a head over a turning platter. */
module DiskTiming {
  import opened Basics

  const SECTORS_PER_TRACK := 32
  const ROTATION_TIME := 500
  const SEEK_TIME := 500

  type Sector = s: int | 0 <= s < NUM_SECTORS

  // ---- the picture ----

  // During slot k, from 500k to 500(k + 1), the head passes over offset k % 32 of its track.
  ghost predicate Passes(k: int, sector: Sector) {
    k % SECTORS_PER_TRACK == sector % SECTORS_PER_TRACK
  }

  // Slot k lies between times from and to, and the head passes over the sector in it.
  ghost predicate PassWithin(k: int, sector: Sector, from: int, to: int) {
    Passes(k, sector) && from <= ROTATION_TIME * k && ROTATION_TIME * (k + 1) <= to
  }

  // ---- the code ----

  function Abs(x: int): nat {
    if x < 0 then -x else x
  }

  // The head's state: the last sector asked for, and since when the track buffer fills.
  datatype Head = Head(lastSector: Sector, bufferInit: nat)

  function Seek(h: Head, newSector: Sector): nat {
    Abs(newSector / SECTORS_PER_TRACK - h.lastSector / SECTORS_PER_TRACK) * SEEK_TIME
  }

  // The rest of the sector the head is in the middle of when the seek ends.
  function Rotation(h: Head, newSector: Sector, now: nat): nat {
    var over := (now + Seek(h, newSector)) % ROTATION_TIME;
    if over > 0 then ROTATION_TIME - over else 0
  }

  function TimeAfter(h: Head, newSector: Sector, now: nat): nat {
    now + Seek(h, newSector) + Rotation(h, newSector, now)
  }

  function ModuloDiff(to: nat, from: nat): int {
    (to % SECTORS_PER_TRACK - from % SECTORS_PER_TRACK + SECTORS_PER_TRACK) % SECTORS_PER_TRACK
  }

  predicate BufferHit(h: Head, newSector: Sector, now: nat, writing: bool) {
    && !writing && Seek(h, newSector) == 0
    && Quotient(TimeAfter(h, newSector, now) - h.bufferInit, ROTATION_TIME) > ModuloDiff(newSector, h.bufferInit / ROTATION_TIME)
  }

  function ComputeLatency(h: Head, newSector: Sector, now: nat, writing: bool): int {
    if BufferHit(h, newSector, now, writing) then ROTATION_TIME
    else
      Seek(h, newSector) + Rotation(h, newSector, now)
      + ModuloDiff(newSector, TimeAfter(h, newSector, now) / ROTATION_TIME) * ROTATION_TIME + ROTATION_TIME
  }

  function UpdateLast(h: Head, newSector: Sector, now: nat): Head {
    Head(newSector, if Seek(h, newSector) != 0 then TimeAfter(h, newSector, now) else h.bufferInit)
  }

  // ---- what it means ----

  /** The seek takes no time on the head's own track, and one seek time more for each track further away. */
  lemma SeekPerTrack(h: Head, near: Sector, far: Sector)
    ensures Seek(h, near) == 0 <==> near / SECTORS_PER_TRACK == h.lastSector / SECTORS_PER_TRACK
    ensures var n, f, at := near / SECTORS_PER_TRACK, far / SECTORS_PER_TRACK, h.lastSector / SECTORS_PER_TRACK;
      (at <= n && f == n + 1) || (f == n - 1 && n <= at) ==> Seek(h, far) == Seek(h, near) + SEEK_TIME
  {
  }

  // TimeAfter is the first sector boundary from the end of the seek on.
  lemma NextBoundary(h: Head, newSector: Sector, now: nat)
    ensures var b := TimeAfter(h, newSector, now);
      b % ROTATION_TIME == 0 && now + Seek(h, newSector) <= b < now + Seek(h, newSector) + ROTATION_TIME
    ensures forall k: int :: now + Seek(h, newSector) <= ROTATION_TIME * k ==> TimeAfter(h, newSector, now) <= ROTATION_TIME * k
  {
    var t := now + Seek(h, newSector);
    assert t == t / ROTATION_TIME * ROTATION_TIME + t % ROTATION_TIME;
  }

  // Counting slots from slot `from`, the sector comes after ModuloDiff of them, and not earlier.
  lemma SlotsToWait(sector: Sector, from: nat)
    ensures 0 <= ModuloDiff(sector, from) < SECTORS_PER_TRACK
    ensures Passes(from + ModuloDiff(sector, from), sector)
    ensures forall k: int :: Passes(k, sector) && from <= k ==> from + ModuloDiff(sector, from) <= k
  {
    forall k: int | Passes(k, sector) && from <= k
      ensures from + ModuloDiff(sector, from) <= k
    {
      NotEarlier(sector, from, k);
    }
  }

  lemma NotEarlier(sector: Sector, from: nat, k: nat)
    requires Passes(k, sector) && from <= k
    ensures from + ModuloDiff(sector, from) <= k
  {
    var q, a, b := SECTORS_PER_TRACK, from / SECTORS_PER_TRACK, k / SECTORS_PER_TRACK;
    assert from == q * a + from % q && k == q * b + k % q;
  }

  /** Without a track buffer hit, the request ends when the head has just passed over the sector,
      in the first pass that starts when the seek is over or later. */
  lemma FirstPass(h: Head, newSector: Sector, now: nat, writing: bool) returns (k: int)
    requires !BufferHit(h, newSector, now, writing)
    ensures Passes(k, newSector) && now + Seek(h, newSector) <= ROTATION_TIME * k
    ensures now + ComputeLatency(h, newSector, now, writing) == ROTATION_TIME * (k + 1)
    ensures forall j: int :: Passes(j, newSector) && now + Seek(h, newSector) <= ROTATION_TIME * j ==> k <= j
  {
    NextBoundary(h, newSector, now);
    var b := TimeAfter(h, newSector, now);
    var slot := b / ROTATION_TIME;
    SlotsToWait(newSector, slot);
    k := slot + ModuloDiff(newSector, slot);
    assert b == ROTATION_TIME * slot;
  }

  /** A read hits the track buffer exactly when the head is on the sector's track and has passed
      over the whole sector between the time it came there and the next sector boundary. */
  lemma BufferHitIff(h: Head, newSector: Sector, now: nat)
    requires h.bufferInit % ROTATION_TIME == 0
    ensures BufferHit(h, newSector, now, false) <==>
      && newSector / SECTORS_PER_TRACK == h.lastSector / SECTORS_PER_TRACK
      && exists k: int :: PassWithin(k, newSector, h.bufferInit, TimeAfter(h, newSector, now))
  {
    var from := h.bufferInit / ROTATION_TIME;
    var b := TimeAfter(h, newSector, now);
    SlotsToWait(newSector, from);
    NextBoundary(h, newSector, now);
    var k := from + ModuloDiff(newSector, from);
    assert h.bufferInit == ROTATION_TIME * from && b == ROTATION_TIME * (b / ROTATION_TIME);
    if BufferHit(h, newSector, now, false) {
      assert PassWithin(k, newSector, h.bufferInit, b);
    } else if exists j: int :: PassWithin(j, newSector, h.bufferInit, b) {
      var j: int :| PassWithin(j, newSector, h.bufferInit, b);
      assert k <= j;
    }
  }

  // ---- runs ----

  // A request is made `wait` ticks after the previous one's interrupt.
  datatype Request = Request(sector: Sector, writing: bool, wait: nat)
  datatype Done = Done(sector: Sector, writing: bool, issued: nat, arrived: nat, finished: int)

  // now is when the last interrupt came, so the disk is free.
  datatype Drive = Drive(head: Head, now: nat, log: seq<Done>)

  function Issue(d: Drive, r: Request): (d': Drive)
    ensures d'.now >= d.now + r.wait + ROTATION_TIME
  {
    var now := d.now + r.wait;
    var latency := ComputeLatency(d.head, r.sector, now, r.writing);
    LatencyAtLeast(d.head, r.sector, now, r.writing);
    var head := UpdateLast(d.head, r.sector, now);
    Drive(head, now + latency, d.log + [Done(r.sector, r.writing, now, head.bufferInit, now + latency)])
  }

  /** Schedule's assertion: the interrupt is always at least one sector time away.  With a track buffer hit it is
      exactly one away. */
  lemma LatencyAtLeast(h: Head, newSector: Sector, now: nat, writing: bool)
    ensures ComputeLatency(h, newSector, now, writing) >= ROTATION_TIME
    ensures BufferHit(h, newSector, now, writing) ==> ComputeLatency(h, newSector, now, writing) == ROTATION_TIME
  {
    SlotsToWait(newSector, TimeAfter(h, newSector, now) / ROTATION_TIME);
  }

  function Run(rs: seq<Request>): Drive {
    if rs == [] then Drive(Head(0, 0), 0, []) else Issue(Run(rs[..|rs| - 1]), rs[|rs| - 1])
  }

  // The request's sector went past the head, all of it, while the head was on its track and
  // before the request was finished; for a write, after it was issued.
  ghost predicate Served(d: Done) {
    exists k: int :: PassWithin(k, d.sector, Start(d), d.finished)
  }

  function Start(d: Done): nat {
    if d.writing && d.issued > d.arrived then d.issued else d.arrived
  }

  // The head is on the last request's track from bufferInit on.
  ghost predicate DriveOk(d: Drive) {
    && d.head.bufferInit % ROTATION_TIME == 0 && d.head.bufferInit <= d.now
    && (forall x <- d.log :: Served(x))
  }

  lemma IssueServed(d: Drive, r: Request)
    requires d.head.bufferInit % ROTATION_TIME == 0 && d.head.bufferInit <= d.now
    ensures var d' := Issue(d, r);
      d'.head.bufferInit % ROTATION_TIME == 0 && d'.head.bufferInit <= d'.now && Served(d'.log[|d.log|])
  {
    var now := d.now + r.wait;
    var done := Issue(d, r).log[|d.log|];
    NextBoundary(d.head, r.sector, now);
    if BufferHit(d.head, r.sector, now, r.writing) {
      BufferHitIff(d.head, r.sector, now);
      var k: int :| PassWithin(k, r.sector, d.head.bufferInit, TimeAfter(d.head, r.sector, now));
      assert PassWithin(k, done.sector, Start(done), done.finished);
    } else {
      var k := FirstPass(d.head, r.sector, now, r.writing);
      assert PassWithin(k, done.sector, Start(done), done.finished);
    }
  }

  lemma {:induction false} RunOk(rs: seq<Request>)
    ensures DriveOk(Run(rs))
  {
    if rs != [] {
      RunOk(rs[..|rs| - 1]);
      IssueServed(Run(rs[..|rs| - 1]), rs[|rs| - 1]);
    }
  }

  // The head leaves a track only after the requests there are finished.
  ghost predicate OneTrackAtATime(d: Drive) {
    && (forall x <- d.log :: x.issued + ROTATION_TIME <= x.finished <= d.now)
    && (d.log == [] ==> d.head == Head(0, 0))
    && (d.log != [] ==> d.log[|d.log| - 1].sector == d.head.lastSector && d.log[|d.log| - 1].arrived == d.head.bufferInit)
    && (forall i, j :: 0 <= i < j < |d.log| ==>
          SameTrack(d.log[i].sector, d.log[j].sector) || d.log[i].finished <= d.log[j].arrived)
  }

  predicate SameTrack(a: Sector, b: Sector) {
    a / SECTORS_PER_TRACK == b / SECTORS_PER_TRACK
  }

  lemma {:induction false} RunTracks(rs: seq<Request>)
    ensures OneTrackAtATime(Run(rs))
  {
    if rs != [] {
      var d, r := Run(rs[..|rs| - 1]), rs[|rs| - 1];
      RunTracks(rs[..|rs| - 1]);
      NextBoundary(d.head, r.sector, d.now + r.wait);
      assert Seek(d.head, r.sector) == 0 ==> SameTrack(d.head.lastSector, r.sector);
    }
  }

  /** In every run of requests, each made when the disk is free, every request is served by a
      whole pass of the head over its sector before it is reported done, and the head has by then
      been on the sector's track, and on no other, since `arrived`. */
  lemma EveryRequestServed(rs: seq<Request>)
    ensures forall x <- Run(rs).log :: Served(x) && x.finished >= x.issued + ROTATION_TIME
    ensures var log := Run(rs).log; forall i, j :: 0 <= i < j < |log| ==>
      SameTrack(log[i].sector, log[j].sector) || log[i].finished <= log[j].arrived
  {
    RunOk(rs);
    RunTracks(rs);
  }
}
