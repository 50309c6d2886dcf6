/** The link between the two views of the disk.  Threads that share SynchDisk see one disk on which
    whole sectors are read and written one after the other, in the order of SynchDisk's log
    (filesys/synchdisk.cc); this is the disk that the file system's modules work on. */
module SharedDisk {
  import opened Basics
  import opened FileHeaders
  import opened HeaderCode
  import D = SynchDisk

  predicate IsBlock(data: D.Data) {
    |data| == SECTOR_SIZE && forall i :: 0 <= i < |data| ==> 0 <= data[i] < 256
  }

  // Every write is of a whole sector of bytes.
  ghost predicate WholeSectors(steps: seq<D.Step>) {
    forall i :: 0 <= i < |steps| && steps[i].Invoke? && steps[i].op.Write? ==> IsBlock(steps[i].op.data)
  }

  ghost predicate LogOfBlocks(log: seq<D.Event>) {
    D.InRange(log) && forall e <- log :: e.op.Write? ==> IsBlock(e.data)
  }

  // The log of a run can be acted out.
  lemma RunLogs(init: DiskData, states: seq<D.State>, steps: seq<D.Step>)
    requires D.Run(init, states, steps) && WholeSectors(steps)
    ensures LogOfBlocks(states[|steps|].log) && D.Legal(init, states[|steps|].log)
  {
    D.RunInv(init, states, steps, |steps|);
    D.EventsGenuine(init, states, steps, |steps|);
    forall e <- states[|steps|].log
      ensures e.op.Write? ==> IsBlock(e.data)
    {
      assert D.Genuine(states, steps, |steps|, e);
    }
  }

  lemma ReplayNext(init: seq<D.Data>, log: seq<D.Event>, i: nat)
    requires |init| == NUM_SECTORS && D.InRange(log) && i < |log|
    ensures D.InRange(log[..i]) && D.InRange(log[..i + 1])
    ensures D.Replay(init, log[..i + 1]) == D.Apply(D.Replay(init, log[..i]), log[i])
  {
    assert log[i] in log;
    assert log[..i + 1][..i] == log[..i];
  }

  /** Acting out a legal log with ReadSector and WriteSector on one disk gives every operation the data
      the log has for it, and leaves the disk as the log says. */
  method ActOut(disk: Disk, log: seq<D.Event>) returns (answers: seq<D.Data>)
    requires LogOfBlocks(log) && D.Legal(disk.sectors, log)
    modifies disk
    ensures disk.sectors == D.Replay(old(disk.sectors), log)
    ensures |answers| == |log| && forall i :: 0 <= i < |log| ==> answers[i] == log[i].data
  {
    answers := [];
    ghost var init := disk.sectors;
    var i := 0;
    while i < |log|
      invariant 0 <= i <= |log| && Acted(init, disk.sectors, answers, log, i)
    {
      assert log[i] in log;
      ActedNext(init, disk.sectors, answers, log, i);
      var answer := ActOne(disk, log[i]);
      answers := answers + [answer];
      i := i + 1;
    }
    assert log[..|log|] == log;
  }

  // The first n events have been acted out.
  ghost predicate Acted(init: DiskData, now: seq<D.Data>, answers: seq<D.Data>, log: seq<D.Event>, n: nat) {
    && n == |answers| <= |log| && D.InRange(log[..n]) && now == D.Replay(init, log[..n])
    && forall i :: 0 <= i < n ==> answers[i] == log[i].data
  }

  lemma ActedNext(init: DiskData, now: seq<D.Data>, answers: seq<D.Data>, log: seq<D.Event>, n: nat)
    requires Acted(init, now, answers, log, n) && n < |log| && LogOfBlocks(log) && D.Legal(init, log)
    ensures log[n].op.Read? ==> log[n].op.sector < |now| && log[n].data == now[log[n].op.sector]
    ensures log[n].op.sector < |now| && Acted(init, D.Apply(now, log[n]), answers + [log[n].data], log, n + 1)
  {
    assert log[n] in log;
    ReplayNext(init, log, n);
  }

  method ActOne(disk: Disk, e: D.Event) returns (answer: D.Data)
    requires e.op.sector < NUM_SECTORS && (e.op.Write? ==> IsBlock(e.data))
    requires e.op.Read? ==> e.data == disk.sectors[e.op.sector]
    modifies disk
    ensures disk.sectors == D.Apply(old(disk.sectors), e) && answer == e.data
  {
    if e.op.Read? {
      answer := disk.ReadSector(e.op.sector);
    } else {
      disk.WriteSector(e.op.sector, e.data);
      answer := e.data;
    }
  }
}
