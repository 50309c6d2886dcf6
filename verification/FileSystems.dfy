/** Runs of the file system (filesys/filesys.cc, openfile.cc): files are created, removed, opened
    any number of times, closed, read and written in any order.  An open file holds its own copy of
    the header. */
module FileSystems {
  import opened Basics
  import opened Bytes
  import opened Bitmaps
  import opened Directories
  import opened FileHeaders
  import opened OpenFiles
  import opened Volumes

  // `slot` is the directory entry the file was found in.
  datatype Handle = Handle(slot: int, hdr: Header)
  datatype System = System(vol: Volume, open: map<nat, Handle>)

  datatype Step =
    | Creates(name: string, size: nat, blank: Header)
    | Deletes(name: string)
    | Opens(id: nat, name: string)
    | Closes(id: nat)
    | Reads(id: nat, text: Text)
    | Writes(id: nat, position: nat, n: nat)

  // The sectors with vis_num > 0; the map and the root directory are always open.
  function OpenSectors(s: System): set<int> {
    {0, ROOT_SECTOR} + set id | id in s.open :: s.open[id].hdr.sectorNumber
  }

  // The map and the handles have the sizes the steps need; RunConserves shows that they always do.
  ghost predicate Ready(s: System) {
    |s.vol.bits| == NUM_SECTORS && forall id <- s.open :: HandleReady(s.vol, s.open[id].hdr)
  }

  ghost predicate HandleReady(v: Volume, h: Header) {
    FileSize(h) && FileOk(h, v.disk)
  }

  // What a caller has to see to: the size of a new file, that a handle in use names the sectors
  // the file has, and room for a file that grows.
  ghost predicate Allowed(s: System, step: Step) {
    match step
    case Creates(_, size, _) => size <= 8 * SECTOR_SIZE
    case Deletes(_) => true
    case Opens(id, name) => id !in s.open
    case Closes(id) => true
    case Reads(id, _) => id in s.open ==> Names(s.vol, s.open[id].slot, s.open[id].hdr)
    case Writes(id, position, n) =>
      id in s.open ==> Names(s.vol, s.open[id].slot, s.open[id].hdr) && Room(s.vol, s.open[id].hdr, position, n)
  }

  ghost predicate Room(v: Volume, h: Header, position: nat, n: nat) {
    0 < n && position <= h.numBytes < position + n ==> CanGrow(h, v.bits, position + n - h.numBytes)
  }

  ghost predicate Next(s: System, s': System, step: Step)
    requires Ready(s) && Allowed(s, step)
  {
    match step
    case Creates(name, size, blank) => s' == s.(vol := Create(s.vol, name, size, blank).vol)
    case Deletes(name) => s' == s.(vol := Delete(s.vol, name, OpenSectors(s)).vol)
    case Opens(id, name) => s' == OpenNext(s, id, IndexFrom(s.vol.dir, name, 0))
    case Closes(id) => s' == s.(open := s.open - {id})
    case Reads(id, text) => s' == if id in s.open then ReadNext(s, id, text) else s
    case Writes(id, position, n) =>
      if id in s.open && n > 0 && position <= s.open[id].hdr.numBytes then Wrote(s, s', id, position, n) else s' == s
  }

  ghost function OpenNext(s: System, id: nat, k: int): System {
    if IsFile(s.vol, k) then s.(open := s.open[id := Handle(k, HeaderOf(s.vol, k))]) else s
  }

  // A read puts the handle's header back with a new time stamp.
  ghost function ReadNext(s: System, id: nat, text: Text): System
    requires id in s.open && FileSize(s.open[id].hdr)
  {
    var g := s.open[id].hdr.(text := text);
    System(Rewritten(s.vol, g), s.open[id := s.open[id].(hdr := g)])
  }

  ghost predicate Wrote(s: System, s': System, id: nat, position: nat, n: nat)
    requires id in s.open && |s.vol.bits| == NUM_SECTORS && FileOk(s.open[id].hdr, s.vol.disk)
  {
    var h := s.open[id].hdr;
    && WrittenTo(s.vol, s'.vol, h, position, n)
    && id in s'.open
    && s'.open == s.open[id := Handle(s.open[id].slot, AfterWrite(h, s.vol.bits, position, n).hdr.(text := s'.open[id].hdr.text))]
  }

  // Every handle, up to date or not, is on a file that is still there.
  ghost predicate HandleOk(v: Volume, handle: Handle) {
    IsFile(v, handle.slot) && SmallOk(handle.hdr) && handle.hdr.sectorNumber == v.dir[handle.slot].sector
  }

  ghost predicate SystemInv(s: System) {
    Inv(s.vol) && forall id <- s.open :: HandleOk(s.vol, s.open[id])
  }

  lemma SystemReady(s: System)
    requires SystemInv(s)
    ensures Ready(s)
  {
    forall id <- s.open
      ensures HandleReady(s.vol, s.open[id].hdr)
    {
      assert HandleOk(s.vol, s.open[id]);
      SmallFileOk(s.open[id].hdr, s.vol.disk);
    }
  }

  // Handles stay good while entry k changes, unless they are on a file there that goes.
  lemma HandlesStay(s: System, v': Volume, k: int)
    requires SystemInv(s) && SameBut(s.vol, v', k)
    requires IsFile(s.vol, k) && IsFile(v', k) ==> v'.dir[k].sector == s.vol.dir[k].sector
    requires IsFile(s.vol, k) && !IsFile(v', k) ==> forall id <- s.open :: s.open[id].slot != k
    ensures forall id <- s.open :: HandleOk(v', s.open[id])
  {
    forall id <- s.open
      ensures HandleOk(v', s.open[id])
    {
      assert HandleOk(s.vol, s.open[id]);
    }
  }

  lemma CreatesInv(s: System, name: string, size: nat, blank: Header)
    requires SystemInv(s) && size <= 8 * SECTOR_SIZE
    ensures SystemInv(s.(vol := Create(s.vol, name, size, blank).vol))
  {
    var v' := Create(s.vol, name, size, blank).vol;
    CreateInv(s.vol, name, size, blank);
    if v' != s.vol {
      FreeEntry(s.vol);
      HandlesStay(s, v', FreeFrom(s.vol.dir, 0));
    }
  }

  // A file that is not open is no handle's.
  lemma NotOpen(s: System, k: int, id: nat)
    requires SystemInv(s) && IsFile(s.vol, k) && id in s.open && s.vol.dir[k].sector !in OpenSectors(s)
    ensures s.open[id].slot != k
  {
    assert HandleOk(s.vol, s.open[id]);
  }

  lemma DeletesInv(s: System, name: string)
    requires SystemInv(s)
    ensures SystemInv(s.(vol := Delete(s.vol, name, OpenSectors(s)).vol))
  {
    var d := Delete(s.vol, name, OpenSectors(s));
    DeleteInv(s.vol, name, OpenSectors(s));
    if d.result == Deleted {
      var k := IndexFrom(s.vol.dir, name, 0);
      forall id <- s.open
        ensures s.open[id].slot != k
      {
        NotOpen(s, k, id);
      }
      HandlesStay(s, d.vol, k);
    }
  }

  lemma OpensInv(s: System, id: nat, k: int)
    requires SystemInv(s)
    ensures SystemInv(OpenNext(s, id, k))
  {
    if IsFile(s.vol, k) {
      assert HandleOk(s.vol, Handle(k, HeaderOf(s.vol, k)));
    }
  }

  // One file and the handle used for it change.
  lemma OneHandleChanges(s: System, s': System, id: nat)
    requires SystemInv(s) && id in s.open && SameBut(s.vol, s'.vol, s.open[id].slot) && Inv(s'.vol)
    requires s'.vol.dir == s.vol.dir && id in s'.open && s'.open == s.open[id := s'.open[id]]
    requires HandleOk(s'.vol, s'.open[id])
    ensures SystemInv(s')
  {
    HandlesStay(s, s'.vol, s.open[id].slot);
  }

  // The time stamps do not matter.
  lemma TextAside(v: Volume, k: int, h: Header, g: Header)
    requires g == h.(text := g.text)
    ensures FileSectors(g) == FileSectors(h) && (SmallOk(g) <==> SmallOk(h)) && (Names(v, k, g) <==> Names(v, k, h))
  {
    assert FileSectors(g) == FileSectors(h);
  }

  /** A read keeps the system in good order exactly when its handle names the sectors the file has. */
  lemma ReadsInvIff(s: System, id: nat, text: Text)
    requires SystemInv(s) && id in s.open && FileSize(s.open[id].hdr)
    ensures SystemInv(ReadNext(s, id, text)) <==> Names(s.vol, s.open[id].slot, s.open[id].hdr)
  {
    var s', k, g := ReadNext(s, id, text), s.open[id].slot, s.open[id].hdr.(text := text);
    assert HandleOk(s.vol, s.open[id]);
    TextAside(s.vol, k, s.open[id].hdr, g);
    RewrittenSameBut(s.vol, k, g);
    RewriteConservesIff(s.vol, k, g);
    if Names(s.vol, k, s.open[id].hdr) {
      OneHandleChanges(s, s', id);
    }
  }

  lemma WritesInv(s: System, s': System, id: nat, position: nat, n: nat)
    requires SystemInv(s) && id in s.open && |s.vol.bits| == NUM_SECTORS && FileOk(s.open[id].hdr, s.vol.disk)
    requires Names(s.vol, s.open[id].slot, s.open[id].hdr) && Room(s.vol, s.open[id].hdr, position, n)
    requires Wrote(s, s', id, position, n)
    ensures SystemInv(s')
  {
    var e := AfterWrite(s.open[id].hdr, s.vol.bits, position, n);
    WriteInv(s.vol, s'.vol, s.open[id].slot, s.open[id].hdr, position, n);
    TextAside(s'.vol, s.open[id].slot, e.hdr, s'.open[id].hdr);
    assert HandleOk(s.vol, s.open[id]);
    OneHandleChanges(s, s', id);
  }

  lemma NextInv(s: System, s': System, step: Step)
    requires SystemInv(s) && Ready(s) && Allowed(s, step) && Next(s, s', step)
    ensures SystemInv(s')
  {
    match step
    case Creates(name, size, blank) => CreatesInv(s, name, size, blank);
    case Deletes(name) => DeletesInv(s, name);
    case Opens(id, name) => OpensInv(s, id, IndexFrom(s.vol.dir, name, 0));
    case Closes(id) =>
    case Reads(id, text) =>
      if id in s.open {
        ReadsInvIff(s, id, text);
      }
    case Writes(id, position, n) =>
      if id in s.open && n > 0 && position <= s.open[id].hdr.numBytes {
        WritesInv(s, s', id, position, n);
      }
  }

  // ---- runs from a formatted disk ----

  ghost predicate Steps(s: System, s': System, step: Step) {
    Ready(s) && Allowed(s, step) && Next(s, s', step)
  }

  ghost predicate IsRun(states: seq<System>, steps: seq<Step>) {
    |states| == |steps| + 1 && forall i :: 0 <= i < |steps| ==> Steps(states[i], states[i + 1], steps[i])
  }

  ghost predicate Formatted(v: Volume) {
    && v.dir == NewTable() && |v.bits| == NUM_SECTORS
    && (forall s :: InDisk(s) ==> (v.bits[s] <==> s < SYSTEM_SECTORS))
  }

  lemma FormattedInv(v: Volume)
    requires Formatted(v)
    ensures Inv(v)
  {
  }

  lemma {:induction false} RunInv(states: seq<System>, steps: seq<Step>, t: nat)
    requires IsRun(states, steps) && Formatted(states[0].vol) && states[0].open == map[] && t < |states|
    ensures SystemInv(states[t])
  {
    if t == 0 {
      FormattedInv(states[0].vol);
    } else {
      RunInv(states, steps, t - 1);
      assert Steps(states[t - 1], states[t - 1 + 1], steps[t - 1]);
      NextInv(states[t - 1], states[t], steps[t - 1]);
    }
  }

  /** At every point of every run from a formatted disk the marked sectors are the six system
      sectors and, disjointly, the header and data sectors of every file in the directory. */
  lemma RunConserves(states: seq<System>, steps: seq<Step>, t: nat)
    requires IsRun(states, steps) && Formatted(states[0].vol) && states[0].open == map[] && t < |states|
    ensures Conserved(states[t].vol) && FilesOk(states[t].vol) && Ready(states[t])
  {
    RunInv(states, steps, t);
    SystemReady(states[t]);
  }

  /** Where a run must not go: a file is opened twice, gets new sectors through the first handle, and
      is then read through the second. */
  lemma SecondHandleBreaks(s: System, i: nat, j: nat, k: int, s': System, position: nat, n: nat, text: Text)
    requires SystemInv(s) && i != j && IsFile(s.vol, k)
    requires var h, s2 := HeaderOf(s.vol, k), OpenNext(OpenNext(s, i, k), j, k);
      && position <= h.numBytes < position + n && DivRoundUp(position + n) > h.numSectors
      && |s.vol.bits| == NUM_SECTORS && FileOk(h, s.vol.disk) && CanGrow(h, s.vol.bits, position + n - h.numBytes)
      && Wrote(s2, s', i, position, n)
    ensures j in s'.open && FileSize(s'.open[j].hdr) && SystemInv(s') && !SystemInv(ReadNext(s', j, text))
  {
    var h, s2 := HeaderOf(s.vol, k), OpenNext(OpenNext(s, i, k), j, k);
    OpensInv(s, i, k);
    OpensInv(OpenNext(s, i, k), j, k);
    UpToDateNames(s.vol, k, h);
    assert s2.open[i] == s2.open[j] == Handle(k, h) && s'.open[j] == s2.open[j];
    WritesInv(s2, s', i, position, n);
    StaleHandleBreaks(s.vol, s'.vol, k, h, position, n, text);
  }

  lemma NameFree()
    ensures IndexFrom(NewTable(), "a", 0) == -1 && FreeFrom(NewTable(), 0) != -1
  {
    forall k
      ensures !At(NewTable(), k, "a")
    {
      assert "a"[0] == 'a' && "."[0] == '.' && ".."[0] == '.';
    }
    assert !NewTable()[2].inUse;
  }

  lemma FirstCreated(v: Volume, blank: Header)
    requires Formatted(v)
    ensures Create(v, "a", 0, blank).result == Created
  {
    FormattedInv(v);
    NameFree();
    NameTaken(v, "a");
    assert !v.bits[6];
    SomeClear(v.bits);
    CreateFails(v, "a", 0, blank);
  }

  // On a formatted disk a file without sectors can be created, and can then grow by one.
  lemma FirstFile(v: Volume, blank: Header)
    requires Formatted(v)
    ensures var v', k := Create(v, "a", 0, blank).vol, FreeFrom(v.dir, 0);
      && Create(v, "a", 0, blank).result == Created && Inv(v')
      && IsFile(v', k) && IndexFrom(v'.dir, "a", 0) == k
      && HeaderOf(v', k).numBytes == 0 && CanGrow(HeaderOf(v', k), v'.bits, 1)
  {
    FormattedInv(v);
    FirstCreated(v, blank);
    CreateInv(v, "a", 0, blank);
    NameFree();
    AddedFound(v.dir, "a", SearchClear(v.bits, 0), 1);
    OneMore(v, blank);
  }

  lemma AddedFound(t: seq<Entry>, name: string, sector: int, kind: int)
    requires Unique(t) && IndexFrom(t, name, 0) == -1 && FreeFrom(t, 0) != -1
    ensures IndexFrom(Add(t, name, sector, kind), name, 0) == FreeFrom(t, 0)
  {
    AddAt(t, name, sector, kind);
    assert At(Add(t, name, sector, kind), FreeFrom(t, 0), name);
  }

  lemma OneMore(v: Volume, blank: Header)
    requires Formatted(v) && Create(v, "a", 0, blank).result == Created
    requires var v', k := Create(v, "a", 0, blank).vol, FreeFrom(v.dir, 0);
      && IsFile(v', k) && HeaderOf(v', k).numBytes == 0 && SmallOk(HeaderOf(v', k))
      && Takes(v.bits, FileSectors(HeaderOf(v', k)), v'.bits)
    ensures CanGrow(HeaderOf(Create(v, "a", 0, blank).vol, FreeFrom(v.dir, 0)), Create(v, "a", 0, blank).vol.bits, 1)
  {
    var v', h := Create(v, "a", 0, blank).vol, HeaderOf(Create(v, "a", 0, blank).vol, FreeFrom(v.dir, 0));
    assert FileSectors(h) == [h.sectorNumber];
    assert !v.bits[6] && !v.bits[7];
    assert !v'.bits[if h.sectorNumber == 6 then 7 else 6];
    SomeClear(v'.bits);
  }

  // One byte is written at the start of an empty file.
  ghost function FirstByte(s: System, id: nat): System
    requires id in s.open && |s.vol.bits| == NUM_SECTORS && s.open[id].hdr.numBytes == 0 && s.open[id].hdr.numSectors == 0
    requires InDisk(s.open[id].hdr.sectorNumber)
  {
    var e := AfterWrite(s.open[id].hdr, s.vol.bits, 0, 1);
    System(Volume(e.bits, s.vol.dir, s.vol.disk[e.hdr.sectorNumber := EncodeHeader(e.hdr)]),
           s.open[id := Handle(s.open[id].slot, e.hdr)])
  }

  lemma FirstByteWrote(s: System, id: nat)
    requires id in s.open && |s.vol.bits| == NUM_SECTORS && s.open[id].hdr.numBytes == 0 && s.open[id].hdr.numSectors == 0
    requires FileOk(s.open[id].hdr, s.vol.disk)
    ensures Wrote(s, FirstByte(s, id), id, 0, 1)
  {
    var h, e := s.open[id].hdr, AfterWrite(s.open[id].hdr, s.vol.bits, 0, 1);
    assert e.hdr.(text := e.hdr.text) == e.hdr;
    assert Owned(h, s.vol.disk)[0] == h.sectorNumber;
  }

  lemma OpenSteps(s: System, id: nat, name: string)
    requires SystemInv(s) && id !in s.open
    ensures Steps(s, OpenNext(s, id, IndexFrom(s.vol.dir, name, 0)), Opens(id, name))
  {
    SystemReady(s);
  }

  lemma CreateSteps(s: System, name: string, size: nat, blank: Header)
    requires SystemInv(s) && size <= 8 * SECTOR_SIZE
    ensures Steps(s, s.(vol := Create(s.vol, name, size, blank).vol), Creates(name, size, blank))
  {
    SystemReady(s);
  }

  lemma FirstByteSteps(s: System, id: nat)
    requires SystemInv(s) && id in s.open && Names(s.vol, s.open[id].slot, s.open[id].hdr)
    requires s.open[id].hdr.numBytes == 0 && CanGrow(s.open[id].hdr, s.vol.bits, 1)
    ensures Ready(s) && s.open[id].hdr.numSectors == 0 && InDisk(s.open[id].hdr.sectorNumber)
    ensures Steps(s, FirstByte(s, id), Writes(id, 0, 1))
  {
    SystemReady(s);
    assert HandleReady(s.vol, s.open[id].hdr);
    FirstByteWrote(s, id);
  }

  /** A run from a formatted disk that comes to this point: create, open twice, write one byte through
      the first handle, and the next read through the second breaks the volume. */
  lemma SecondHandleRun(v: Volume, blank: Header, text: Text) returns (states: seq<System>, steps: seq<Step>)
    requires Formatted(v)
    ensures IsRun(states, steps) && states[0] == System(v, map[]) && |steps| == 4
    ensures 2 in states[4].open && FileSize(states[4].open[2].hdr) && !SystemInv(ReadNext(states[4], 2, text))
  {
    var k := FreeFrom(v.dir, 0);
    var s0, s1 := System(v, map[]), System(Create(v, "a", 0, blank).vol, map[]);
    FormattedInv(v);
    FirstFile(v, blank);
    CreateSteps(s0, "a", 0, blank);
    var s2, s3 := OpenTwice(s1, "a", k);
    var s4 := GrowFirst(s1, s3, k, text);
    states, steps := FourSteps(s0, s1, s2, s3, s4, Creates("a", 0, blank), Opens(1, "a"), Opens(2, "a"), Writes(1, 0, 1));
  }

  lemma FourSteps(s0: System, s1: System, s2: System, s3: System, s4: System, a: Step, b: Step, c: Step, d: Step)
    returns (states: seq<System>, steps: seq<Step>)
    requires Steps(s0, s1, a) && Steps(s1, s2, b) && Steps(s2, s3, c) && Steps(s3, s4, d)
    ensures IsRun(states, steps) && |steps| == 4 && states[0] == s0 && states[4] == s4
  {
    states, steps := [s0, s1, s2, s3, s4], [a, b, c, d];
  }

  lemma OpenTwice(s1: System, name: string, k: int) returns (s2: System, s3: System)
    requires SystemInv(s1) && s1.open == map[] && k == IndexFrom(s1.vol.dir, name, 0)
    ensures s3 == OpenNext(OpenNext(s1, 1, k), 2, k) && SystemInv(s3)
    ensures Steps(s1, s2, Opens(1, name)) && Steps(s2, s3, Opens(2, name))
  {
    OpenSteps(s1, 1, name);
    s2 := OpenNext(s1, 1, k);
    OpensInv(s1, 1, k);
    OpenSteps(s2, 2, name);
    s3 := OpenNext(s2, 2, k);
    OpensInv(s2, 2, k);
  }

  lemma GrowFirst(s1: System, s3: System, k: int, text: Text) returns (s4: System)
    requires SystemInv(s1) && IsFile(s1.vol, k) && s3 == OpenNext(OpenNext(s1, 1, k), 2, k) && SystemInv(s3)
    requires HeaderOf(s1.vol, k).numBytes == 0 && CanGrow(HeaderOf(s1.vol, k), s1.vol.bits, 1)
    ensures Steps(s3, s4, Writes(1, 0, 1)) && 2 in s4.open && FileSize(s4.open[2].hdr)
    ensures !SystemInv(ReadNext(s4, 2, text))
  {
    var h := HeaderOf(s1.vol, k);
    assert s3.open[1] == Handle(k, h);
    UpToDateNames(s3.vol, k, h);
    FirstByteSteps(s3, 1);
    assert HandleReady(s3.vol, s3.open[1].hdr);
    FirstByteWrote(s3, 1);
    s4 := FirstByte(s3, 1);
    SecondHandleBreaks(s1, 1, 2, k, s4, 0, 1, text);
  }

  /** A write changes no other file's bytes. */
  lemma WriteKeepsOthers(s: System, s': System, id: nat, position: nat, n: nat, i: int)
    requires SystemInv(s) && id in s.open && |s.vol.bits| == NUM_SECTORS && FileOk(s.open[id].hdr, s.vol.disk)
    requires Names(s.vol, s.open[id].slot, s.open[id].hdr) && Room(s.vol, s.open[id].hdr, position, n)
    requires Wrote(s, s', id, position, n) && i != s.open[id].slot && IsFile(s.vol, i)
    ensures SystemInv(s') && IsFile(s'.vol, i) && FileBytes(s'.vol, i) == FileBytes(s.vol, i)
  {
    WritesInv(s, s', id, position, n);
    var k, h := s.open[id].slot, s.open[id].hdr;
    WriteInv(s.vol, s'.vol, k, h, position, n);
    NamesOk(s.vol, k, h);
    OthersKeepBytes(s.vol, s'.vol, k, i, Owned(h, s.vol.disk));
  }

  // ---- names ----

  /** Open finds the file of that name and takes over its header; a name that no file has opens nothing. */
  lemma OpensNamed(s: System, s': System, id: nat, name: string)
    requires SystemInv(s) && id !in s.open && Ready(s) && Next(s, s', Opens(id, name))
    ensures s'.vol == s.vol
    ensures id in s'.open ==>
      At(s.vol.dir, s'.open[id].slot, name) && s'.open == s.open[id := Handle(s'.open[id].slot, HeaderOf(s.vol, s'.open[id].slot))]
    ensures id !in s'.open <==> forall k :: IsFile(s.vol, k) ==> !At(s.vol.dir, k, name)
  {
    var i := IndexFrom(s.vol.dir, name, 0);
    forall k | IsFile(s.vol, k) && At(s.vol.dir, k, name)
      ensures k == i
    {
      assert At(s.vol.dir, i, name);
    }
  }

  /** A file that was created is found by its name: opened, it has the size asked for and none of its sectors was in
      use. */
  lemma CreateOpen(s: System, s1: System, s2: System, name: string, size: nat, blank: Header, id: nat)
    requires SystemInv(s) && Ready(s) && size <= 8 * SECTOR_SIZE && Next(s, s1, Creates(name, size, blank))
    requires Create(s.vol, name, size, blank).result == Created && id !in s.open
    requires Ready(s1) && Next(s1, s2, Opens(id, name))
    ensures id in s2.open && s2.open[id].hdr.numBytes == size
    ensures forall x <- FileSectors(s2.open[id].hdr) :: InDisk(x) && !s.vol.bits[x] && s1.vol.bits[x]
  {
    var k, sector := FreeFrom(s.vol.dir, 0), SearchClear(s.vol.bits, 0);
    CreateInv(s.vol, name, size, blank);
    AddAt(s.vol.dir, name, sector, 1);
    OnlyOne(s1.vol.dir, name, k);
    var xs := FileSectors(HeaderOf(s1.vol, k));
    forall x | x in xs
      ensures InDisk(x) && !s.vol.bits[x] && s1.vol.bits[x]
    {
      var i :| 0 <= i < |xs| && xs[i] == x;
    }
  }

  /** A file that was removed is not found any more, and every other name is opened as before. */
  lemma DeleteOpen(s: System, s1: System, name: string, other: string)
    requires SystemInv(s) && Ready(s) && Next(s, s1, Deletes(name))
    requires Delete(s.vol, name, OpenSectors(s)).result == Deleted
    ensures IndexFrom(s1.vol.dir, name, 0) == -1
    ensures Key(other) != Key(name) ==> Find(s1.vol.dir, other) == Find(s.vol.dir, other)
  {
    DeleteInv(s.vol, name, OpenSectors(s));
    FindAfterRemove(s.vol.dir, name, other);
    NameTaken(s1.vol, name);
  }
}
