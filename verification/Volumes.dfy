/** The volume as a whole (filesys/filesys.cc): the map of free sectors, the root directory and
    the disk, and what Create, Remove and writing do to them.  Files have at most eight sectors. */
module Volumes {
  import opened Basics
  import opened Bytes
  import opened Bitmaps
  import opened Directories
  import opened FileHeaders
  import opened OpenFiles

  // Sector 0 and 2 hold the map, sectors 1 and 3 to 5 the directory.
  const SYSTEM_SECTORS := 6

  datatype Volume = Volume(bits: Bits, dir: seq<Entry>, disk: DiskData)

  // A plain file's sectors: the header's and the blocks.
  function FileSectors(h: Header): seq<int> {
    [h.sectorNumber] + if 0 <= h.numSectors <= 8 then h.data[..h.numSectors] else []
  }

  lemma SmallBlocks(h: Header, disk: DiskData)
    requires 0 <= h.numSectors <= 8
    ensures Blocks(h, disk) == h.data[..h.numSectors] && FileSectors(h) == [h.sectorNumber] + Blocks(h, disk)
  {
    assert Blocks(h, disk) == h.data[..h.numSectors];
  }

  lemma SmallOwned(h: Header, disk: DiskData)
    requires 0 <= h.numSectors <= 8
    ensures Owned(h, disk) == FileSectors(h)
  {
    assert Blocks(h, disk) == h.data[..h.numSectors];
  }

  predicate IsFile(v: Volume, i: int) {
    2 <= i < |v.dir| && v.dir[i].inUse
  }

  function HeaderOf(v: Volume, i: int): Header
    requires IsFile(v, i)
  {
    if InDisk(v.dir[i].sector) then DecodeHeader(v.disk[v.dir[i].sector]) else DecodeHeader(ZeroBlock())
  }

  // A header in good order for a small file.
  ghost predicate SmallOk(h: Header) {
    && 0 <= h.numBytes && h.numSectors == DivRoundUp(h.numBytes) <= 8 && InDisk(h.sectorNumber)
    && Distinct(FileSectors(h)) && InRange(FileSectors(h), NUM_SECTORS)
  }

  lemma SmallFileOk(h: Header, disk: DiskData)
    requires h.numSectors <= 8
    ensures SmallOk(h) <==> FileOk(h, disk)
  {
    if h.numBytes >= 0 && h.numSectors == DivRoundUp(h.numBytes) {
      SmallOwned(h, disk);
    }
  }

  ghost predicate Owns(v: Volume, i: int, s: int) {
    IsFile(v, i) && s in FileSectors(HeaderOf(v, i))
  }

  ghost predicate FilesOk(v: Volume) {
    forall i :: IsFile(v, i) ==> SmallOk(HeaderOf(v, i)) && HeaderOf(v, i).sectorNumber == v.dir[i].sector
  }

  // The marked sectors are the system's and each file's, with nothing shared.
  ghost predicate Conserved(v: Volume) {
    && |v.bits| == NUM_SECTORS
    && (forall s :: InDisk(s) ==> (v.bits[s] <==> s < SYSTEM_SECTORS || exists i :: Owns(v, i, s)))
    && (forall i, j, s :: Owns(v, i, s) && Owns(v, j, s) ==> i == j)
    && (forall i, s :: Owns(v, i, s) ==> SYSTEM_SECTORS <= s < NUM_SECTORS)
  }

  ghost predicate DirOk(v: Volume) {
    && |v.dir| == NUM_DIR_ENTRIES && Unique(v.dir)
    && v.dir[0] == Entry(true, ROOT_SECTOR, ".", 0) && v.dir[1] == Entry(true, ROOT_SECTOR, "..", 0)
  }

  ghost predicate Inv(v: Volume) {
    DirOk(v) && FilesOk(v) && Conserved(v)
  }

  // ---- one file changes ----

  // Apart from entry k the directory and the other files' headers are the same.
  ghost predicate SameBut(v: Volume, v': Volume, k: int) {
    && |v'.dir| == |v.dir| && 2 <= k < |v.dir|
    && (forall i :: 0 <= i < |v.dir| && i != k ==> v'.dir[i] == v.dir[i])
    && (forall i :: IsFile(v, i) && i != k ==> HeaderOf(v', i) == HeaderOf(v, i))
  }

  // Entry k's sectors go from `was` to `now`, and the map with them.
  ghost predicate Moved(v: Volume, v': Volume, was: seq<int>, now: seq<int>) {
    && |v'.bits| == |v.bits|
    && (forall s :: 0 <= s < |v.bits| ==> (v'.bits[s] <==> (v.bits[s] && s !in was) || s in now))
    && (forall s :: s in now ==> 0 <= s < |v.bits| && (s in was || !v.bits[s]))
  }

  lemma OneFileMoves(v: Volume, v': Volume, k: int, was: seq<int>, now: seq<int>)
    requires Conserved(v) && FilesOk(v) && SameBut(v, v', k) && Moved(v, v', was, now)
    requires forall s :: s in was <==> Owns(v, k, s)
    requires forall s :: s in now <==> Owns(v', k, s)
    requires IsFile(v', k) ==> SmallOk(HeaderOf(v', k)) && HeaderOf(v', k).sectorNumber == v'.dir[k].sector
    ensures Conserved(v') && FilesOk(v')
  {
    assert forall i, s :: i != k ==> (Owns(v', i, s) <==> Owns(v, i, s));
    forall s | InDisk(s)
      ensures v'.bits[s] <==> s < SYSTEM_SECTORS || exists i :: Owns(v', i, s)
    {
      if v'.bits[s] && s !in now {
        assert v.bits[s] && !Owns(v, k, s);
        if s >= SYSTEM_SECTORS {
          var i :| Owns(v, i, s);
          assert Owns(v', i, s);
        }
      }
    }
    forall i, s | i != k && Owns(v, i, s)
      ensures s !in now
    {
      assert SYSTEM_SECTORS <= s < NUM_SECTORS && v.bits[s];
    }
    forall i, s | Owns(v', i, s)
      ensures SYSTEM_SECTORS <= s < NUM_SECTORS
    {
      if i == k && s in was {
        assert Owns(v, k, s);
      }
    }
  }

  // ---- Create ----

  datatype CreateResult = Created | Refused | Crashed
  datatype Creation = Creation(result: CreateResult, vol: Volume)

  // The header of a new file in `sector`; `blank` is what the new header object holds.
  function NewFile(blank: Header, b: Bits, size: nat, sector: int): Allocation
    requires |b| == NUM_SECTORS
  {
    var a := Allocate(blank, b, size);
    a.(hdr := a.hdr.(sectorNumber := sector))
  }

  function Create(v: Volume, name: string, size: nat, blank: Header): Creation
    requires |v.bits| == NUM_SECTORS && size <= 8 * SECTOR_SIZE
  {
    var sector := SearchClear(v.bits, 0);
    if IndexFrom(v.dir, name, 0) != -1 || sector == -1 || FreeFrom(v.dir, 0) == -1 then Creation(Refused, v)
    else
      var a := NewFile(blank, v.bits[sector := true], size, sector);
      match a.outcome
      case Done =>
        Creation(Created, Volume(a.bits, Add(v.dir, name, sector, 1), v.disk[sector := EncodeHeader(a.hdr)]))
      case NoSpace => Creation(Refused, v)
      case Aborted => Creation(Crashed, v)
      case Overrun => Creation(Crashed, v)
  }

  // A header written to its sector is what is read there.
  lemma NewFileOk(blank: Header, b: Bits, size: nat, sector: int)
    requires |b| == NUM_SECTORS && size <= 8 * SECTOR_SIZE && sector == SearchClear(b, 0) != -1
    ensures var a := NewFile(blank, b[sector := true], size, sector);
      && a.outcome != Overrun
      && (a.outcome == Done ==> SmallOk(a.hdr) && Takes(b, FileSectors(a.hdr), a.bits) && a.hdr.numBytes == size)
  {
    var b1 := b[sector := true];
    var a := NewFile(blank, b1, size, sector);
    AllocateSmallTakes(blank, b1, size);
    if a.outcome == Done {
      FindsCons(b, sector, a.hdr.data[..a.hdr.numSectors], a.bits);
    }
  }

  /** Create refuses and changes nothing when the name is taken, the directory full or the disk too
      full; it crashes, with nothing changed, exactly when there is space but no run. */
  lemma CreateFails(v: Volume, name: string, size: nat, blank: Header)
    requires Inv(v) && size <= 8 * SECTOR_SIZE
    ensures var c, n, sector := Create(v, name, size, blank), DivRoundUp(size), SearchClear(v.bits, 0);
      && (c.result != Created ==> c.vol == v)
      && (c.result == Refused <==>
            Find(v.dir, name) != -1 || FreeFrom(v.dir, 0) == -1 || CountClear(v.bits) < n + 1)
      && (c.result == Crashed <==>
            && Find(v.dir, name) == -1 && FreeFrom(v.dir, 0) != -1 && CountClear(v.bits) >= n + 1 && n >= 2
            && NoRun(v.bits[sector := true], n))
  {
    SomeClear(v.bits);
    var sector := SearchClear(v.bits, 0);
    NameTaken(v, name);
    if sector != -1 {
      CountUpdate(v.bits, sector, true);
      AllocateSmallTakes(blank, v.bits[sector := true], size);
    }
  }

  // Every entry in use has a sector, so Find tells whether the name is there.
  lemma NameTaken(v: Volume, name: string)
    requires Inv(v)
    ensures Find(v.dir, name) == -1 <==> IndexFrom(v.dir, name, 0) == -1
  {
    var i := IndexFrom(v.dir, name, 0);
    if i >= 2 {
      assert IsFile(v, i);
    }
  }

  // The entry that Create fills.
  lemma FreeEntry(v: Volume)
    requires DirOk(v) && FreeFrom(v.dir, 0) != -1
    ensures 2 <= FreeFrom(v.dir, 0) < NUM_DIR_ENTRIES && !IsFile(v, FreeFrom(v.dir, 0))
  {
  }

  lemma CreateSameBut(v: Volume, v': Volume, k: int, sector: int, h: Header, e: Entry)
    requires Inv(v) && 2 <= k < NUM_DIR_ENTRIES && !v.dir[k].inUse && InDisk(sector) && !v.bits[sector]
    requires v'.dir == v.dir[k := e] && e.inUse && e.sector == sector == h.sectorNumber
    requires SmallOk(h) && v'.disk == v.disk[sector := EncodeHeader(h)]
    ensures SameBut(v, v', k) && IsFile(v', k) && HeaderOf(v', k) == h
  {
    HeaderRoundTrip(h);
    forall i | IsFile(v, i) && i != k
      ensures v.dir[i].sector != sector
    {
      assert Owns(v, i, FileSectors(HeaderOf(v, i))[0]);
    }
  }

  /** Create keeps the volume in good order. */
  lemma CreateInv(v: Volume, name: string, size: nat, blank: Header)
    requires Inv(v) && size <= 8 * SECTOR_SIZE
    ensures Inv(Create(v, name, size, blank).vol)
    ensures Create(v, name, size, blank).result == Created ==>
      var v', k := Create(v, name, size, blank).vol, FreeFrom(v.dir, 0);
      SameBut(v, v', k) && IsFile(v', k) && Takes(v.bits, FileSectors(HeaderOf(v', k)), v'.bits)
      && HeaderOf(v', k).numBytes == size
  {
    var c := Create(v, name, size, blank);
    if c.result == Created {
      var v', k, sector := c.vol, FreeFrom(v.dir, 0), SearchClear(v.bits, 0);
      var a := NewFile(blank, v.bits[sector := true], size, sector);
      FreeEntry(v);
      NewFileOk(blank, v.bits, size, sector);
      AddAt(v.dir, name, sector, 1);
      CreateSameBut(v, v', k, sector, a.hdr, Entry(true, sector, Key(name), 1));
      TakenMoved(v, v', FileSectors(a.hdr));
      OneFileMoves(v, v', k, [], FileSectors(a.hdr));
    }
  }

  lemma TakenMoved(v: Volume, v': Volume, xs: seq<int>)
    requires Takes(v.bits, xs, v'.bits)
    ensures Moved(v, v', [], xs)
  {
  }

  // ---- Remove ----

  datatype DeleteResult = Deleted | NotThere | Busy | Broken
  datatype Deletion = Deletion(result: DeleteResult, vol: Volume)

  // `open` are the sectors with an open file; Broken stands for a failed assertion.
  function Delete(v: Volume, name: string, open: set<int>): Deletion {
    var sector := Find(v.dir, name);
    if sector == -1 then Deletion(NotThere, v)
    else if sector in open then Deletion(Busy, v)
    else if !InDisk(sector) || DecodeHeader(v.disk[sector]).numSectors > 40 then Deletion(Broken, v)
    else
      match Deallocate(DecodeHeader(v.disk[sector]), v.disk, v.bits)
      case Freed(b) =>
        if 0 <= sector < |b| then Deletion(Deleted, Volume(b[sector := false], Directories.Remove(v.dir, name), v.disk))
        else Deletion(Broken, v)
      case Abort => Deletion(Broken, v)
  }

  // The marked sectors of file k are all there to be cleared.
  lemma FreeFile(v: Volume, k: int)
    requires Inv(v) && IsFile(v, k)
    ensures var h := HeaderOf(v, k); var f := Deallocate(h, v.disk, v.bits);
      && f.Freed? && |f.bits| == NUM_SECTORS && InDisk(h.sectorNumber)
      && Cleared(v.bits, FileSectors(h), f.bits[h.sectorNumber := false])
  {
    var h := HeaderOf(v, k);
    var xs, all := h.data[..h.numSectors], FileSectors(h);
    forall i | 0 <= i < |xs|
      ensures InDisk(xs[i]) && v.bits[xs[i]]
    {
      assert all[i + 1] == xs[i];
      assert Owns(v, k, xs[i]);
    }
    forall i, j | 0 <= i < j < |xs|
      ensures xs[i] != xs[j]
    {
      assert all[i + 1] != all[j + 1];
    }
    ClearAllMeans(v.bits, xs, true);
  }

  lemma FoundFile(v: Volume, name: string, open: set<int>)
    requires Inv(v) && ROOT_SECTOR in open && Find(v.dir, name) != -1 && Find(v.dir, name) !in open
    ensures var k := IndexFrom(v.dir, name, 0);
      && IsFile(v, k) && v.dir[k].sector == Find(v.dir, name) == HeaderOf(v, k).sectorNumber && InDisk(v.dir[k].sector)
      && HeaderOf(v, k) == DecodeHeader(v.disk[v.dir[k].sector])
  {
  }

  /** Remove never fails an assertion, keeps the volume in good order, and frees exactly the sectors
      of the file.  The root directory is open all the time, which protects "." and "..". */
  lemma DeleteInv(v: Volume, name: string, open: set<int>)
    requires Inv(v) && ROOT_SECTOR in open
    ensures var d := Delete(v, name, open);
      && Inv(d.vol) && d.result != Broken && (d.result != Deleted ==> d.vol == v)
      && (d.result == Deleted <==> Find(v.dir, name) != -1 && Find(v.dir, name) !in open)
    ensures Delete(v, name, open).result == Deleted ==>
      var v', k := Delete(v, name, open).vol, IndexFrom(v.dir, name, 0);
      && IsFile(v, k) && !IsFile(v', k) && SameBut(v, v', k)
      && Cleared(v.bits, FileSectors(HeaderOf(v, k)), v'.bits)
  {
    if Find(v.dir, name) != -1 && Find(v.dir, name) !in open {
      var v', k := Delete(v, name, open).vol, IndexFrom(v.dir, name, 0);
      FoundFile(v, name, open);
      FreeFile(v, k);
      FindAfterRemove(v.dir, name, name);
      OneFileMoves(v, v', k, FileSectors(HeaderOf(v, k)), []);
    }
  }

  /** Create and then Remove gives back the map and all entries but the one that was unused. */
  lemma CreateDelete(v: Volume, name: string, size: nat, blank: Header, open: set<int>)
    requires Inv(v) && size <= 8 * SECTOR_SIZE && ROOT_SECTOR in open && SearchClear(v.bits, 0) !in open
    requires Create(v, name, size, blank).result == Created
    ensures var d, k := Delete(Create(v, name, size, blank).vol, name, open), FreeFrom(v.dir, 0);
      && d.result == Deleted && d.vol.bits == v.bits
      && 0 <= k < |d.vol.dir| == |v.dir| && !d.vol.dir[k].inUse && d.vol.dir == v.dir[k := d.vol.dir[k]]
  {
    var v1, k := Create(v, name, size, blank).vol, FreeFrom(v.dir, 0);
    CreateInv(v, name, size, blank);
    AddAt(v.dir, name, SearchClear(v.bits, 0), 1);
    OnlyOne(v1.dir, name, k);
    FindAfterAdd(v.dir, name, SearchClear(v.bits, 0), 1, name);
    DeleteInv(v1, name, open);
    assert At(v1.dir, k, name) && At(v1.dir, IndexFrom(v1.dir, name, 0), name);
    AddRemove(v.dir, name, SearchClear(v.bits, 0), 1);
    TakeThenClear(v.bits, FileSectors(HeaderOf(v1, k)), v1.bits, Delete(v1, name, open).vol.bits);
  }

  // ---- writing ----

  // The volume after a write of n bytes at `position` through a file opened on header h.
  ghost predicate WrittenTo(v: Volume, v': Volume, h: Header, position: nat, n: nat)
    requires |v.bits| == NUM_SECTORS && FileOk(h, v.disk) && InDisk(h.sectorNumber)
  {
    var e := AfterWrite(h, v.bits, position, n);
    && v'.bits == e.bits && v'.dir == v.dir && HeaderWritten(v', e.hdr)
    && OthersKept(v.disk, v'.disk, v.bits, Owned(h, v.disk))
  }

  // The header's sector holds h, with some time stamps.
  ghost predicate HeaderWritten(v: Volume, h: Header) {
    InDisk(h.sectorNumber) && exists text: Text ::
      FileSize(h.(text := text)) && v.disk[h.sectorNumber] == EncodeHeader(h.(text := text))
  }

  // The header in memory is the one on the disk, but for time stamps.
  ghost predicate UpToDate(v: Volume, k: int, h: Header) {
    IsFile(v, k) && h == HeaderOf(v, k).(text := h.text)
  }

  // The header in memory names the sectors that the file has; its length may be an old one.
  ghost predicate Names(v: Volume, k: int, h: Header) {
    && IsFile(v, k) && SmallOk(h) && h.sectorNumber == v.dir[k].sector
    && forall s :: s in FileSectors(h) <==> Owns(v, k, s)
  }

  lemma UpToDateNames(v: Volume, k: int, h: Header)
    requires Inv(v) && UpToDate(v, k, h)
    ensures Names(v, k, h)
  {
    assert FileSectors(h) == FileSectors(HeaderOf(v, k));
  }

  lemma NamesOk(v: Volume, k: int, h: Header)
    requires Inv(v) && Names(v, k, h)
    ensures FileOk(h, v.disk) && Marked(h, v.disk, v.bits) && Owned(h, v.disk) == FileSectors(h)
  {
    SmallFileOk(h, v.disk);
    SmallOwned(h, v.disk);
    forall i | 0 <= i < |Owned(h, v.disk)|
      ensures v.bits[Owned(h, v.disk)[i]]
    {
      assert Owns(v, k, Owned(h, v.disk)[i]);
    }
  }

  lemma GrownSectors(h: Header, b: Bits, e: Extension, disk: DiskData)
    requires Grown(h, b, e, disk) && e.hdr.numSectors <= 8 && e.hdr.sectorNumber == h.sectorNumber
    ensures SmallOk(e.hdr) && FileSectors(e.hdr) == FileSectors(h) + NewClaims(h, e.hdr, disk)
  {
    SmallFileOk(e.hdr, disk);
    SmallBlocks(h, disk);
    SmallBlocks(e.hdr, disk);
    var n, blocks := h.numSectors, Blocks(e.hdr, disk);
    assert NewClaims(h, e.hdr, disk) == blocks[n..];
    assert FileSectors(e.hdr) == [h.sectorNumber] + blocks;
    assert FileSectors(h) == [h.sectorNumber] + blocks[..n];
  }

  // A write moves the file from its old sectors to its new ones.
  ghost predicate MovesTo(v: Volume, h: Header, e: Extension) {
    && SmallOk(e.hdr) && e.hdr.sectorNumber == h.sectorNumber
    && Moved(v, v.(bits := e.bits), FileSectors(h), FileSectors(e.hdr))
  }

  // The file does not grow, or it grows by `size` bytes.
  lemma WriteCases(h: Header, b: Bits, position: nat, n: nat) returns (grows: bool, size: nat)
    requires |b| == NUM_SECTORS && 0 <= h.numBytes && h.numSectors == DivRoundUp(h.numBytes)
    requires 0 < n && position <= h.numBytes < position + n ==> CanGrow(h, b, position + n - h.numBytes)
    ensures grows ==> CanGrow(h, b, size) && AfterWrite(h, b, position, n) == Extend(h, b, size)
    ensures !grows ==> AfterWrite(h, b, position, n) == Extension(Done, h, b)
  {
    grows := 0 < n && position <= h.numBytes < position + n;
    size := if grows then position + n - h.numBytes else 0;
  }

  lemma WriteMoves(v: Volume, h: Header, position: nat, n: nat)
    requires |v.bits| == NUM_SECTORS && SmallOk(h) && FileOk(h, v.disk)
    requires Marked(h, v.disk, v.bits) && Owned(h, v.disk) == FileSectors(h)
    requires 0 < n && position <= h.numBytes < position + n ==> CanGrow(h, v.bits, position + n - h.numBytes)
    ensures MovesTo(v, h, AfterWrite(h, v.bits, position, n))
  {
    var grows, size := WriteCases(h, v.bits, position, n);
    if grows {
      GrowMoves(v, h, size);
    } else {
      StayMoves(v, h);
    }
  }

  lemma StayMoves(v: Volume, h: Header)
    requires |v.bits| == NUM_SECTORS && SmallOk(h) && FileOk(h, v.disk)
    requires Marked(h, v.disk, v.bits) && Owned(h, v.disk) == FileSectors(h)
    ensures MovesTo(v, h, Extension(Done, h, v.bits))
  {
    var xs := FileSectors(h);
    assert forall i :: 0 <= i < |xs| ==> v.bits[xs[i]];
  }

  lemma GrowMoves(v: Volume, h: Header, size: nat)
    requires |v.bits| == NUM_SECTORS && FileOk(h, v.disk) && h.numSectors <= 8 && CanGrow(h, v.bits, size)
    requires Marked(h, v.disk, v.bits) && Owned(h, v.disk) == FileSectors(h)
    ensures MovesTo(v, h, Extend(h, v.bits, size))
  {
    var e := Extend(h, v.bits, size);
    ExtendRightIff(h, v.bits, size, v.disk);
    GrownSectors(h, v.bits, e, v.disk);
    MoreMoved(v, v.(bits := e.bits), FileSectors(h), NewClaims(h, e.hdr, v.disk));
  }

  lemma MoreMoved(v: Volume, v': Volume, was: seq<int>, more: seq<int>)
    requires Takes(v.bits, more, v'.bits) && InRange(was, |v.bits|)
    requires forall i :: 0 <= i < |was| ==> v.bits[was[i]]
    ensures Moved(v, v', was, was + more)
  {
  }

  /** A write through a handle that names the file's sectors keeps the volume in good order, if the
      file needs no new sector or can get what it needs. */
  lemma WriteInv(v: Volume, v': Volume, k: int, h: Header, position: nat, n: nat)
    requires Inv(v) && Names(v, k, h) && FileOk(h, v.disk)
    requires 0 < n && position <= h.numBytes < position + n ==> CanGrow(h, v.bits, position + n - h.numBytes)
    requires WrittenTo(v, v', h, position, n)
    ensures Inv(v') && SameBut(v, v', k)
    ensures UpToDate(v', k, AfterWrite(h, v.bits, position, n).hdr) && SmallOk(AfterWrite(h, v.bits, position, n).hdr)
  {
    var e := AfterWrite(h, v.bits, position, n);
    NamesOk(v, k, h);
    WriteMoves(v, h, position, n);
    KeptHeaders(v, v', k, FileSectors(h));
    WrittenHeader(v, v', k, h, e.hdr);
    OneFileMoves(v, v', k, FileSectors(h), FileSectors(e.hdr));
  }

  lemma WrittenHeader(v: Volume, v': Volume, k: int, h: Header, g: Header)
    requires IsFile(v, k) && h.sectorNumber == v.dir[k].sector == g.sectorNumber && v'.dir == v.dir
    requires HeaderWritten(v', g)
    ensures UpToDate(v', k, g) && FileSectors(HeaderOf(v', k)) == FileSectors(g)
  {
    var text: Text :| FileSize(g.(text := text)) && v'.disk[g.sectorNumber] == EncodeHeader(g.(text := text));
    HeaderRoundTrip(g.(text := text));
  }

  // What another file owns is in use and not file k's.
  lemma OthersOwn(v: Volume, k: int, i: int, s: int)
    requires Conserved(v) && Owns(v, i, s) && i != k
    ensures InDisk(s) && v.bits[s] && !Owns(v, k, s)
  {
  }

  lemma OwnsHeader(v: Volume, i: int)
    requires FilesOk(v) && IsFile(v, i)
    ensures Owns(v, i, v.dir[i].sector)
  {
    assert FileSectors(HeaderOf(v, i))[0] == v.dir[i].sector;
  }

  // The other files' headers are in use and not this file's.
  lemma KeptHeaders(v: Volume, v': Volume, k: int, mine: seq<int>)
    requires Inv(v) && IsFile(v, k) && v'.dir == v.dir
    requires OthersKept(v.disk, v'.disk, v.bits, mine) && forall s :: s in mine ==> Owns(v, k, s)
    ensures SameBut(v, v', k)
  {
    forall i | IsFile(v, i) && i != k
      ensures HeaderOf(v', i) == HeaderOf(v, i)
    {
      OwnsHeader(v, i);
      OthersOwn(v, k, i, v.dir[i].sector);
    }
  }

  ghost function FileBytes(v: Volume, i: int): seq<Byte>
    requires FilesOk(v) && IsFile(v, i)
  {
    SmallFileOk(HeaderOf(v, i), v.disk);
    Content(HeaderOf(v, i), v.disk)
  }

  /** When only sectors change that are free or belong to file k, every other file keeps its bytes. */
  lemma OthersKeepBytes(v: Volume, v': Volume, k: int, i: int, mine: seq<int>)
    requires Inv(v) && FilesOk(v') && SameBut(v, v', k) && IsFile(v, i) && i != k
    requires OthersKept(v.disk, v'.disk, v.bits, mine) && forall s :: s in mine ==> Owns(v, k, s)
    ensures IsFile(v', i) && FileBytes(v', i) == FileBytes(v, i)
  {
    var h := HeaderOf(v, i);
    SmallFileOk(h, v.disk);
    SmallOwned(h, v.disk);
    forall j | 1 <= j < |Owned(h, v.disk)|
      ensures v'.disk[Owned(h, v.disk)[j]] == v.disk[Owned(h, v.disk)[j]]
    {
      assert Owns(v, i, Owned(h, v.disk)[j]);
      OthersOwn(v, k, i, Owned(h, v.disk)[j]);
    }
    SameContent(h, v.disk, h, v'.disk);
  }

  // ---- where conservation fails ----

  // A header is rewritten in place.
  function Rewritten(v: Volume, g: Header): Volume
    requires FileSize(g)
  {
    v.(disk := v.disk[g.sectorNumber := EncodeHeader(g)])
  }

  lemma RewrittenSameBut(v: Volume, k: int, g: Header)
    requires Inv(v) && IsFile(v, k) && FileSize(g) && g.sectorNumber == v.dir[k].sector
    ensures SameBut(v, Rewritten(v, g), k) && HeaderOf(Rewritten(v, g), k) == g
  {
    HeaderRoundTrip(g);
    forall i | IsFile(v, i) && i != k
      ensures v.dir[i].sector != g.sectorNumber
    {
      OwnsHeader(v, i);
      OwnsHeader(v, k);
      OthersOwn(v, k, i, v.dir[i].sector);
    }
  }

  /** Reading or writing through an open file puts the handle's header back on the disk.  That keeps
      the volume in order exactly when the handle names the sectors the disk's header names, which
      a second open file on the same file no longer does after the first has made it grow. */
  lemma RewriteConservesIff(v: Volume, k: int, g: Header)
    requires Inv(v) && IsFile(v, k) && FileSize(g) && SmallOk(g) && g.sectorNumber == v.dir[k].sector
    ensures Inv(Rewritten(v, g)) <==> forall s :: s in FileSectors(g) <==> Owns(v, k, s)
  {
    var v' := Rewritten(v, g);
    var was, now := FileSectors(HeaderOf(v, k)), FileSectors(g);
    RewrittenSameBut(v, k, g);
    if forall s :: s in now <==> Owns(v, k, s) {
      assert forall s :: s in was <==> s in now;
      OneFileMoves(v, v', k, was, now);
    } else if Inv(v') {
      forall s
        ensures s in now <==> Owns(v, k, s)
      {
        SameOwner(v, v', k, s);
        SameOwner(v', v, k, s);
      }
    }
  }

  lemma SameOwner(v: Volume, v': Volume, k: int, s: int)
    requires Conserved(v) && Conserved(v') && v'.bits == v.bits && v'.dir == v.dir
    requires forall i :: IsFile(v, i) && i != k ==> HeaderOf(v', i) == HeaderOf(v, i)
    ensures Owns(v, k, s) ==> Owns(v', k, s)
  {
    if Owns(v, k, s) {
      assert SYSTEM_SECTORS <= s < NUM_SECTORS && v'.bits[s];
      var i :| Owns(v', i, s);
      if i != k {
        assert Owns(v, i, s);
      }
    }
  }

  /** Two handles on one file, and the file gets new sectors through one of them: any use of the
      other, which puts its old header back, breaks the volume. */
  lemma StaleHandleBreaks(v: Volume, v': Volume, k: int, h: Header, position: nat, n: nat, text: Text)
    requires Inv(v) && Names(v, k, h) && FileOk(h, v.disk) && WrittenTo(v, v', h, position, n)
    requires position <= h.numBytes < position + n && DivRoundUp(position + n) > h.numSectors
    requires CanGrow(h, v.bits, position + n - h.numBytes)
    ensures FileSize(h.(text := text)) && !Inv(Rewritten(v', h.(text := text)))
  {
    var e, g := AfterWrite(h, v.bits, position, n), h.(text := text);
    WriteInv(v, v', k, h, position, n);
    WrittenHeader(v, v', k, h, e.hdr);
    assert FileSectors(g) == FileSectors(h);
    RewriteConservesIff(v', k, g);
    var s := NotTheSame(FileSectors(e.hdr), FileSectors(h));
    assert s in FileSectors(g) <==> !Owns(v', k, s);
  }

  // The volume after a write that may have failed to get its sectors: the header is the longer one
  // all the same, and data went to whatever sectors it names.
  ghost predicate WrittenThrough(v: Volume, v': Volume, h: Header, position: nat, n: nat)
    requires |v.bits| == NUM_SECTORS && FileOk(h, v.disk) && InDisk(h.sectorNumber)
  {
    var e := AfterWrite(h, v.bits, position, n);
    && v'.bits == e.bits && v'.dir == v.dir && HeaderWritten(v', e.hdr)
    && (e.hdr.numSectors <= 8 ==> KeptOutside(v.disk, v'.disk, FileSectors(e.hdr)))
  }

  /** A write that makes the file longer leaves the volume in good order exactly when the file needs
      no new sector, or stays within eight and enough are clear.  If not, the code goes on all the
      same: the header it leaves claims sectors that are not marked for it, and the data may have
      gone over another file's.  A file of nine sectors or more is outside Inv by its own bound;
      FileHeaders.ExtendRightIff is about those. */
  lemma WriteConservesIff(v: Volume, v': Volume, k: int, h: Header, position: nat, n: nat)
    requires Inv(v) && Names(v, k, h) && FileOk(h, v.disk) && WrittenThrough(v, v', h, position, n)
    requires position <= h.numBytes < position + n
    ensures Inv(v') <==> CanGrow(h, v.bits, position + n - h.numBytes)
  {
    var size: nat := position + n - h.numBytes;
    if CanGrow(h, v.bits, size) {
      ThroughIsTo(v, v', k, h, position, n, size);
      WriteInv(v, v', k, h, position, n);
    } else {
      FailedWriteBreaks(v, v', k, h, position, n, size);
    }
  }

  // A write that gets its sectors touches the file's own and free ones only.
  lemma ThroughIsTo(v: Volume, v': Volume, k: int, h: Header, position: nat, n: nat, size: nat)
    requires Inv(v) && Names(v, k, h) && FileOk(h, v.disk) && WrittenThrough(v, v', h, position, n)
    requires position <= h.numBytes < position + n && size == position + n - h.numBytes && CanGrow(h, v.bits, size)
    ensures WrittenTo(v, v', h, position, n)
  {
    var e := Extend(h, v.bits, size);
    NamesOk(v, k, h);
    GrowsWell(h, v.bits, size, v.disk);
    SmallOwned(e.hdr, v.disk);
  }

  lemma FailedWriteBreaks(v: Volume, v': Volume, k: int, h: Header, position: nat, n: nat, size: nat)
    requires Inv(v) && Names(v, k, h) && FileOk(h, v.disk) && WrittenThrough(v, v', h, position, n)
    requires position <= h.numBytes < position + n && size == position + n - h.numBytes && !CanGrow(h, v.bits, size)
    ensures !Inv(v')
  {
    var e := AfterWrite(h, v.bits, position, n);
    WrittenHeader(v, v', k, h, e.hdr);
    if FilesOk(v') && Conserved(v') {
      assert e.hdr.numSectors <= 8;
      OthersHeadersKept(v, v', k, e.hdr);
      NoSectorsTaken(v, v', k, h, e.hdr);
    }
  }

  // In a volume in good order no file's header is among the sectors of another.
  lemma OthersHeadersKept(v: Volume, v': Volume, k: int, g: Header)
    requires FilesOk(v') && Conserved(v') && IsFile(v', k) && v'.dir == v.dir
    requires FileSectors(HeaderOf(v', k)) == FileSectors(g) && KeptOutside(v.disk, v'.disk, FileSectors(g))
    ensures SameBut(v, v', k)
  {
    forall i | IsFile(v, i) && i != k
      ensures HeaderOf(v', i) == HeaderOf(v, i)
    {
      OwnsHeader(v', i);
      OthersOwn(v', k, i, v'.dir[i].sector);
    }
  }

  lemma NoSectorsTaken(v: Volume, v': Volume, k: int, h: Header, g: Header)
    requires Inv(v) && Names(v, k, h) && SameBut(v, v', k) && v'.bits == v.bits && v'.dir == v.dir
    requires FileSectors(HeaderOf(v', k)) == FileSectors(g) && SmallOk(g) && g.numSectors > h.numSectors
    ensures !Inv(v')
  {
    var s := NotTheSame(FileSectors(g), FileSectors(h));
    if Conserved(v') {
      SameOwner(v, v', k, s);
      SameOwner(v', v, k, s);
    }
  }

  lemma NotTheSame(xs: seq<int>, ys: seq<int>) returns (s: int)
    requires Distinct(xs) && Distinct(ys) && |xs| != |ys|
    ensures s in xs <==> s !in ys
  {
    DistinctSize(xs);
    DistinctSize(ys);
    var X, Y := set x | x in xs, set y | y in ys;
    assert X != Y;
    s :| s in X <==> s !in Y;
  }

  // ---- format ----

  // The first k sectors are marked.
  ghost predicate Prefix(b: Bits, k: nat) {
    |b| == NUM_SECTORS && forall s :: 0 <= s < |b| ==> (b[s] <==> s < k)
  }

  lemma {:induction false} RunCounts(b: Bits, n: nat)
    requires |b| == n && forall i :: 0 <= i < n ==> !b[i]
    ensures CountClear(b) == n
  {
    if n > 0 {
      RunCounts(b[1..], n - 1);
    }
  }

  /** On a freshly formatted disk a file's sectors follow those already taken. */
  lemma AllocateAfterPrefix(blank: Header, b: Bits, k: nat, size: nat)
    requires Prefix(b, k) && 0 < size <= 8 * SECTOR_SIZE && k + DivRoundUp(size) <= NUM_SECTORS
    ensures var a := Allocate(blank, b, size);
      && a.outcome == Done && Prefix(a.bits, k + DivRoundUp(size)) && a.index == []
      && a.hdr == blank.(numBytes := size, numSectors := DivRoundUp(size), data := a.hdr.data)
  {
    var n := DivRoundUp(size);
    CountPrefix(b, k);
    RunCounts(b[k..], NUM_SECTORS - k);
    SearchAfterPrefix(b, k, n);
  }

  lemma SearchAfterPrefix(b: Bits, k: nat, n: nat)
    requires Prefix(b, k) && 0 < n && k + n <= NUM_SECTORS
    ensures SearchRun(b, n, 0) == Found(k)
  {
    SearchRunMeans(b, n);
    assert RunAt(b, k, n);
    var start := SearchRun(b, n, 0).start;
    assert !b[start];
  }
}
