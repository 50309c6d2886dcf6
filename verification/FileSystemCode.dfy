/** The code of filesys/filesys.cc: format, Create and Remove on objects.  The contents of the map's
    file and of the root directory's file are kept beside the disk. */
module FileSystemCode {
  import opened Basics
  import opened Bytes
  import opened Bitmaps
  import D = Directories
  import FH = FileHeaders
  import opened HeaderCode
  import OF = OpenFiles
  import V = Volumes
  import S = FileSystems

  const FREE_MAP_SECTOR := 0
  const DIRECTORY_SECTOR := 1
  const FREE_MAP_FILE_SIZE := 128
  const DIRECTORY_FILE_SIZE := 360

  class FileSystem {
    const disk: Disk
    var mapFile: seq<nat>
    var dirFile: seq<D.Entry>
    var vis: seq<nat>
    ghost var bits: Bits

    ghost predicate Valid()
      reads this, disk
    {
      && Represents(mapFile, bits) && |bits| == NUM_SECTORS == |vis|
      && vis[FREE_MAP_SECTOR] > 0 && vis[DIRECTORY_SECTOR] > 0 && V.Inv(Vol())
    }

    ghost function Vol(): V.Volume
      reads this, disk
    {
      V.Volume(bits, dirFile, disk.sectors)
    }

    ghost function OpenSet(): set<int>
      reads this
    {
      set s | 0 <= s < |vis| && vis[s] > 0
    }

    /** Formatting leaves the six system sectors marked and an empty directory. */
    constructor (disk: Disk, blank: FH.Header, stack: seq<Int32>)
      requires |stack| == 32
      modifies disk
      ensures this.disk == disk && Valid() && S.Formatted(Vol())
    {
      this.disk := disk;
      dirFile := D.NewTable();
      mapFile, bits := [], [];
      vis := seq(NUM_SECTORS, i => if i <= 1 then 1 else 0);
      new;
      var freeMap := new BitMap(NUM_SECTORS);
      freeMap.Mark(FREE_MAP_SECTOR);
      freeMap.Mark(DIRECTORY_SECTOR);
      FormatFile(freeMap, 2, FREE_MAP_SECTOR, FREE_MAP_FILE_SIZE, blank, stack);
      FormatFile(freeMap, 3, DIRECTORY_SECTOR, DIRECTORY_FILE_SIZE, blank, stack);
      mapFile := freeMap.WriteBack();
      bits := freeMap.bits;
      S.FormattedInv(Vol());
    }

    method FormatFile(freeMap: BitMap, ghost k: nat, sector: int, size: nat, blank: FH.Header, stack: seq<Int32>)
      requires freeMap.Valid() && V.Prefix(freeMap.bits, k) && FH.InDisk(sector) && |stack| == 32
      requires freeMap.numBits == NUM_SECTORS
      requires 0 < size <= 8 * FH.SECTOR_SIZE && k + FH.DivRoundUp(size) <= NUM_SECTORS
      modifies disk, freeMap, freeMap.map_
      ensures freeMap.Valid() && V.Prefix(freeMap.bits, k + FH.DivRoundUp(size))
    {
      V.AllocateAfterPrefix(blank, freeMap.bits, k, size);
      var hdr := new FileHeader(blank);
      var _ := hdr.Allocate(freeMap, disk, size, stack);
      hdr.sectorNumber := sector;
      disk.WriteSector(sector, OF.EncodeHeader(hdr.View()));
    }

    // Fetch a bit map from the map's file.
    method FetchMap() returns (freeMap: BitMap)
      requires Represents(mapFile, bits) && |bits| == NUM_SECTORS
      ensures fresh(freeMap) && fresh(freeMap.map_) && freeMap.Valid() && freeMap.numBits == NUM_SECTORS
      ensures freeMap.bits == bits
    {
      freeMap := new BitMap(NUM_SECTORS);
      freeMap.FetchFrom(mapFile, bits);
    }

    /** Create does what Volumes.Create says, and so keeps the volume in good order. */
    method Create(name: string, size: nat, blank: FH.Header, stack: seq<Int32>) returns (r: V.CreateResult)
      requires Valid() && size <= 8 * FH.SECTOR_SIZE && |stack| == 32
      modifies this, disk
      ensures Valid() && vis == old(vis)
      ensures r == V.Create(old(Vol()), name, size, blank).result
      ensures Vol() == V.Create(old(Vol()), name, size, blank).vol
    {
      V.CreateInv(Vol(), name, size, blank);
      V.NameTaken(Vol(), name);
      var dir := new D.Directory();
      dir.table := dirFile;
      var there := dir.Lookup(name);
      if there != -1 {
        return V.Refused;
      }
      var freeMap := FetchMap();
      var sector := freeMap.Find();
      if sector == -1 {
        return V.Refused;
      }
      var added := dir.AddEntry(name, sector, 1);
      if !added {
        return V.Refused;
      }
      r := Finish(dir, freeMap, sector, size, blank, stack);
    }

    // The entry is added and the header's sector taken, in memory.
    method Finish(dir: D.Directory, freeMap: BitMap, sector: int, size: nat, blank: FH.Header, stack: seq<Int32>)
      returns (r: V.CreateResult)
      requires FH.InDisk(sector) && size <= 8 * FH.SECTOR_SIZE && |stack| == 32
      requires freeMap.Valid() && freeMap.numBits == NUM_SECTORS
      modifies this, disk, freeMap, freeMap.map_
      ensures r != V.Created ==> mapFile == old(mapFile)
      ensures var a := V.NewFile(blank, old(freeMap.bits), size, sector);
        && (r == V.Created <==> a.outcome == FH.Done) && (r == V.Refused <==> a.outcome == FH.NoSpace)
        && (r == V.Created ==>
              && Represents(mapFile, bits)
              && Vol() == V.Volume(a.bits, dir.table, old(disk.sectors)[sector := OF.EncodeHeader(a.hdr)]))
        && (r != V.Created ==> Vol() == old(Vol()))
      ensures vis == old(vis)
    {
      var hdr := new FileHeader(blank);
      var outcome := hdr.Allocate(freeMap, disk, size, stack);
      match outcome
      case Done =>
        hdr.sectorNumber := sector;
        disk.WriteSector(sector, OF.EncodeHeader(hdr.View()));
        dirFile := dir.table;
        mapFile := freeMap.WriteBack();
        bits := freeMap.bits;
        r := V.Created;
      case NoSpace => r := V.Refused;
      case Aborted => r := V.Crashed;
      case Overrun => r := V.Crashed;
    }

    /** Remove does what Volumes.Delete says; it fails no assertion. */
    method Remove(name: string) returns (r: V.DeleteResult)
      requires Valid()
      modifies this
      ensures Valid() && vis == old(vis) && r != V.Broken
      ensures r == V.Delete(old(Vol()), name, OpenSet()).result
      ensures Vol() == V.Delete(old(Vol()), name, OpenSet()).vol
    {
      ghost var v, open := Vol(), OpenSet();
      V.DeleteInv(v, name, open);
      var dir := new D.Directory();
      dir.table := dirFile;
      var sector := dir.Lookup(name);
      if sector == -1 {
        return V.NotThere;
      }
      SectorInDisk(v, name);
      if vis[sector] > 0 {
        return V.Busy;
      }
      V.FoundFile(v, name, open);
      r := Free(dir, sector, name);
    }

    method Free(dir: D.Directory, sector: int, name: string) returns (r: V.DeleteResult)
      requires Represents(mapFile, bits) && |bits| == NUM_SECTORS && FH.InDisk(sector)
      requires dir.table == dirFile && OF.DecodeHeader(disk.sectors[sector]).numSectors <= 40
      requires FH.Deallocate(OF.DecodeHeader(disk.sectors[sector]), disk.sectors, bits).Freed?
      requires |FH.Deallocate(OF.DecodeHeader(disk.sectors[sector]), disk.sectors, bits).bits| == NUM_SECTORS
      modifies this, dir
      ensures r == V.Deleted && vis == old(vis) && Represents(mapFile, bits)
      ensures bits == FH.Deallocate(OF.DecodeHeader(disk.sectors[sector]), disk.sectors, old(bits)).bits[sector := false]
      ensures dirFile == D.Remove(old(dirFile), name)
    {
      var hdr := new FileHeader(OF.DecodeHeader(disk.sectors[sector]));
      var freeMap := FetchMap();
      var _ := hdr.Deallocate(freeMap, disk);
      freeMap.Clear(sector);
      var _ := dir.RemoveEntry(name);
      mapFile := freeMap.WriteBack();
      bits := freeMap.bits;
      dirFile := dir.table;
      r := V.Deleted;
    }

    /** A write through an up-to-date handle replaces exactly its range of the file, keeps the volume
        in good order and changes no other file. */
    method Write(f: OF.OpenFile, ghost k: int, from: seq<Byte>, position: nat) returns (n: int)
      requires Valid() && f.disk == disk && V.UpToDate(Vol(), k, f.hdr.View())
      requires from != [] && position <= f.hdr.numBytes < position + |from| ==>
        FH.CanGrow(f.hdr.View(), bits, position + |from| - f.hdr.numBytes)
      modifies this, disk, f.hdr
      ensures Valid() && V.UpToDate(Vol(), k, f.hdr.View()) && vis == old(vis) && dirFile == old(dirFile)
      ensures n == (if position > old(f.hdr.numBytes) then 0 else |from|)
      ensures n == 0 ==> V.FileBytes(Vol(), k) == old(V.FileBytes(Vol(), k))
      ensures n > 0 ==> position <= |old(V.FileBytes(Vol(), k))|
      ensures n > 0 ==> V.FileBytes(Vol(), k) == OF.Spliced(old(V.FileBytes(Vol(), k)), position, from)
      ensures forall i :: V.IsFile(Vol(), i) && i != k ==> V.FileBytes(Vol(), i) == old(V.FileBytes(Vol(), i))
    {
      ghost var v, h := Vol(), f.hdr.View();
      HandleSees(v, k, h);
      var freeMap := FetchMap();
      n := f.WriteAt(from, position, freeMap);
      mapFile := freeMap.WriteBack();
      bits := freeMap.bits;
      if n > 0 {
        WriteIsStep(v, Vol(), k, h, f.hdr.View(), position, |from|);
        HandleSees(Vol(), k, f.hdr.View());
      }
    }
  }

  // What an up-to-date handle sees is the file.
  lemma HandleSees(v: V.Volume, k: int, h: FH.Header)
    requires V.Inv(v) && V.UpToDate(v, k, h)
    ensures FH.FileOk(h, v.disk) && OF.Marked(h, v.disk, v.bits) && V.FileBytes(v, k) == OF.Content(h, v.disk)
  {
    V.UpToDateNames(v, k, h);
    V.NamesOk(v, k, h);
    V.SmallFileOk(V.HeaderOf(v, k), v.disk);
    OF.SameContent(h, v.disk, V.HeaderOf(v, k), v.disk);
  }

  // What WriteAt promises is a step of the file system.
  lemma WriteIsStep(v: V.Volume, v': V.Volume, k: int, h: FH.Header, h': FH.Header, position: nat, n: nat)
    requires V.Inv(v) && V.UpToDate(v, k, h) && FH.FileOk(h, v.disk) && 0 < n && position <= h.numBytes
    requires h.numBytes < position + n ==> FH.CanGrow(h, v.bits, position + n - h.numBytes)
    requires OF.OthersKept(v.disk, v'.disk, v.bits, FH.Owned(h, v.disk)) && v'.dir == v.dir
    requires h' == OF.AfterWrite(h, v.bits, position, n).hdr.(text := h'.text)
    requires v'.bits == OF.AfterWrite(h, v.bits, position, n).bits
    requires OF.FileSize(h') && v'.disk[h'.sectorNumber] == OF.EncodeHeader(h')
    ensures V.Inv(v') && V.UpToDate(v', k, h')
    ensures forall i :: V.IsFile(v, i) && i != k ==> V.IsFile(v', i) && V.FileBytes(v', i) == V.FileBytes(v, i)
  {
    var e := OF.AfterWrite(h, v.bits, position, n);
    assert e.hdr.(text := h'.text) == h';
    V.UpToDateNames(v, k, h);
    V.NamesOk(v, k, h);
    V.WriteInv(v, v', k, h, position, n);
    forall i | V.IsFile(v, i) && i != k
      ensures V.IsFile(v', i) && V.FileBytes(v', i) == V.FileBytes(v, i)
    {
      V.OthersKeepBytes(v, v', k, i, FH.Owned(h, v.disk));
    }
  }

  lemma SectorInDisk(v: V.Volume, name: string)
    requires V.Inv(v) && D.Find(v.dir, name) != -1
    ensures FH.InDisk(D.Find(v.dir, name))
  {
    var k := D.IndexFrom(v.dir, name, 0);
    if k >= 2 {
      assert V.IsFile(v, k);
    }
  }
}
