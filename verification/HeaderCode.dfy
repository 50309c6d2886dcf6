/** The code of filesys/filehdr.cc: FileHeader objects, updated in place, over a disk and a bit
    map.  Disk reads and writes are whole and synchronous, which module SynchDisk justifies. */
module HeaderCode {
  import opened Basics
  import opened Bytes
  import opened Bitmaps
  import H = FileHeaders
  import opened FileHeaders

  class Disk {
    var sectors: DiskData

    constructor (sectors: DiskData)
      ensures this.sectors == sectors
    {
      this.sectors := sectors;
    }

    method ReadSector(sector: int) returns (data: Block)
      requires InDisk(sector)
      ensures data == sectors[sector]
    {
      data := sectors[sector];
    }

    method WriteSector(sector: int, data: Block)
      requires InDisk(sector)
      modifies this
      ensures sectors == old(sectors)[sector := data]
    {
      sectors := sectors[sector := data];
    }
  }

  // n Finds on a bit map, as the loops that fill a slot array do.
  method FindMany(freeMap: BitMap, n: nat) returns (xs: seq<Int32>)
    requires freeMap.Valid() && freeMap.numBits == NUM_SECTORS
    modifies freeMap, freeMap.map_
    ensures freeMap.Valid() && xs == Finds(old(freeMap.bits), n) && freeMap.bits == AfterFinds(old(freeMap.bits), n)
  {
    xs := [];
    ghost var b := freeMap.bits;
    var i := 0;
    while i < n
      invariant 0 <= i <= n
      invariant freeMap.Valid() && xs == Finds(b, i) && freeMap.bits == AfterFinds(b, i)
    {
      FindsOneMore(b, i);
      var s := freeMap.Find();
      xs := xs + [s];
      i := i + 1;
    }
  }

  lemma FindsOneMore(b: Bits, i: nat)
    requires |b| == NUM_SECTORS
    ensures Finds(b, i + 1) == Finds(b, i) + [SearchClear(AfterFinds(b, i), 0)]
    ensures AfterFinds(b, i + 1) == Mark(AfterFinds(b, i), SearchClear(AfterFinds(b, i), 0))
  {
    FindsSplit(b, i, 1);
    FindsOnce(AfterFinds(b, i));
  }

  lemma FindsOnce(b: Bits)
    requires |b| == NUM_SECTORS
    ensures Finds(b, 1) == [SearchClear(b, 0)] && AfterFinds(b, 1) == Mark(b, SearchClear(b, 0))
  {
    assert Finds(Mark(b, SearchClear(b, 0)), 0) == [];
  }

  lemma LastSlotInDisk(b: Bits, n: nat)
    requires |b| == NUM_SECTORS && 0 < n <= CountClear(b)
    ensures InDisk(Finds(b, n)[n - 1])
  {
    FindsTake(b, n);
  }

  class FileHeader {
    var numBytes: int
    var numSectors: int
    var data: Slots
    var text: Text
    var sectorNumber: int

    constructor (h: Header)
      ensures View() == h
    {
      numBytes, numSectors, data, text, sectorNumber := h.numBytes, h.numSectors, h.data, h.text, h.sectorNumber;
    }

    function View(): Header
      reads this
    {
      Header(numBytes, numSectors, data, text, sectorNumber)
    }

    // Fewer than nine sectors: one run if there is one.
    method AllocateRun(freeMap: BitMap) returns (r: Outcome)
      requires freeMap.Valid() && freeMap.numBits == NUM_SECTORS && numSectors < NUM_DIRECT
      modifies this, freeMap, freeMap.map_
      ensures freeMap.Valid()
      ensures var a := AllocateSmall(old(View()), old(freeMap.bits), old(numSectors));
        r == a.outcome && View() == a.hdr && freeMap.bits == a.bits
    {
      var count: nat := if numSectors < 0 then 0 else numSectors;
      SearchInRange(freeMap.bits, numSectors);
      var found := freeMap.MyFind(numSectors);
      match found
      case Found(start) =>
        FillSlots(start, count);
        r := Done;
      case NotFound =>
        var xs := FindMany(freeMap, count);
        data := PutSlots(data, xs);
        r := Done;
      case Aborted =>
        r := Outcome.Aborted;
    }

    method FillSlots(start: nat, count: nat)
      requires start + count <= NUM_SECTORS && count < NUM_DIRECT
      modifies this`data
      ensures data == PutSlots(old(data), RunFrom(start, count))
    {
      var i := 0;
      while i < count
        invariant 0 <= i <= count
        invariant data == PutSlots(old(data), RunFrom(start, i))
      {
        data := data[i := start + i];
        i := i + 1;
      }
    }

    // `stack` is what the local index array holds before it is filled.
    method AllocateIndexed(freeMap: BitMap, disk: Disk, stack: seq<Int32>) returns (r: Outcome)
      requires freeMap.Valid() && freeMap.numBits == NUM_SECTORS && |stack| == 32
      requires NUM_DIRECT <= numSectors <= CountClear(freeMap.bits)
      modifies this, freeMap, freeMap.map_, disk
      ensures freeMap.Valid()
      ensures var a := AllocateLarge(old(View()), old(freeMap.bits), old(numSectors));
        && r == a.outcome && View() == a.hdr && freeMap.bits == a.bits
        && disk.sectors == WithIndex(old(disk.sectors), a, stack)
    {
      FillDirect(freeMap);
      if numSectors - NUM_DIRECT + 1 > 32 {
        return Overrun;
      }
      WriteIndex(freeMap, disk, numSectors - NUM_DIRECT + 1, stack);
      return Done;
    }

    method FillDirect(freeMap: BitMap)
      requires freeMap.Valid() && freeMap.numBits == NUM_SECTORS && NUM_DIRECT <= CountClear(freeMap.bits)
      modifies this`data, freeMap, freeMap.map_
      ensures freeMap.Valid() && freeMap.bits == AfterFinds(old(freeMap.bits), NUM_DIRECT)
      ensures data == Finds(old(freeMap.bits), NUM_DIRECT) && InDisk(Block8(data))
    {
      LastSlotInDisk(freeMap.bits, NUM_DIRECT);
      data := FindMany(freeMap, NUM_DIRECT);
    }

    method WriteIndex(freeMap: BitMap, disk: Disk, n: nat, stack: seq<Int32>)
      requires freeMap.Valid() && freeMap.numBits == NUM_SECTORS && n <= 32 == |stack| && InDisk(Block8(data))
      modifies freeMap, freeMap.map_, disk
      ensures freeMap.Valid() && freeMap.bits == AfterFinds(old(freeMap.bits), n)
      ensures disk.sectors == old(disk.sectors)[Block8(data) := IndexBlock(Finds(old(freeMap.bits), n), stack)]
    {
      var index := FindMany(freeMap, n);
      disk.WriteSector(data[NUM_DIRECT - 1], IndexBlock(index, stack));
    }

    method Allocate(freeMap: BitMap, disk: Disk, fileSize: int, stack: seq<Int32>) returns (r: Outcome)
      requires freeMap.Valid() && freeMap.numBits == NUM_SECTORS && |stack| == 32
      modifies this, freeMap, freeMap.map_, disk
      ensures freeMap.Valid()
      ensures var a := H.Allocate(old(View()), old(freeMap.bits), fileSize);
        && r == a.outcome && View() == a.hdr && freeMap.bits == a.bits
        && |a.index| <= 32 && disk.sectors == WithIndex(old(disk.sectors), a, stack)
    {
      numBytes := fileSize;
      numSectors := DivRoundUp(fileSize);
      var clear := freeMap.NumClear();
      if clear < numSectors {
        return NoSpace;
      }
      if numSectors < NUM_DIRECT {
        r := AllocateRun(freeMap);
      } else {
        r := AllocateIndexed(freeMap, disk, stack);
      }
    }

    method Deallocate(freeMap: BitMap, disk: Disk) returns (abort: bool)
      requires freeMap.Valid() && freeMap.numBits == NUM_SECTORS && numSectors <= 40
      modifies freeMap, freeMap.map_
      ensures freeMap.Valid()
      ensures var f := H.Deallocate(View(), disk.sectors, old(freeMap.bits));
        abort == f.Abort? && (f.Freed? ==> freeMap.bits == f.bits)
    {
      if numSectors < NUM_DIRECT {
        var n := if numSectors < 0 then 0 else numSectors;
        abort := ClearMany(freeMap, data[..n], true);
      } else {
        if !InDisk(data[NUM_DIRECT - 1]) {
          return true;
        }
        var lows := Lows(disk);
        abort := ClearMany(freeMap, lows + data, false);
      }
    }

    // The index entries as the code reads them: one signed byte of each.
    method Lows(disk: Disk) returns (lows: seq<int>)
      requires NUM_DIRECT <= numSectors <= 40 && InDisk(data[NUM_DIRECT - 1])
      ensures lows == Blocks(View(), disk.sectors)[8..]
    {
      var index := disk.ReadSector(data[NUM_DIRECT - 1]);
      lows := [];
      var i := 0;
      while i < numSectors - NUM_DIRECT + 1
        invariant 0 <= i <= numSectors - 8
        invariant lows == Blocks(View(), disk.sectors)[8..8 + i]
      {
        lows := lows + [SignedByte(index[i * 4])];
        i := i + 1;
      }
    }

    method ByteToSector(disk: Disk, offset: nat) returns (sector: int)
      requires offset >= 8 * SECTOR_SIZE ==> InDisk(Block8(data)) && offset < 40 * SECTOR_SIZE
      ensures sector == BlockOf(View(), disk.sectors, offset / SECTOR_SIZE)
    {
      if offset < (NUM_DIRECT - 1) * SECTOR_SIZE {
        sector := data[offset / SECTOR_SIZE];
      } else {
        var i := (offset - (NUM_DIRECT - 1) * SECTOR_SIZE) / SECTOR_SIZE;
        var index := disk.ReadSector(data[NUM_DIRECT - 1]);
        sector := SignedByte(index[i * 4]);
      }
    }

    method Extend(freeMap: BitMap, size: int) returns (r: Outcome)
      requires freeMap.Valid() && freeMap.numBits == NUM_SECTORS
      requires 0 <= numBytes && numSectors == DivRoundUp(numBytes) && size >= 0
      modifies this, freeMap, freeMap.map_
      ensures freeMap.Valid()
      ensures var e := H.Extend(old(View()), old(freeMap.bits), size);
        r == e.outcome && View() == e.hdr && freeMap.bits == e.bits
    {
      numBytes := numBytes + size;
      var oldSectors := numSectors;
      numSectors := DivRoundUp(numBytes);
      if oldSectors == numSectors {
        return Done;
      }
      var clear := freeMap.NumClear();
      if clear < numSectors - oldSectors {
        return NoSpace;
      }
      if numSectors > NUM_DIRECT {
        return Overrun;
      }
      var xs := FindMany(freeMap, numSectors - oldSectors);
      data := data[..oldSectors] + xs + data[numSectors..];
      return Done;
    }
  }

  method ClearMany(freeMap: BitMap, xs: seq<int>, check: bool) returns (abort: bool)
    requires freeMap.Valid()
    modifies freeMap, freeMap.map_
    ensures freeMap.Valid()
    ensures var f := ClearAll(old(freeMap.bits), xs, check);
      abort == f.Abort? && (f.Freed? ==> freeMap.bits == f.bits)
  {
    var i := 0;
    while i < |xs|
      invariant 0 <= i <= |xs|
      invariant freeMap.Valid() && ClearAll(freeMap.bits, xs[i..], check) == ClearAll(old(freeMap.bits), xs, check)
    {
      assert xs[i..][1..] == xs[i + 1..];
      if !(0 <= xs[i] < freeMap.numBits) {
        return true;
      }
      var marked := freeMap.Test(xs[i]);
      if check && !marked {
        return true;
      }
      freeMap.Clear(xs[i]);
      i := i + 1;
    }
    return false;
  }
}
