/** File headers (filesys/filehdr.cc): which sectors hold a file, directly or through an index
    block, and how they are taken from and given back to the map of free sectors. */
module FileHeaders {
  import opened Basics
  import opened Bytes
  import opened Bitmaps

  const SECTOR_SIZE := 128
  const NUM_DIRECT := 9

  type Block = b: seq<Byte> | |b| == SECTOR_SIZE witness seq(SECTOR_SIZE, _ => 0)
  type DiskData = d: seq<Block> | |d| == NUM_SECTORS witness seq<Block>(NUM_SECTORS, _ => ZeroBlock())
  type Slots = s: seq<Int32> | |s| == NUM_DIRECT witness seq(NUM_DIRECT, _ => 0)
  type Text = t: seq<Byte> | |t| == 80 witness seq(80, _ => 0)

  // The type string and the three time stamps are `text`.
  datatype Header = Header(numBytes: int, numSectors: int, data: Slots, text: Text, sectorNumber: int)

  function ZeroBlock(): Block {
    seq(SECTOR_SIZE, _ => 0)
  }

  predicate InDisk(s: int) {
    0 <= s < NUM_SECTORS
  }

  // The rounding macro.
  function DivRoundUp(n: int): int {
    Quotient(n, SECTOR_SIZE) + (if n > 0 && n % SECTOR_SIZE > 0 then 1 else 0)
  }

  /** A file of n bytes gets the least number of sectors that hold n bytes. */
  lemma RoundsUp(n: nat)
    ensures SECTOR_SIZE * (DivRoundUp(n) - 1) < n <= SECTOR_SIZE * DivRoundUp(n) || (n == 0 && DivRoundUp(n) == 0)
  {
  }

  // ---- repeated Find ----

  function Finds(b: Bits, n: nat): (xs: seq<Int32>)
    requires |b| <= NUM_SECTORS
    ensures |xs| == n
    decreases n, b
  {
    if n == 0 then [] else var i := SearchClear(b, 0); [i] + Finds(Mark(b, i), n - 1)
  }

  function AfterFinds(b: Bits, n: nat): (b': Bits)
    ensures |b'| == |b|
    decreases n, b
  {
    if n == 0 then b else AfterFinds(Mark(b, SearchClear(b, 0)), n - 1)
  }

  ghost predicate InRange(xs: seq<int>, n: nat) {
    forall i :: 0 <= i < |xs| ==> 0 <= xs[i] < n
  }

  // The sectors xs were clear in b and are all that b' marks besides.
  ghost predicate Takes(b: Bits, xs: seq<int>, b': Bits) {
    && |b'| == |b| && Distinct(xs)
    && (forall i :: 0 <= i < |xs| ==> 0 <= xs[i] < |b| && !b[xs[i]])
    && (forall s :: 0 <= s < |b| ==> (b'[s] <==> b[s] || s in xs))
  }

  /** n successive Finds take n distinct clear sectors, smallest first, if there are that many. */
  lemma {:induction false} FindsTake(b: Bits, n: nat)
    requires CountClear(b) >= n && |b| <= NUM_SECTORS
    ensures Takes(b, Finds(b, n), AfterFinds(b, n))
    ensures CountClear(AfterFinds(b, n)) == CountClear(b) - n
    decreases n
  {
    if n > 0 {
      var i := FirstFind(b);
      var b1 := b[i := true];
      FindsTake(b1, n - 1);
      assert Finds(b, n) == [i] + Finds(b1, n - 1) && AfterFinds(b, n) == AfterFinds(b1, n - 1);
      FindsCons(b, i, Finds(b1, n - 1), AfterFinds(b1, n - 1));
    }
  }

  lemma FirstFind(b: Bits) returns (i: int)
    requires CountClear(b) > 0
    ensures i == SearchClear(b, 0) && 0 <= i < |b| && !b[i] && Mark(b, i) == b[i := true]
    ensures CountClear(b[i := true]) == CountClear(b) - 1
  {
    i := SearchClear(b, 0);
    SomeClear(b);
    CountUpdate(b, i, true);
  }

  lemma FindsCons(b: Bits, i: int, xs: seq<int>, b': Bits)
    requires 0 <= i < |b| && !b[i] && Takes(b[i := true], xs, b')
    ensures Takes(b, [i] + xs, b')
  {
    var ys := [i] + xs;
    forall k | 0 <= k < |ys|
      ensures 0 <= ys[k] < |b| && !b[ys[k]] && (k > 0 ==> ys[k] != i)
    {
      if k > 0 {
        assert ys[k] == xs[k - 1] && !b[i := true][xs[k - 1]];
      }
    }
  }

  lemma TakesMore(b: Bits, xs: seq<int>, b1: Bits, ys: seq<int>, b2: Bits)
    requires Takes(b, xs, b1) && Takes(b1, ys, b2)
    ensures Takes(b, xs + ys, b2)
  {
    var zs := xs + ys;
    forall i, j | 0 <= i < j < |zs|
      ensures zs[i] != zs[j]
    {
      if i < |xs| <= j {
        assert zs[j] == ys[j - |xs|] && zs[i] in xs;
      }
    }
    forall i | 0 <= i < |zs|
      ensures 0 <= zs[i] < |b| && !b[zs[i]]
    {
      if i >= |xs| {
        assert zs[i] == ys[i - |xs|];
      }
    }
  }

  lemma {:induction false} FindsSplit(b: Bits, m: nat, n: nat)
    requires |b| <= NUM_SECTORS
    ensures Finds(b, m + n) == Finds(b, m) + Finds(AfterFinds(b, m), n)
    ensures AfterFinds(b, m + n) == AfterFinds(AfterFinds(b, m), n)
    decreases m
  {
    if m > 0 {
      FindsSplit(Mark(b, SearchClear(b, 0)), m - 1, n);
    }
  }

  ghost predicate Below(xs: seq<int>, limit: int) {
    forall i :: 0 <= i < |xs| ==> xs[i] < limit
  }

  lemma BelowCons(x: int, xs: seq<int>, limit: int)
    ensures Below([x] + xs, limit) <==> x < limit && Below(xs, limit)
  {
    var ys := [x] + xs;
    assert ys[0] == x && forall i :: 0 <= i < |xs| ==> ys[i + 1] == xs[i];
  }

  // All n sectors are below `limit` exactly when that many are clear there.
  lemma {:induction false} FindsBelow(b: Bits, n: nat, limit: nat)
    requires CountClear(b) >= n && limit <= |b| <= NUM_SECTORS
    ensures CountClear(b[..limit]) >= n <==> Below(Finds(b, n), limit)
    decreases n
  {
    if n > 0 {
      var i := SearchClear(b, 0);
      SomeClear(b);
      CountUpdate(b, i, true);
      FindsBelow(Mark(b, i), n - 1, limit);
      var xs, rest := Finds(b, n), Finds(Mark(b, i), n - 1);
      assert xs == [i] + rest;
      BelowCons(i, rest, limit);
      SomeClear(b[..limit]);
      if i < limit {
        CountUpdate(b[..limit], i, true);
        assert b[i := true][..limit] == b[..limit][i := true];
      } else {
        assert forall k :: 0 <= k < limit ==> b[..limit][k];
      }
    }
  }

  // ---- Allocate ----

  // Overrun: the code writes past an array.
  datatype Outcome = Done | NoSpace | Aborted | Overrun
  datatype Allocation = Allocation(outcome: Outcome, hdr: Header, bits: Bits, index: seq<Int32>)

  function PutSlots(data: Slots, xs: seq<Int32>): Slots
    requires |xs| <= NUM_DIRECT
  {
    xs + data[|xs|..]
  }

  function RunFrom(start: nat, n: nat): (xs: seq<Int32>)
    requires start + n <= NUM_SECTORS
    ensures |xs| == n && forall i :: 0 <= i < n ==> xs[i] == start + i
  {
    seq(n, i requires 0 <= i < n => start + i)
  }

  function AllocateSmall(h: Header, b: Bits, n: int): Allocation
    requires n < NUM_DIRECT && |b| == NUM_SECTORS
  {
    var count: nat := if n < 0 then 0 else n;
    match SearchRun(b, n, 0)
    case Found(start) =>
      SearchInRange(b, n);
      Allocation(Done, h.(data := PutSlots(h.data, RunFrom(start, count))), MarkRun(b, start, n), [])
    case NotFound => Allocation(Done, h.(data := PutSlots(h.data, Finds(b, count))), AfterFinds(b, count), [])
    case Aborted => Allocation(Outcome.Aborted, h, b, [])
  }

  lemma SearchInRange(b: Bits, n: int)
    ensures SearchRun(b, n, 0).Found? ==> SearchRun(b, n, 0).start + (if n < 0 then 0 else n) <= |b|
  {
    SearchInRangeFrom(b, n, 0);
  }

  lemma {:induction false} SearchInRangeFrom(b: Bits, n: int, from: nat)
    ensures SearchRun(b, n, from).Found? ==> SearchRun(b, n, from).start + (if n < 0 then 0 else n) <= |b|
    decreases |b| - from
  {
    if from < |b| {
      SearchInRangeFrom(b, n, from + 1);
    }
  }

  function AllocateLarge(h: Header, b: Bits, n: int): Allocation
    requires n >= NUM_DIRECT && |b| == NUM_SECTORS
  {
    var h1, b1 := h.(data := Finds(b, NUM_DIRECT)), AfterFinds(b, NUM_DIRECT);
    if n - NUM_DIRECT + 1 > 32 then Allocation(Overrun, h1, b1, [])
    else Allocation(Done, h1, AfterFinds(b1, n - NUM_DIRECT + 1), Finds(b1, n - NUM_DIRECT + 1))
  }

  function Allocate(h: Header, b: Bits, fileSize: int): Allocation
    requires |b| == NUM_SECTORS
  {
    var n := DivRoundUp(fileSize);
    var h1 := h.(numBytes := fileSize, numSectors := n);
    if CountClear(b) < n then Allocation(NoSpace, h1, b, [])
    else if n < NUM_DIRECT then AllocateSmall(h1, b, n)
    else AllocateLarge(h1, b, n)
  }

  // ---- ByteToSector ----

  function Block8(data: Slots): int {
    data[NUM_DIRECT - 1]
  }

  // The i-th block of the file.
  function BlockOf(h: Header, disk: DiskData, i: nat): int
    requires i >= NUM_DIRECT - 1 ==> InDisk(Block8(h.data)) && i < NUM_DIRECT - 1 + 32
  {
    if i < NUM_DIRECT - 1 then h.data[i]
    else SignedByte(disk[Block8(h.data)][(i - (NUM_DIRECT - 1)) * 4])
  }

  // The blocks of a file and, for a large one, its index block.
  function Blocks(h: Header, disk: DiskData): (s: seq<int>)
    requires h.numSectors <= 40 && (h.numSectors >= NUM_DIRECT ==> InDisk(Block8(h.data)))
  {
    if h.numSectors <= 0 then [] else seq(h.numSectors, i requires 0 <= i < h.numSectors => BlockOf(h, disk, i))
  }

  function Index(h: Header): seq<int> {
    if h.numSectors >= NUM_DIRECT then [Block8(h.data)] else []
  }

  // An index block as Allocate writes it; the unused entries are whatever the array held.
  function IndexBlock(index: seq<Int32>, stack: seq<Int32>): Block
    requires |index| <= 32 == |stack|
  {
    EncodeInts(index + stack[|index|..])
  }

  /** An entry of the index block is read back right exactly when it is below 128. */
  lemma IndexEntry(index: seq<Int32>, stack: seq<Int32>, i: nat)
    requires i < |index| <= 32 == |stack| && InDisk(index[i])
    ensures var got := SignedByte(IndexBlock(index, stack)[4 * i]);
      (got == index[i] <==> index[i] < 128) && got < 128
  {
    var xs := index + stack[|index|..];
    EncodeIntsAt(xs, i);
    LowByteIff(xs[i]);
    assert EncodeInts(xs)[4 * i..4 * i + 4][0] == EncodeInts(xs)[4 * i];
  }

  /** A small file: the blocks are the run that was searched for, or the allocation fails and
      changes nothing on the map.  It aborts exactly when there is space but no run. */
  lemma AllocateSmallTakes(h: Header, b: Bits, fileSize: int)
    requires |b| == NUM_SECTORS && 0 <= fileSize && DivRoundUp(fileSize) < NUM_DIRECT
    ensures var n, a := DivRoundUp(fileSize), Allocate(h, b, fileSize);
      && (a.outcome == NoSpace <==> CountClear(b) < n)
      && (a.outcome == Outcome.Aborted <==> CountClear(b) >= n >= 2 && NoRun(b, n))
      && a.outcome != Overrun
      && (a.outcome != Done ==> a.bits == b)
      && (a.outcome == Done ==> a.hdr.numBytes == fileSize && a.hdr.numSectors == n && Takes(b, a.hdr.data[..n], a.bits))
      && (a.outcome == Done ==> forall i :: 0 <= i < n ==> a.hdr.data[i] == a.hdr.data[0] + i)
  {
    var n, a := DivRoundUp(fileSize), Allocate(h, b, fileSize);
    if CountClear(b) >= n {
      SearchRunMeans(b, n);
      SearchInRange(b, n);
      match SearchRun(b, n, 0)
      case Found(start) =>
        assert RunAt(b, start, n);
        assert a.hdr.data[..n] == RunFrom(start, n);
        assert forall i :: 0 <= i < n ==> a.hdr.data[i] == a.hdr.data[..n][i];
        RunTaken(b, start, n);
      case NotFound =>
        FindsTake(b, n);
        assert a.hdr.data[..n] == Finds(b, n);
      case Aborted =>
    }
  }

  lemma RunTaken(b: Bits, start: nat, n: nat)
    requires |b| == NUM_SECTORS && RunAt(b, start, n)
    ensures Takes(b, RunFrom(start, n), MarkRun(b, start, n))
  {
    var xs := RunFrom(start, n);
    forall s | 0 <= s < |b|
      ensures MarkRun(b, start, n)[s] <==> b[s] || s in xs
    {
      if start <= s < start + n {
        assert xs[s - start] == s;
      }
    }
  }

  /** A large file takes its n blocks and an index block: n + 1 sectors, although only n are
      asked for.  With n clear sectors left the last entry of the index is -1. */
  lemma AllocateLargeTakes(h: Header, b: Bits, fileSize: int)
    requires |b| == NUM_SECTORS && NUM_DIRECT <= DivRoundUp(fileSize) <= 40 && CountClear(b) >= DivRoundUp(fileSize)
    ensures var n, a := DivRoundUp(fileSize), Allocate(h, b, fileSize);
      && a.outcome == Done && a.hdr.numBytes == fileSize && a.hdr.numSectors == n && |a.index| == n - 8
      && Takes(b, a.hdr.data, AfterFinds(b, NUM_DIRECT))
      && (CountClear(b) > n ==> Takes(b, a.hdr.data + a.index, a.bits))
      && (CountClear(b) == n ==> a.index[n - 9] == -1)
  {
    TwoFinds(b, NUM_DIRECT, DivRoundUp(fileSize) - 8);
  }

  // m Finds and then n more, with at least m + n - 1 clear sectors.
  lemma TwoFinds(b: Bits, m: nat, n: nat)
    requires CountClear(b) >= m + n - 1 && n > 0 && |b| <= NUM_SECTORS
    ensures Takes(b, Finds(b, m), AfterFinds(b, m))
    ensures CountClear(b) >= m + n ==> Takes(b, Finds(b, m) + Finds(AfterFinds(b, m), n), AfterFinds(AfterFinds(b, m), n))
    ensures CountClear(b) < m + n ==> Finds(AfterFinds(b, m), n)[n - 1] == -1
  {
    var b1 := AfterFinds(b, m);
    FindsTake(b, m);
    if CountClear(b) >= m + n {
      FindsTake(b1, n);
      TakesMore(b, Finds(b, m), b1, Finds(b1, n), AfterFinds(b1, n));
    } else {
      FindsTake(b1, n - 1);
      FindsSplit(b1, n - 1, 1);
      SomeClear(AfterFinds(b1, n - 1));
    }
  }

  // The disk after Allocate has written the index block.
  function WithIndex(disk: DiskData, a: Allocation, stack: seq<Int32>): DiskData
    requires |a.index| <= 32 == |stack|
  {
    if a.index != [] && InDisk(Block8(a.hdr.data)) then disk[Block8(a.hdr.data) := IndexBlock(a.index, stack)] else disk
  }

  lemma CountPrefix(b: Bits, k: nat)
    requires k <= |b|
    ensures CountClear(b) == CountClear(b[..k]) + CountClear(b[k..])
  {
    assert b == b[..k] + b[k..];
    CountSplit(b[..k], b[k..]);
  }

  // Every block of the file is a sector of the disk, the one allocated for it.
  ghost predicate IndexRight(a: Allocation, disk: DiskData)
    requires 9 <= a.hdr.numSectors <= 40 && InDisk(Block8(a.hdr.data))
  {
    InRange(a.index, NUM_SECTORS) && Blocks(a.hdr, disk) == a.hdr.data[..8] + a.index
  }

  /** ByteToSector gives the allocated sectors, for a large file, exactly when n + 1 sectors were
      clear among the first 128. */
  lemma ByteToSectorRightIff(h: Header, b: Bits, fileSize: int, disk: DiskData, stack: seq<Int32>)
    requires |b| == NUM_SECTORS && NUM_DIRECT <= DivRoundUp(fileSize) <= 40 && CountClear(b) >= DivRoundUp(fileSize)
    requires |stack| == 32
    ensures var n, a := DivRoundUp(fileSize), Allocate(h, b, fileSize);
      && a.hdr.numSectors == n && |a.index| == n - 8 && InDisk(Block8(a.hdr.data))
      && (IndexRight(a, WithIndex(disk, a, stack)) <==> CountClear(b[..128]) >= n + 1)
  {
    var n, a := DivRoundUp(fileSize), Allocate(h, b, fileSize);
    AllocateLargeTakes(h, b, fileSize);
    CountPrefix(b, 128);
    if CountClear(b) > n {
      TakenInDisk(b, a.hdr.data, a.index, a.bits);
      IndexReads(a, disk, stack);
      LastFindsBelow(b, NUM_DIRECT, n - 8, 128);
    }
  }

  lemma TakenInDisk(b: Bits, data: Slots, index: seq<int>, b': Bits)
    requires |b| == NUM_SECTORS && Takes(b, data + index, b')
    ensures InDisk(Block8(data)) && forall i :: 0 <= i < |index| ==> InDisk(index[i])
  {
    var xs := data + index;
    assert xs[8] == Block8(data);
    assert forall i :: 0 <= i < |index| ==> xs[i + 9] == index[i];
  }

  lemma IndexReads(a: Allocation, disk: DiskData, stack: seq<Int32>)
    requires 9 <= a.hdr.numSectors <= 40 && |a.index| == a.hdr.numSectors - 8 && |stack| == 32
    requires InDisk(Block8(a.hdr.data)) && forall i :: 0 <= i < |a.index| ==> InDisk(a.index[i])
    ensures IndexRight(a, WithIndex(disk, a, stack)) <==> Below(a.index, 128)
  {
    var disk' := WithIndex(disk, a, stack);
    forall i | 0 <= i < |a.index|
      ensures SignedByte(disk'[Block8(a.hdr.data)][4 * i]) == a.index[i] <==> a.index[i] < 128
    {
      IndexEntry(a.index, stack, i);
    }
    IndexAll(a, disk');
  }

  // The last n of m + n Finds are below the limit exactly when all are.
  lemma LastFindsBelow(b: Bits, m: nat, n: nat, limit: nat)
    requires CountClear(b) >= m + n && n > 0 && limit <= |b| <= NUM_SECTORS
    ensures Below(Finds(AfterFinds(b, m), n), limit) <==> CountClear(b[..limit]) >= m + n
  {
    FindsSplit(b, m, n);
    FindsBelow(b, m + n, limit);
    SortedFinds(b, m, n);
    var xs, ys := Finds(b, m), Finds(AfterFinds(b, m), n);
    assert Finds(b, m + n) == xs + ys;
    forall i | 0 <= i < |xs|
      ensures xs[i] < ys[0]
    {
      assert xs[i] in xs && ys[0] in ys;
    }
    if Below(xs + ys, limit) {
      assert forall i :: 0 <= i < |ys| ==> ys[i] == (xs + ys)[i + |xs|];
    }
  }

  lemma IndexAll(a: Allocation, disk: DiskData)
    requires 9 <= a.hdr.numSectors <= 40 && InDisk(Block8(a.hdr.data)) && |a.index| == a.hdr.numSectors - 8
    ensures Blocks(a.hdr, disk) == a.hdr.data[..8] + a.index <==>
      forall i :: 0 <= i < |a.index| ==> SignedByte(disk[Block8(a.hdr.data)][4 * i]) == a.index[i]
  {
    var blocks, want := Blocks(a.hdr, disk), a.hdr.data[..8] + a.index;
    if blocks == want {
      forall i | 0 <= i < |a.index|
        ensures SignedByte(disk[Block8(a.hdr.data)][4 * i]) == a.index[i]
      {
        assert blocks[i + 8] == want[i + 8];
      }
    }
  }

  // Find goes upward, so if the later sectors are small the earlier ones are.
  lemma {:induction false} SortedFinds(b: Bits, m: nat, n: nat)
    requires CountClear(b) >= m + n && |b| <= NUM_SECTORS && n > 0
    ensures forall x: int, y: int :: x in Finds(b, m) && y in Finds(AfterFinds(b, m), n) ==> x < y
    decreases m
  {
    if m > 0 {
      var i, b1 := SearchClear(b, 0), Mark(b, SearchClear(b, 0));
      SomeClear(b);
      CountUpdate(b, i, true);
      SortedFinds(b1, m - 1, n);
      FindsTake(b1, m - 1);
      FindsTake(AfterFinds(b, m), n);
      forall y: int | y in Finds(AfterFinds(b, m), n)
        ensures i < y
      {
        assert !b1[y];
      }
      assert forall x: int :: x in Finds(b, m) <==> x == i || x in Finds(b1, m - 1);
    }
  }

  // ---- Deallocate ----

  datatype Freed = Freed(bits: Bits) | Abort

  // Clear asserts its range; a small file's sectors are also asserted to be marked.
  function ClearAll(b: Bits, xs: seq<int>, check: bool): Freed
    decreases |xs|
  {
    if xs == [] then Freed(b)
    else if !(0 <= xs[0] < |b|) || (check && !b[xs[0]]) then Abort
    else ClearAll(b[xs[0] := false], xs[1..], check)
  }

  function Deallocate(h: Header, disk: DiskData, b: Bits): Freed
    requires h.numSectors <= 40
  {
    if h.numSectors < NUM_DIRECT then ClearAll(b, h.data[..if h.numSectors < 0 then 0 else h.numSectors], true)
    else if !InDisk(Block8(h.data)) then Abort
    else ClearAll(b, Blocks(h, disk)[8..] + h.data, false)
  }

  ghost predicate Cleared(b: Bits, xs: seq<int>, b': Bits) {
    |b'| == |b| && forall s :: 0 <= s < |b| ==> (b'[s] <==> b[s] && s !in xs)
  }

  lemma {:induction false} ClearAllMeans(b: Bits, xs: seq<int>, check: bool)
    requires check ==> Distinct(xs) && forall i :: 0 <= i < |xs| && 0 <= xs[i] < |b| ==> b[xs[i]]
    ensures ClearAll(b, xs, check).Freed? <==> InRange(xs, |b|)
    ensures ClearAll(b, xs, check).Freed? ==> Cleared(b, xs, ClearAll(b, xs, check).bits)
    decreases |xs|
  {
    if xs != [] && 0 <= xs[0] < |b| {
      var b1 := b[xs[0] := false];
      forall i | check && 0 <= i < |xs[1..]| && 0 <= xs[1..][i] < |b|
        ensures b1[xs[1..][i]]
      {
        assert xs[0] != xs[i + 1];
      }
      ClearAllMeans(b1, xs[1..], check);
      assert xs == [xs[0]] + xs[1..];
      InRangeTail(xs, |b|);
    }
  }

  lemma InRangeTail(xs: seq<int>, n: nat)
    requires xs != [] && 0 <= xs[0] < n
    ensures InRange(xs, n) <==> InRange(xs[1..], n)
  {
    assert forall i :: 0 <= i < |xs[1..]| ==> xs[1..][i] == xs[i + 1];
    if InRange(xs[1..], n) {
      forall i | 0 <= i < |xs|
        ensures 0 <= xs[i] < n
      {
        assert i > 0 ==> xs[i] == xs[1..][i - 1];
      }
    }
  }

  // Giving back what was taken restores the map.
  lemma TakeThenClear(b: Bits, xs: seq<int>, b': Bits, b'': Bits)
    requires Takes(b, xs, b') && Cleared(b', xs, b'')
    ensures b'' == b
  {
    forall s | 0 <= s < |b|
      ensures b''[s] == b[s]
    {
    }
  }

  /** Deallocate undoes Allocate for a small file. */
  lemma AllocateDeallocateSmall(h: Header, b: Bits, fileSize: int, disk: DiskData)
    requires |b| == NUM_SECTORS && 0 <= fileSize && DivRoundUp(fileSize) < NUM_DIRECT
    requires Allocate(h, b, fileSize).outcome == Done
    ensures Deallocate(Allocate(h, b, fileSize).hdr, disk, Allocate(h, b, fileSize).bits) == Freed(b)
  {
    var a, n := Allocate(h, b, fileSize), DivRoundUp(fileSize);
    AllocateSmallTakes(h, b, fileSize);
    ClearAllMeans(a.bits, a.hdr.data[..n], true);
    assert InRange(a.hdr.data[..n], |a.bits|);
    TakeThenClear(b, a.hdr.data[..n], a.bits, ClearAll(a.bits, a.hdr.data[..n], true).bits);
  }

  /** For a large file it does so exactly when n + 1 sectors were clear among the first 128. */
  lemma AllocateDeallocateLargeIff(h: Header, b: Bits, fileSize: int, disk: DiskData, stack: seq<Int32>)
    requires |b| == NUM_SECTORS && NUM_DIRECT <= DivRoundUp(fileSize) <= 40 && CountClear(b) >= DivRoundUp(fileSize)
    requires |stack| == 32
    ensures var n, a := DivRoundUp(fileSize), Allocate(h, b, fileSize);
      && a.hdr.numSectors == n && |a.index| == n - 8
      && (Deallocate(a.hdr, WithIndex(disk, a, stack), a.bits) == Freed(b) <==> CountClear(b[..128]) >= n + 1)
  {
    var n, a := DivRoundUp(fileSize), Allocate(h, b, fileSize);
    AllocateLargeTakes(h, b, fileSize);
    CountPrefix(b, 128);
    if CountClear(b) > n {
      TakenInDisk(b, a.hdr.data, a.index, a.bits);
      LargeFreed(b, a, disk, stack);
      LastFindsBelow(b, NUM_DIRECT, n - 8, 128);
    } else {
      MissingSectorAborts(a, disk, stack, n - 9);
    }
  }

  // An entry for which no sector was left comes back as -1, and clearing it aborts.
  lemma MissingSectorAborts(a: Allocation, disk: DiskData, stack: seq<Int32>, i: nat)
    requires 9 <= a.hdr.numSectors <= 40 && |a.index| == a.hdr.numSectors - 8 && |stack| == 32
    requires i < |a.index| && a.index[i] == -1
    ensures Deallocate(a.hdr, WithIndex(disk, a, stack), a.bits).Abort?
  {
    var disk' := WithIndex(disk, a, stack);
    if InDisk(Block8(a.hdr.data)) {
      MinusOneEntry(a.index, stack, i);
      var xs := Blocks(a.hdr, disk')[8..] + a.hdr.data;
      assert xs[i] == BlockOf(a.hdr, disk', 8 + i) == -1;
      ClearAllMeans(a.bits, xs, false);
    }
  }

  lemma MinusOneEntry(index: seq<Int32>, stack: seq<Int32>, i: nat)
    requires i < |index| <= 32 == |stack| && index[i] == -1
    ensures SignedByte(IndexBlock(index, stack)[4 * i]) == -1
  {
    var xs := index + stack[|index|..];
    EncodeIntsAt(xs, i);
    assert EncodeInts(xs)[4 * i..4 * i + 4][0] == EncodeInts(xs)[4 * i];
  }

  lemma LargeFreed(b: Bits, a: Allocation, disk: DiskData, stack: seq<Int32>)
    requires |b| == NUM_SECTORS && Takes(b, a.hdr.data + a.index, a.bits)
    requires 9 <= a.hdr.numSectors <= 40 && |a.index| == a.hdr.numSectors - 8 && |stack| == 32
    ensures Deallocate(a.hdr, WithIndex(disk, a, stack), a.bits) == Freed(b) <==> Below(a.index, 128)
  {
    TakenInDisk(b, a.hdr.data, a.index, a.bits);
    IndexReads(a, disk, stack);
    var disk' := WithIndex(disk, a, stack);
    var lows := Blocks(a.hdr, disk')[8..];
    ClearAllMeans(a.bits, lows + a.hdr.data, false);
    if Below(a.index, 128) {
      assert lows == a.index;
      FreeInAnyOrder(b, a.hdr.data, a.index, a.bits, ClearAll(a.bits, lows + a.hdr.data, false));
    } else {
      forall i | 0 <= i < |lows|
        ensures lows[i] < 128
      {
        IndexEntry(a.index, stack, i);
      }
      NotFreed(b, a, lows, ClearAll(a.bits, lows + a.hdr.data, false));
    }
  }

  lemma FreeInAnyOrder(b: Bits, data: seq<int>, index: seq<int>, b': Bits, f: Freed)
    requires Takes(b, data + index, b')
    requires f.Freed? <==> InRange(index + data, |b'|)
    requires f.Freed? ==> Cleared(b', index + data, f.bits)
    ensures f == Freed(b)
  {
    var xs, ys := data + index, index + data;
    forall i | 0 <= i < |ys|
      ensures 0 <= ys[i] < |b|
    {
      assert ys[i] == if i < |index| then xs[i + |data|] else xs[i - |index|];
    }
    assert forall s :: s in xs <==> s in ys;
    TakeThenClear(b, xs, b', f.bits);
  }

  // A sector of 128 or more in the index stays marked.
  lemma NotFreed(b: Bits, a: Allocation, lows: seq<int>, f: Freed)
    requires Takes(b, a.hdr.data + a.index, a.bits) && !Below(a.index, 128)
    requires forall i :: 0 <= i < |lows| ==> lows[i] < 128
    requires f.Freed? ==> Cleared(a.bits, lows + a.hdr.data, f.bits)
    ensures f != Freed(b)
  {
    var xs := a.hdr.data + a.index;
    var i :| 0 <= i < |a.index| && a.index[i] >= 128;
    var s := a.index[i];
    assert xs[i + 9] == s;
    assert s in xs;
    assert s !in lows;
    forall j | 0 <= j < 9
      ensures a.hdr.data[j] != s
    {
      assert xs[j] != xs[i + 9];
    }
    assert f.Freed? ==> f.bits[s] && !b[s];
  }

  // ---- files in good order ----

  // The header's sector, the index block and the blocks.
  function Owned(h: Header, disk: DiskData): seq<int>
    requires h.numSectors <= 40 && (h.numSectors >= NUM_DIRECT ==> InDisk(Block8(h.data)))
  {
    [h.sectorNumber] + Index(h) + Blocks(h, disk)
  }

  ghost predicate FileOk(h: Header, disk: DiskData) {
    && 0 <= h.numBytes && h.numSectors == DivRoundUp(h.numBytes) <= 40 && InDisk(h.sectorNumber)
    && (h.numSectors >= NUM_DIRECT ==> InDisk(Block8(h.data)))
    && Distinct(Owned(h, disk)) && InRange(Owned(h, disk), NUM_SECTORS)
  }

  // ---- Extend ----

  datatype Extension = Extension(outcome: Outcome, hdr: Header, bits: Bits)

  function Extend(h: Header, b: Bits, size: int): Extension
    requires |b| == NUM_SECTORS && 0 <= h.numBytes && h.numSectors == DivRoundUp(h.numBytes) && size >= 0
  {
    var n := DivRoundUp(h.numBytes + size);
    var h1 := h.(numBytes := h.numBytes + size, numSectors := n);
    if n == h.numSectors then Extension(Done, h1, b)
    else if CountClear(b) < n - h.numSectors then Extension(NoSpace, h1, b)
    else if n > NUM_DIRECT then Extension(Overrun, h1, b)
    else
      var xs := Finds(b, n - h.numSectors);
      Extension(Done, h1.(data := h.data[..h.numSectors] + xs + h.data[n..]), AfterFinds(b, n - h.numSectors))
  }

  // The file keeps its blocks, and what it claims besides was free and is now marked.
  ghost predicate Grown(h: Header, b: Bits, e: Extension, disk: DiskData) {
    && e.outcome != Overrun && FileOk(h, disk) && FileOk(e.hdr, disk) && h.numSectors <= e.hdr.numSectors
    && Blocks(e.hdr, disk)[..h.numSectors] == Blocks(h, disk)
    && Takes(b, NewClaims(h, e.hdr, disk), e.bits)
  }

  function NewClaims(h: Header, h': Header, disk: DiskData): seq<int>
    requires 0 <= h.numSectors <= h'.numSectors <= 40 && (h'.numSectors >= NUM_DIRECT ==> InDisk(Block8(h'.data)))
  {
    (if h.numSectors < NUM_DIRECT then Index(h') else []) + Blocks(h', disk)[h.numSectors..]
  }

  // A write that needs `size` more bytes can be served properly.
  predicate CanGrow(h: Header, b: Bits, size: int)
  {
    var n := DivRoundUp(h.numBytes + size);
    n == h.numSectors || (n < NUM_DIRECT && CountClear(b) >= n - h.numSectors)
  }

  /** Extend is right exactly when the file needs no new sector, or stays below nine sectors and
      enough are free.  A failure is silent: the caller goes on either way. */
  lemma ExtendRightIff(h: Header, b: Bits, size: int, disk: DiskData)
    requires |b| == NUM_SECTORS && FileOk(h, disk) && size >= 0
    requires forall i :: 0 <= i < |Owned(h, disk)| ==> b[Owned(h, disk)[i]]
    ensures Grown(h, b, Extend(h, b, size), disk) <==> CanGrow(h, b, size)
  {
    var e, n := Extend(h, b, size), DivRoundUp(h.numBytes + size);
    if n == h.numSectors {
      SameSize(h, e, disk);
    } else if CountClear(b) >= n - h.numSectors {
      if n < NUM_DIRECT {
        GrowDirect(h, b, size, disk);
      } else if n == NUM_DIRECT {
        NoIndexBlock(h, b, size, disk);
      }
    } else if e.hdr.numSectors <= 40 && (n >= NUM_DIRECT ==> InDisk(Block8(h.data))) {
      NothingTaken(b, NewClaims(h, e.hdr, disk));
    }
  }

  lemma NothingTaken(b: Bits, xs: seq<int>)
    requires xs != []
    ensures !Takes(b, xs, b)
  {
    assert xs[0] in xs;
  }

  lemma SameSize(h: Header, e: Extension, disk: DiskData)
    requires FileOk(h, disk) && e.hdr == h.(numBytes := e.hdr.numBytes) && e.outcome == Done
    requires h.numBytes <= e.hdr.numBytes && DivRoundUp(e.hdr.numBytes) == h.numSectors
    ensures Grown(h, e.bits, e, disk)
  {
    assert Blocks(e.hdr, disk) == Blocks(h, disk);
    assert Owned(e.hdr, disk) == Owned(h, disk);
    assert NewClaims(h, e.hdr, disk) == [];
  }

  // The header after n - |was| sectors xs were found.
  ghost predicate Appended(h: Header, h': Header, xs: seq<int>) {
    && 0 <= h.numSectors <= h'.numSectors <= NUM_DIRECT && |xs| == h'.numSectors - h.numSectors
    && h'.sectorNumber == h.sectorNumber
    && h'.data == h.data[..h.numSectors] + xs + h.data[h'.numSectors..]
  }

  lemma AppendedBlocks(h: Header, h': Header, xs: seq<int>, disk: DiskData)
    requires Appended(h, h', xs) && h'.numSectors < NUM_DIRECT
    ensures Blocks(h', disk) == Blocks(h, disk) + xs && Owned(h', disk) == Owned(h, disk) + xs
    ensures NewClaims(h, h', disk) == xs
  {
    var was, now := Blocks(h, disk), Blocks(h', disk);
    forall i | 0 <= i < |now|
      ensures now[i] == (was + xs)[i]
    {
    }
    assert now == was + xs;
  }

  lemma OwnedGrows(b: Bits, owned: seq<int>, xs: seq<int>, b': Bits)
    requires Distinct(owned) && InRange(owned, |b|) && Takes(b, xs, b')
    requires forall i :: 0 <= i < |owned| ==> b[owned[i]]
    ensures Distinct(owned + xs) && InRange(owned + xs, |b|)
  {
    var all := owned + xs;
    forall i, j | 0 <= i < j < |all|
      ensures all[i] != all[j]
    {
      if i < |owned| <= j {
        assert b[owned[i]] && !b[xs[j - |owned|]];
      }
    }
  }

  lemma GrowDirect(h: Header, b: Bits, size: int, disk: DiskData)
    requires |b| == NUM_SECTORS && FileOk(h, disk) && size >= 0
    requires forall i :: 0 <= i < |Owned(h, disk)| ==> b[Owned(h, disk)[i]]
    requires h.numSectors < DivRoundUp(h.numBytes + size) < NUM_DIRECT
    requires CountClear(b) >= DivRoundUp(h.numBytes + size) - h.numSectors
    ensures Grown(h, b, Extend(h, b, size), disk)
  {
    var xs := ExtendFinds(h, b, size);
    GrownBy(h, b, Extend(h, b, size), xs, disk);
  }

  lemma ExtendFinds(h: Header, b: Bits, size: int) returns (xs: seq<int>)
    requires |b| == NUM_SECTORS && 0 <= h.numBytes && h.numSectors == DivRoundUp(h.numBytes) && size >= 0
    requires h.numSectors < DivRoundUp(h.numBytes + size) <= NUM_DIRECT
    requires CountClear(b) >= DivRoundUp(h.numBytes + size) - h.numSectors
    ensures var e := Extend(h, b, size);
      Appended(h, e.hdr, xs) && Takes(b, xs, e.bits) && e.outcome == Done
      && e.hdr.numBytes == h.numBytes + size && e.hdr.numSectors == DivRoundUp(e.hdr.numBytes)
  {
    var k := DivRoundUp(h.numBytes + size) - h.numSectors;
    FindsTake(b, k);
    xs := ExtendSlots(h, b, size, k);
  }

  lemma ExtendSlots(h: Header, b: Bits, size: int, k: nat) returns (xs: seq<Int32>)
    requires |b| == NUM_SECTORS && 0 <= h.numBytes && h.numSectors == DivRoundUp(h.numBytes) && size >= 0
    requires 0 < k == DivRoundUp(h.numBytes + size) - h.numSectors <= CountClear(b) && h.numSectors + k <= NUM_DIRECT
    ensures xs == Finds(b, k)
    ensures Extend(h, b, size) == Extension(Done,
      h.(numBytes := h.numBytes + size, numSectors := h.numSectors + k,
         data := h.data[..h.numSectors] + xs + h.data[h.numSectors + k..]), AfterFinds(b, k))
  {
    xs := Finds(b, k);
  }

  lemma GrownBy(h: Header, b: Bits, e: Extension, xs: seq<int>, disk: DiskData)
    requires |b| == NUM_SECTORS && FileOk(h, disk) && Takes(b, xs, e.bits) && e.outcome == Done
    requires forall i :: 0 <= i < |Owned(h, disk)| ==> b[Owned(h, disk)[i]]
    requires Appended(h, e.hdr, xs) && e.hdr.numSectors < NUM_DIRECT
    requires 0 <= e.hdr.numBytes && e.hdr.numSectors == DivRoundUp(e.hdr.numBytes)
    ensures Grown(h, b, e, disk)
  {
    AppendedBlocks(h, e.hdr, xs, disk);
    OwnedGrows(b, Owned(h, disk), xs, e.bits);
  }

  lemma TakesSameNumber(b: Bits, xs: seq<int>, ys: seq<int>, b': Bits)
    requires Takes(b, xs, b') && Takes(b, ys, b')
    ensures |xs| == |ys|
  {
    DistinctSize(xs);
    DistinctSize(ys);
    forall x
      ensures x in xs <==> x in ys
    {
    }
    assert (set x | x in xs) == (set x | x in ys);
  }

  // With nine sectors the last slot is taken for an index block: one more sector is claimed than
  // was marked.
  lemma NoIndexBlock(h: Header, b: Bits, size: int, disk: DiskData)
    requires |b| == NUM_SECTORS && FileOk(h, disk) && size >= 0
    requires h.numSectors < DivRoundUp(h.numBytes + size) == NUM_DIRECT
    requires CountClear(b) >= NUM_DIRECT - h.numSectors
    ensures !Grown(h, b, Extend(h, b, size), disk)
  {
    var e := Extend(h, b, size);
    var xs := ExtendFinds(h, b, size);
    if Grown(h, b, e, disk) {
      TakesSameNumber(b, NewClaims(h, e.hdr, disk), xs, e.bits);
    }
  }

  /** A large file whose sectors are all below 128 is in good order: its blocks, its index block and
      its header's sector are all different, so offsets in different blocks never meet. */
  lemma LargeFileOk(h: Header, b: Bits, fileSize: int, disk: DiskData, stack: seq<Int32>, sector: int)
    requires |b| == NUM_SECTORS && NUM_DIRECT <= DivRoundUp(fileSize) <= 40 && CountClear(b[..128]) > DivRoundUp(fileSize)
    requires |stack| == 32 && InDisk(sector) && b[sector]
    ensures |Allocate(h, b, fileSize).index| <= 32
    ensures var a := Allocate(h, b, fileSize); FileOk(a.hdr.(sectorNumber := sector), WithIndex(disk, a, stack))
  {
    var a := Allocate(h, b, fileSize);
    CountPrefix(b, 128);
    AllocateLargeTakes(h, b, fileSize);
    ByteToSectorRightIff(h, b, fileSize, disk, stack);
    LargeFileFrom(b, a, WithIndex(disk, a, stack), sector);
  }

  lemma LargeFileFrom(b: Bits, a: Allocation, disk: DiskData, sector: int)
    requires |b| == NUM_SECTORS && Takes(b, a.hdr.data + a.index, a.bits) && InDisk(sector) && b[sector]
    requires 9 <= a.hdr.numSectors == DivRoundUp(a.hdr.numBytes) <= 40 && InDisk(Block8(a.hdr.data)) && IndexRight(a, disk)
    ensures FileOk(a.hdr.(sectorNumber := sector), disk)
  {
    var h := a.hdr.(sectorNumber := sector);
    assert Blocks(h, disk) == Blocks(a.hdr, disk);
    LargeOwned(b, a.hdr.data, a.index, a.bits, sector);
    assert Owned(h, disk) == [sector] + [Block8(a.hdr.data)] + (a.hdr.data[..8] + a.index);
  }

  lemma LargeOwned(b: Bits, data: Slots, index: seq<int>, b': Bits, sector: int)
    requires |b| == NUM_SECTORS && Takes(b, data + index, b') && InDisk(sector) && b[sector]
    ensures var owned := [sector] + [Block8(data)] + (data[..8] + index); Distinct(owned) && InRange(owned, NUM_SECTORS)
  {
    var xs, owned := data + index, [sector] + [Block8(data)] + (data[..8] + index);
    forall i | 0 < i < |owned|
      ensures owned[i] == xs[Shuffled(i)] && InDisk(owned[i]) && !b[owned[i]]
    {
    }
    forall i, j | 0 <= i < j < |owned|
      ensures owned[i] != owned[j]
    {
      if i > 0 {
        assert owned[i] == xs[Shuffled(i)] && owned[j] == xs[Shuffled(j)];
        assert Shuffled(i) < Shuffled(j) || Shuffled(j) < Shuffled(i);
      }
    }
  }

  // Where the index block and the blocks stand among the slots and the index.
  function Shuffled(i: nat): int {
    if i == 1 then 8 else if i < 10 then i - 2 else i - 1
  }
}
