/** Open files (filesys/openfile.cc): ReadAt and WriteAt move any range of bytes through whole
    sectors, against the file as a sequence of bytes. */
module OpenFiles {
  import opened Basics
  import opened Bytes
  import opened Bitmaps
  import opened FileHeaders
  import opened HeaderCode

  // ---- the header sector ----

  function EncodeHeader(h: Header): Block
    requires FileSize(h)
  {
    EncodeInts([h.numBytes, h.numSectors] + h.data) + h.text + Encode32(h.sectorNumber)
  }

  predicate FileSize(h: Header) {
    0 <= h.numBytes && h.numSectors == DivRoundUp(h.numBytes) <= 40 && InDisk(h.sectorNumber)
  }

  function DecodeHeader(b: Block): Header {
    Header(
      Decode32(b[0..4]), Decode32(b[4..8]),
      seq(NUM_DIRECT, i requires 0 <= i < NUM_DIRECT => Decode32(b[4 * (i + 2)..4 * (i + 2) + 4])),
      b[44..124], Decode32(b[124..128]))
  }

  /** A header comes back from its sector as it was written. */
  lemma HeaderRoundTrip(h: Header)
    requires FileSize(h)
    ensures DecodeHeader(EncodeHeader(h)) == h
  {
    var ints: seq<Int32> := [h.numBytes, h.numSectors] + h.data;
    var b := EncodeHeader(h);
    forall i | 0 <= i < 11
      ensures Decode32(b[4 * i..4 * i + 4]) == ints[i]
    {
      EncodeIntsAt(ints, i);
      assert b[4 * i..4 * i + 4] == EncodeInts(ints)[4 * i..4 * i + 4];
      RoundTrip32(ints[i]);
    }
    var d := DecodeHeader(b);
    assert Decode32(b[4 * 0..4 * 0 + 4]) == ints[0];
    assert Decode32(b[4 * 1..4 * 1 + 4]) == ints[1];
    forall i | 0 <= i < NUM_DIRECT
      ensures d.data[i] == h.data[i]
    {
      assert Decode32(b[4 * (i + 2)..4 * (i + 2) + 4]) == ints[i + 2];
    }
    RoundTrip32(h.sectorNumber);
    assert b[124..128] == Encode32(h.sectorNumber);
    assert b[44..124] == h.text;
  }

  // ---- a file as bytes ----

  predicate HasBlock(h: Header, disk: DiskData, i: nat) {
    (i >= 8 ==> InDisk(Block8(h.data)) && i < 40) && InDisk(BlockOf(h, disk, i))
  }

  // Byte p of the file's sectors, also past the end of the file.
  function ByteAt(h: Header, disk: DiskData, p: nat): Byte {
    if HasBlock(h, disk, p / SECTOR_SIZE) then disk[BlockOf(h, disk, p / SECTOR_SIZE)][p % SECTOR_SIZE] else 0
  }

  lemma BlockInDisk(h: Header, disk: DiskData, i: nat)
    requires FileOk(h, disk) && i < h.numSectors
    ensures HasBlock(h, disk, i) && Blocks(h, disk)[i] == BlockOf(h, disk, i)
    ensures var k := 1 + |Index(h)| + i; k < |Owned(h, disk)| && Owned(h, disk)[k] == BlockOf(h, disk, i)
  {
    assert Owned(h, disk)[1 + |Index(h)| + i] == Blocks(h, disk)[i];
  }

  lemma LastByte(h: Header, p: nat)
    requires 0 <= h.numBytes && h.numSectors == DivRoundUp(h.numBytes) && p < h.numBytes
    ensures p / SECTOR_SIZE < h.numSectors
  {
  }

  ghost function Content(h: Header, disk: DiskData): (s: seq<Byte>)
    requires FileOk(h, disk)
    ensures |s| == h.numBytes
  {
    seq(h.numBytes, p requires 0 <= p < h.numBytes => ByteAt(h, disk, p))
  }

  lemma ContentAt(h: Header, disk: DiskData, p: nat)
    requires FileOk(h, disk) && p < h.numBytes
    ensures p / SECTOR_SIZE < h.numSectors && HasBlock(h, disk, p / SECTOR_SIZE)
    ensures Content(h, disk)[p] == ByteAt(h, disk, p)
  {
    LastByte(h, p);
    BlockInDisk(h, disk, p / SECTOR_SIZE);
  }

  // Two disks that agree on the index block have the same file layout.
  lemma SameLayout(h: Header, disk: DiskData, h': Header, disk': DiskData)
    requires FileOk(h, disk) && h' == h.(text := h'.text)
    requires h.numSectors >= NUM_DIRECT ==> disk'[Block8(h.data)] == disk[Block8(h.data)]
    ensures FileOk(h', disk') && Blocks(h', disk') == Blocks(h, disk) && Owned(h', disk') == Owned(h, disk)
    ensures forall i: nat :: i < h.numSectors ==> BlockOf(h', disk', i) == BlockOf(h, disk, i)
  {
    assert Blocks(h', disk') == Blocks(h, disk);
    assert Owned(h', disk') == Owned(h, disk);
    assert FileOk(h', disk');
    forall i: nat | i < h.numSectors
      ensures BlockOf(h', disk', i) == BlockOf(h, disk, i)
    {
      assert Blocks(h', disk')[i] == Blocks(h, disk)[i];
    }
  }

  // The disks agree on all the file's sectors but the header's.
  ghost predicate SameSectors(h: Header, disk: DiskData, disk': DiskData)
    requires FileOk(h, disk)
  {
    forall k :: 1 <= k < |Owned(h, disk)| ==> disk'[Owned(h, disk)[k]] == disk[Owned(h, disk)[k]]
  }

  lemma SameContent(h: Header, disk: DiskData, h': Header, disk': DiskData)
    requires FileOk(h, disk) && h' == h.(text := h'.text) && SameSectors(h, disk, disk')
    ensures FileOk(h', disk') && Owned(h', disk') == Owned(h, disk) && Content(h', disk') == Content(h, disk)
  {
    if h.numSectors >= NUM_DIRECT {
      assert Owned(h, disk)[1] == Block8(h.data);
    }
    SameLayout(h, disk, h', disk');
    forall p: nat | p < h.numBytes
      ensures Content(h', disk')[p] == Content(h, disk)[p]
    {
      ContentAt(h, disk, p);
      ContentAt(h', disk', p);
      BlockInDisk(h, disk, p / SECTOR_SIZE);
    }
  }

  lemma HeaderApart(h: Header, disk: DiskData, block: Block)
    requires FileOk(h, disk)
    ensures SameSectors(h, disk, disk[h.sectorNumber := block])
  {
    var owned := Owned(h, disk);
    assert owned[0] == h.sectorNumber;
  }

  /** A file that shares no sector with what changed keeps its bytes. */
  lemma OtherFile(h: Header, disk: DiskData, disk': DiskData, touched: set<int>)
    requires FileOk(h, disk) && forall s :: InDisk(s) && s !in touched ==> disk'[s] == disk[s]
    requires forall k :: 0 <= k < |Owned(h, disk)| ==> Owned(h, disk)[k] !in touched
    ensures FileOk(h, disk') && Content(h, disk') == Content(h, disk)
    ensures disk'[h.sectorNumber] == disk[h.sectorNumber]
  {
    assert Owned(h, disk)[0] == h.sectorNumber;
    SameContent(h, disk, h, disk');
  }

  // ---- reading ----

  function Min(a: int, b: int): int {
    if a < b then a else b
  }

  function Max(a: int, b: int): int {
    if a < b then b else a
  }

  // How many bytes a read returns.
  function ReadCount(length: nat, numBytes: int, position: nat): nat {
    if numBytes <= 0 || position > length then 0 else Min(numBytes, length - position)
  }

  // buf holds the file's bytes from sector `first` on.
  ghost predicate Holds(buf: seq<Byte>, h: Header, disk: DiskData, first: nat) {
    forall q: nat :: q < |buf| ==> buf[q] == ByteAt(h, disk, first * SECTOR_SIZE + q)
  }

  lemma HoldsNext(buf: seq<Byte>, data: Block, h: Header, disk: DiskData, first: nat, i: nat)
    requires |buf| == i * SECTOR_SIZE && Holds(buf, h, disk, first)
    requires HasBlock(h, disk, first + i) && data == disk[BlockOf(h, disk, first + i)]
    ensures Holds(buf + data, h, disk, first)
  {
    forall q: nat | q < |buf + data|
      ensures (buf + data)[q] == ByteAt(h, disk, first * SECTOR_SIZE + q)
    {
      if q >= |buf| {
        assert (first * SECTOR_SIZE + q) / SECTOR_SIZE == first + i;
        assert (first * SECTOR_SIZE + q) % SECTOR_SIZE == q - |buf|;
      }
    }
  }

  // bcopy
  method Blit(data: seq<Byte>, buf: array<Byte>, at: nat)
    requires at + |data| <= buf.Length
    modifies buf
    ensures buf[..] == old(buf[..at]) + data + old(buf[at + |data|..])
  {
    forall k | 0 <= k < |data| {
      buf[at + k] := data[k];
    }
  }

  // The sectors of a read are there.
  lemma BlocksThere(h: Header, disk: DiskData, position: nat, n: nat)
    requires FileOk(h, disk) && position + n <= h.numBytes
    requires position == 0 && h.numBytes == 0 ==> InDisk(h.data[0])
    ensures var first, last := position / SECTOR_SIZE, Quotient(position + n - 1, SECTOR_SIZE);
      && 0 <= 1 + last - first && position - first * SECTOR_SIZE + n <= (1 + last - first) * SECTOR_SIZE
      && forall i: nat :: first <= i < first + (1 + last - first) ==> HasBlock(h, disk, i)
  {
    var first, last := position / SECTOR_SIZE, Quotient(position + n - 1, SECTOR_SIZE);
    forall i: nat | first <= i < first + (1 + last - first)
      ensures HasBlock(h, disk, i)
    {
      if h.numBytes > 0 {
        LastByte(h, if position + n > 0 then position + n - 1 else 0);
        BlockInDisk(h, disk, i);
      }
    }
  }

  // ---- writing ----

  // The file after `from` is written at `position`.
  function Spliced(c: seq<Byte>, position: nat, from: seq<Byte>): seq<Byte>
    requires position <= |c|
  {
    c[..position] + from + (if position + |from| < |c| then c[position + |from|..] else [])
  }

  function Chunk(buf: seq<Byte>, i: nat): Block
    requires (i + 1) * SECTOR_SIZE <= |buf|
  {
    buf[i * SECTOR_SIZE..(i + 1) * SECTOR_SIZE]
  }

  // d is d0 with `count` blocks from `first` on replaced by buf, sector by sector.
  ghost predicate Written(h: Header, d0: DiskData, d: DiskData, first: nat, count: nat, buf: seq<Byte>)
    requires FileOk(h, d0)
  {
    var blocks := Blocks(h, d0);
    && count * SECTOR_SIZE <= |buf| && first + count <= h.numSectors
    && (forall j :: first <= j < first + count ==> InDisk(blocks[j]) && d[blocks[j]] == Chunk(buf, j - first))
    && (forall s :: InDisk(s) && s !in blocks[first..first + count] ==> d[s] == d0[s])
  }

  lemma BlocksDistinct(h: Header, disk: DiskData)
    requires FileOk(h, disk)
    ensures Distinct(Blocks(h, disk)) && InRange(Blocks(h, disk), NUM_SECTORS)
    ensures h.sectorNumber !in Blocks(h, disk) && forall x <- Index(h) :: x !in Blocks(h, disk)
  {
    var owned, blocks := Owned(h, disk), Blocks(h, disk);
    var k := 1 + |Index(h)|;
    assert owned[0] == h.sectorNumber && (h.numSectors >= NUM_DIRECT ==> owned[1] == Block8(h.data));
    assert forall j :: 0 <= j < |blocks| ==> owned[k + j] == blocks[j];
  }

  lemma WriteNext(h: Header, d0: DiskData, d: DiskData, first: nat, i: nat, buf: seq<Byte>)
    requires FileOk(h, d0) && Written(h, d0, d, first, i, buf)
    requires first + i < h.numSectors && (i + 1) * SECTOR_SIZE <= |buf|
    ensures InRange(Blocks(h, d0), NUM_SECTORS)
    ensures Written(h, d0, d[Blocks(h, d0)[first + i] := Chunk(buf, i)], first, i + 1, buf)
  {
    BlocksDistinct(h, d0);
    var blocks := Blocks(h, d0);
    assert blocks[first..first + i + 1] == blocks[first..first + i] + [blocks[first + i]];
  }

  // The index block is not touched, so the layout stays.
  lemma WrittenLayout(h: Header, d0: DiskData, d: DiskData, first: nat, count: nat, buf: seq<Byte>)
    requires FileOk(h, d0) && Written(h, d0, d, first, count, buf)
    ensures FileOk(h, d) && Blocks(h, d) == Blocks(h, d0) && Owned(h, d) == Owned(h, d0)
  {
    BlocksDistinct(h, d0);
    if h.numSectors >= NUM_DIRECT {
      assert Index(h)[0] == Block8(h.data);
      assert Block8(h.data) !in Blocks(h, d0);
    }
    SameLayout(h, d0, h, d);
  }

  lemma WriteStep(h: Header, d0: DiskData, d: DiskData, first: nat, i: nat, buf: seq<Byte>)
    requires FileOk(h, d0) && Written(h, d0, d, first, i, buf)
    requires first + i < h.numSectors && (i + 1) * SECTOR_SIZE <= |buf|
    ensures HasBlock(h, d, first + i)
    ensures Written(h, d0, d[BlockOf(h, d, first + i) := Chunk(buf, i)], first, i + 1, buf)
  {
    WrittenLayout(h, d0, d, first, i, buf);
    BlockInDisk(h, d, first + i);
    WriteNext(h, d0, d, first, i, buf);
  }

  lemma WrittenByte(h: Header, d0: DiskData, d: DiskData, first: nat, count: nat, buf: seq<Byte>, p: nat)
    requires FileOk(h, d0) && Written(h, d0, d, first, count, buf) && p < h.numBytes && |buf| == count * SECTOR_SIZE
    ensures FileOk(h, d)
    ensures Content(h, d)[p] ==
      if first * SECTOR_SIZE <= p < first * SECTOR_SIZE + |buf| then buf[p - first * SECTOR_SIZE] else Content(h, d0)[p]
  {
    WrittenLayout(h, d0, d, first, count, buf);
    ContentAt(h, d0, p);
    ContentAt(h, d, p);
    BlocksDistinct(h, d0);
    var j, blocks := p / SECTOR_SIZE, Blocks(h, d0);
    BlockInDisk(h, d0, j);
    BlockInDisk(h, d, j);
    if first <= j < first + count {
      assert Chunk(buf, j - first)[p % SECTOR_SIZE] == buf[p - first * SECTOR_SIZE];
    } else {
      assert blocks[j] !in blocks[first..first + count];
    }
  }

  // The buffer for sectors from `first` on: the new bytes in their place, the file's around them.
  ghost predicate Filled(buf: seq<Byte>, c: seq<Byte>, first: nat, position: nat, from: seq<Byte>) {
    forall q: nat :: q < |buf| && first * SECTOR_SIZE + q < |c| ==>
      buf[q] == NewByte(c, position, from, first * SECTOR_SIZE + q)
  }

  function NewByte(c: seq<Byte>, position: nat, from: seq<Byte>, p: nat): Byte
    requires p < |c|
  {
    if position <= p < position + |from| then from[p - position] else c[p]
  }

  // Writing such a buffer over the sectors of the range writes just the range.
  lemma WrittenContent(h: Header, d0: DiskData, d: DiskData, first: nat, count: nat, buf: seq<Byte>,
                       position: nat, from: seq<Byte>)
    requires FileOk(h, d0) && Written(h, d0, d, first, count, buf) && |buf| == count * SECTOR_SIZE
    requires Filled(buf, Content(h, d0), first, position, from)
    requires first * SECTOR_SIZE <= position && position + |from| <= first * SECTOR_SIZE + |buf|
    requires position + |from| <= h.numBytes
    ensures FileOk(h, d) && Content(h, d) == Spliced(Content(h, d0), position, from)
  {
    WrittenLayout(h, d0, d, first, count, buf);
    var c := Content(h, d0);
    forall p: nat | p < h.numBytes
      ensures Content(h, d)[p] == Spliced(c, position, from)[p]
    {
      WrittenByte(h, d0, d, first, count, buf, p);
      if first * SECTOR_SIZE <= p < first * SECTOR_SIZE + |buf| {
        assert buf[p - first * SECTOR_SIZE] == NewByte(c, position, from, first * SECTOR_SIZE + (p - first * SECTOR_SIZE));
      }
    }
  }

  // An extended file begins with the old one.
  lemma GrownContent(h: Header, b: Bits, e: Extension, disk: DiskData)
    requires Grown(h, b, e, disk) && h.numBytes <= e.hdr.numBytes
    ensures Content(e.hdr, disk)[..h.numBytes] == Content(h, disk)
  {
    forall p: nat | p < h.numBytes
      ensures Content(e.hdr, disk)[p] == Content(h, disk)[p]
    {
      ContentAt(h, disk, p);
      ContentAt(e.hdr, disk, p);
      BlockInDisk(h, disk, p / SECTOR_SIZE);
      BlockInDisk(e.hdr, disk, p / SECTOR_SIZE);
      assert Blocks(e.hdr, disk)[..h.numSectors][p / SECTOR_SIZE] == Blocks(e.hdr, disk)[p / SECTOR_SIZE];
    }
  }

  lemma SplicedGrown(c: seq<Byte>, c1: seq<Byte>, position: nat, from: seq<Byte>)
    requires position <= |c| && |c1| == Max(|c|, position + |from|) && c1[..|c|] == c
    ensures Spliced(c1, position, from) == Spliced(c, position, from)
  {
    assert c1[..position] == c1[..|c|][..position];
    if position + |from| < |c| {
      assert c1 == c;
    }
  }

  // The file's sectors are marked.
  ghost predicate Marked(h: Header, disk: DiskData, b: Bits)
    requires FileOk(h, disk) && |b| == NUM_SECTORS
  {
    forall i :: 0 <= i < |Owned(h, disk)| ==> b[Owned(h, disk)[i]]
  }

  // A sector is the file's if it was before, or if it was free before.
  ghost predicate GrownOwned(b: Bits, was: seq<int>, now: seq<int>) {
    forall s :: s in now ==> s in was || (0 <= s < |b| && !b[s])
  }

  lemma GrowsWell(h: Header, b: Bits, size: nat, disk: DiskData)
    requires |b| == NUM_SECTORS && FileOk(h, disk) && Marked(h, disk, b) && CanGrow(h, b, size)
    ensures var e := Extend(h, b, size);
      && FileOk(e.hdr, disk) && Content(e.hdr, disk)[..h.numBytes] == Content(h, disk)
      && GrownOwned(b, Owned(h, disk), Owned(e.hdr, disk)) && Marked(e.hdr, disk, e.bits)
  {
    var e := Extend(h, b, size);
    ExtendRightIff(h, b, size, disk);
    GrownContent(h, b, e, disk);
    ClaimsOwned(h, b, e, disk);
  }

  lemma ClaimsOwned(h: Header, b: Bits, e: Extension, disk: DiskData)
    requires Grown(h, b, e, disk) && e.hdr.sectorNumber == h.sectorNumber
    requires h.numSectors >= NUM_DIRECT ==> Block8(e.hdr.data) == Block8(h.data)
    requires |b| == NUM_SECTORS && Marked(h, disk, b)
    ensures GrownOwned(b, Owned(h, disk), Owned(e.hdr, disk)) && Marked(e.hdr, disk, e.bits)
  {
    var blocks, claims := Blocks(e.hdr, disk), NewClaims(h, e.hdr, disk);
    assert blocks == Blocks(h, disk) + blocks[h.numSectors..];
    forall s | s in Owned(e.hdr, disk)
      ensures (s in Owned(h, disk) || (0 <= s < |b| && !b[s])) && InDisk(s) && e.bits[s]
    {
      if s !in Owned(h, disk) {
        assert s in claims;
      }
    }
  }

  ghost predicate KeptOutside(d0: DiskData, d: DiskData, owned: seq<int>) {
    forall s :: InDisk(s) && s !in owned ==> d[s] == d0[s]
  }

  lemma WrittenOutside(h: Header, d0: DiskData, d: DiskData, first: nat, count: nat, buf: seq<Byte>)
    requires FileOk(h, d0) && Written(h, d0, d, first, count, buf)
    ensures FileOk(h, d) && Owned(h, d) == Owned(h, d0) && KeptOutside(d0, d, Owned(h, d0))
  {
    WrittenLayout(h, d0, d, first, count, buf);
    assert forall s :: s in Blocks(h, d0)[first..first + count] ==> s in Blocks(h, d0);
    assert forall s :: s in Blocks(h, d0) ==> s in Owned(h, d0);
  }

  // What was in use, and not by this file, stays.
  ghost predicate OthersKept(d0: DiskData, d: DiskData, b: Bits, owned: seq<int>)
    requires |b| == NUM_SECTORS
  {
    forall s :: InDisk(s) && b[s] && s !in owned ==> d[s] == d0[s]
  }

  // The header and the map after a write of n bytes.
  function AfterWrite(h: Header, b: Bits, position: nat, n: nat): Extension
    requires |b| == NUM_SECTORS && 0 <= h.numBytes && h.numSectors == DivRoundUp(h.numBytes)
  {
    if 0 < n && position <= h.numBytes < position + n then Extend(h, b, position + n - h.numBytes)
    else Extension(Done, h, b)
  }

  function SectorsFor(position: nat, n: nat): nat
    requires n > 0
  {
    1 + (position + n - 1) / SECTOR_SIZE - position / SECTOR_SIZE
  }

  ghost predicate OnlyHeaderChanged(h: Header, d0: DiskData, d: DiskData) {
    forall s :: InDisk(s) && s != h.sectorNumber ==> d[s] == d0[s]
  }

  // Sector i of the file is in its place in a buffer that starts with sector `first`.
  ghost predicate SectorIn(buf: seq<Byte>, c: seq<Byte>, first: nat, i: nat) {
    forall p: nat :: i * SECTOR_SIZE <= p < (i + 1) * SECTOR_SIZE && p < |c| ==>
      0 <= p - first * SECTOR_SIZE < |buf| && buf[p - first * SECTOR_SIZE] == c[p]
  }

  lemma SectorCopied(was: seq<Byte>, buf: seq<Byte>, c: seq<Byte>, first: nat, i: nat, n: nat)
    requires first <= i && (i - first + 1) * SECTOR_SIZE <= |was| && i * SECTOR_SIZE < |c|
    requires n == Min(SECTOR_SIZE, |c| - i * SECTOR_SIZE)
    requires var at := (i - first) * SECTOR_SIZE;
      buf == was[..at] + c[i * SECTOR_SIZE..i * SECTOR_SIZE + n] + was[at + n..]
    ensures SectorIn(buf, c, first, i)
    ensures first < i && SectorIn(was, c, first, first) ==> SectorIn(buf, c, first, first)
  {
    forall p: nat | i * SECTOR_SIZE <= p < (i + 1) * SECTOR_SIZE && p < |c|
      ensures 0 <= p - first * SECTOR_SIZE < |buf| && buf[p - first * SECTOR_SIZE] == c[p]
    {
    }
    if first < i && SectorIn(was, c, first, first) {
      forall p: nat | first * SECTOR_SIZE <= p < (first + 1) * SECTOR_SIZE && p < |c|
        ensures 0 <= p - first * SECTOR_SIZE < |buf| && buf[p - first * SECTOR_SIZE] == c[p]
      {
        assert was[p - first * SECTOR_SIZE] == c[p];
      }
    }
  }

  lemma FilledUp(b: seq<Byte>, buf: seq<Byte>, c: seq<Byte>, position: nat, from: seq<Byte>)
    requires from != [] && position + |from| <= |c| && |b| == SectorsFor(position, |from|) * SECTOR_SIZE
    requires var first, last := position / SECTOR_SIZE, (position + |from| - 1) / SECTOR_SIZE;
      && buf == b[..position - first * SECTOR_SIZE] + from + b[position - first * SECTOR_SIZE + |from|..]
      && (position != first * SECTOR_SIZE ==> SectorIn(b, c, first, first))
      && (position + |from| != (last + 1) * SECTOR_SIZE ==> SectorIn(b, c, first, last))
    ensures Filled(buf, c, position / SECTOR_SIZE, position, from)
  {
    var first, last := position / SECTOR_SIZE, (position + |from| - 1) / SECTOR_SIZE;
    forall q: nat | q < |buf| && first * SECTOR_SIZE + q < |c|
      ensures buf[q] == NewByte(c, position, from, first * SECTOR_SIZE + q)
    {
      var p := first * SECTOR_SIZE + q;
      if p < position {
        assert first * SECTOR_SIZE <= p < (first + 1) * SECTOR_SIZE;
        assert b[p - first * SECTOR_SIZE] == c[p];
      } else if p >= position + |from| {
        assert last * SECTOR_SIZE <= p < (last + 1) * SECTOR_SIZE;
        assert b[p - first * SECTOR_SIZE] == c[p];
      }
    }
  }

  // ---- the byte sequence machine ----

  datatype Op = ReadOp(numBytes: nat, position: nat) | WriteOp(from: seq<Byte>, position: nat)
  datatype Answer = Got(data: seq<Byte>) | Put(count: int)

  predicate Fits(op: Op) {
    op.WriteOp? ==> op.position + |op.from| <= 8 * SECTOR_SIZE
  }

  function FlatRead(c: seq<Byte>, numBytes: nat, position: nat): seq<Byte> {
    if position > |c| then [] else c[position..position + Min(numBytes, |c| - position)]
  }

  function FlatStep(c: seq<Byte>, op: Op): seq<Byte> {
    if op.WriteOp? && op.position <= |c| then Spliced(c, op.position, op.from) else c
  }

  function FlatAnswer(c: seq<Byte>, op: Op): Answer {
    match op
    case ReadOp(n, position) => Got(FlatRead(c, n, position))
    case WriteOp(from, position) => Put(if position <= |c| then |from| else 0)
  }

  function FlatRun(c: seq<Byte>, ops: seq<Op>): seq<Byte>
    decreases |ops|
  {
    if ops == [] then c else FlatRun(FlatStep(c, ops[0]), ops[1..])
  }

  function FlatAnswers(c: seq<Byte>, ops: seq<Op>): seq<Answer>
    decreases |ops|
  {
    if ops == [] then [] else [FlatAnswer(c, ops[0])] + FlatAnswers(FlatStep(c, ops[0]), ops[1..])
  }

  lemma ReadSlice(c: seq<Byte>, was: seq<Byte>, into: seq<Byte>, n: nat, numBytes: nat, position: nat)
    requires n == ReadCount(|c|, numBytes, position) && |was| == numBytes
    requires n > 0 ==> into == was[..0] + c[position..position + n] + was[n..]
    requires n == 0 ==> into == was
    ensures n <= |into| && into[..n] == FlatRead(c, numBytes, position)
  {
  }

  // From c0 the first i operations have led to c and the answers so far.
  ghost predicate OnTrack(c0: seq<Byte>, c: seq<Byte>, ops: seq<Op>, i: nat, answers: seq<Answer>) {
    && i <= |ops| && FlatRun(c, ops[i..]) == FlatRun(c0, ops)
    && answers + FlatAnswers(c, ops[i..]) == FlatAnswers(c0, ops)
  }

  lemma FlatNext(c0: seq<Byte>, c: seq<Byte>, ops: seq<Op>, i: nat, answers: seq<Answer>)
    requires i < |ops| && OnTrack(c0, c, ops, i, answers)
    ensures OnTrack(c0, FlatStep(c, ops[i]), ops, i + 1, answers + [FlatAnswer(c, ops[i])])
  {
    assert ops[i..][0] == ops[i] && ops[i..][1..] == ops[i + 1..];
  }

  /** What was written is read back, and nothing else has changed. */
  lemma ReadAfterWrite(c: seq<Byte>, from: seq<Byte>, position: nat, p: nat)
    requires position <= |c|
    ensures FlatRead(Spliced(c, position, from), |from|, position) == from
    ensures p < |Spliced(c, position, from)| && !(position <= p < position + |from|) ==>
      p < |c| && Spliced(c, position, from)[p] == c[p]
    ensures |Spliced(c, position, from)| == Max(|c|, position + |from|)
  {
    var c' := Spliced(c, position, from);
    assert c'[position..position + |from|] == from;
  }

  lemma StaysRoomy(h: Header, b: Bits, position: nat, n: nat)
    requires |b| == NUM_SECTORS && 0 <= h.numBytes && h.numSectors == DivRoundUp(h.numBytes) <= 8
    requires CountClear(b) >= 8 - h.numSectors && position + n <= 8 * SECTOR_SIZE
    ensures 0 < n && position <= h.numBytes < position + n ==> CanGrow(h, b, position + n - h.numBytes)
    ensures var e := AfterWrite(h, b, position, n);
      e.hdr.numSectors <= 8 && |e.bits| == NUM_SECTORS && CountClear(e.bits) >= 8 - e.hdr.numSectors
  {
    if 0 < n && position <= h.numBytes < position + n && DivRoundUp(position + n) > h.numSectors {
      FindsTake(b, DivRoundUp(position + n) - h.numSectors);
    }
  }

  class OpenFile {
    const hdr: FileHeader
    const disk: Disk
    var seekPosition: nat

    constructor (disk: Disk, sector: int)
      requires InDisk(sector)
      ensures this.disk == disk && fresh(hdr) && hdr.View() == DecodeHeader(disk.sectors[sector]) && seekPosition == 0
    {
      this.disk := disk;
      hdr := new FileHeader(DecodeHeader(disk.sectors[sector]));
      seekPosition := 0;
    }

    ghost predicate Ok()
      reads this, hdr, disk
    {
      FileOk(hdr.View(), disk.sectors)
    }

    ghost function Bytes(): seq<Byte>
      requires Ok()
      reads this, hdr, disk
    {
      Content(hdr.View(), disk.sectors)
    }

    ghost function Sectors(): seq<int>
      requires Ok()
      reads this, hdr, disk
    {
      Owned(hdr.View(), disk.sectors)
    }

    // One sector into place i of the buffer.
    method ReadBlock(first: nat, i: nat, buf: array<Byte>)
      requires HasBlock(hdr.View(), disk.sectors, first + i) && (i + 1) * SECTOR_SIZE <= buf.Length
      requires Holds(buf[..i * SECTOR_SIZE], hdr.View(), disk.sectors, first)
      modifies buf
      ensures Holds(buf[..(i + 1) * SECTOR_SIZE], hdr.View(), disk.sectors, first)
    {
      var sector := hdr.ByteToSector(disk, (first + i) * SECTOR_SIZE);
      var data := disk.ReadSector(sector);
      Blit(data, buf, i * SECTOR_SIZE);
      HoldsNext(old(buf[..i * SECTOR_SIZE]), data, hdr.View(), disk.sectors, first, i);
      assert buf[..(i + 1) * SECTOR_SIZE] == old(buf[..i * SECTOR_SIZE]) + data;
    }

    // The whole sectors first to first + count - 1.
    method ReadBlocks(first: nat, count: nat) returns (buf: array<Byte>)
      requires forall i: nat :: first <= i < first + count ==> HasBlock(hdr.View(), disk.sectors, i)
      ensures fresh(buf) && buf.Length == count * SECTOR_SIZE
      ensures Holds(buf[..], hdr.View(), disk.sectors, first)
    {
      buf := new Byte[count * SECTOR_SIZE];
      var i := 0;
      while i < count
        invariant 0 <= i <= count
        invariant Holds(buf[..i * SECTOR_SIZE], hdr.View(), disk.sectors, first)
      {
        ReadBlock(first, i, buf);
        i := i + 1;
      }
      assert buf[..count * SECTOR_SIZE] == buf[..];
    }

    /** The bytes from position on, as many as there are up to numBytes, go to into[at..]; the file
        and everything else stay as they were, but for the time stamp in the header's sector. */
    method ReadAt(into: array<Byte>, at: nat, numBytes: int, position: nat) returns (n: int)
      requires Ok() && (numBytes > 0 ==> at + numBytes <= into.Length)
      requires numBytes > 0 && position == 0 && hdr.numBytes == 0 ==> InDisk(hdr.data[0])
      modifies into, hdr`text, disk
      ensures n == ReadCount(hdr.numBytes, numBytes, position) && (n > 0 ==> at + n <= into.Length)
      ensures n > 0 ==> into[..] == old(into[..at]) + old(Bytes())[position..position + n] + old(into[at + n..])
      ensures n == 0 ==> into[..] == old(into[..])
      ensures hdr.View() == old(hdr.View()).(text := hdr.text)
      ensures numBytes <= 0 || position > hdr.numBytes ==> disk.sectors == old(disk.sectors)
      ensures !(numBytes <= 0 || position > hdr.numBytes) ==>
        disk.sectors == old(disk.sectors)[hdr.sectorNumber := EncodeHeader(hdr.View())]
      ensures Ok() && Bytes() == old(Bytes()) && Sectors() == old(Sectors())
    {
      if numBytes <= 0 || position > hdr.numBytes {
        return 0;
      }
      n := Min(numBytes, hdr.numBytes - position);
      ReadRange(into, at, n, position);
      Touch();
    }

    method ReadRange(into: array<Byte>, at: nat, n: nat, position: nat)
      requires Ok() && at + n <= into.Length && position + n <= hdr.numBytes
      requires position == 0 && hdr.numBytes == 0 ==> InDisk(hdr.data[0])
      modifies into
      ensures into[..] == old(into[..at]) + Bytes()[position..position + n] + old(into[at + n..])
    {
      var first := position / SECTOR_SIZE;
      var last := Quotient(position + n - 1, SECTOR_SIZE);
      BlocksThere(hdr.View(), disk.sectors, position, n);
      var buf := ReadBlocks(first, 1 + last - first);
      CopyOut(buf, position - first * SECTOR_SIZE, into, at, n, position);
    }

    method CopyOut(buf: array<Byte>, from: nat, into: array<Byte>, at: nat, n: nat, ghost position: nat)
      requires Ok() && buf != into && from + n <= buf.Length && at + n <= into.Length
      requires from <= position && position - from == position / SECTOR_SIZE * SECTOR_SIZE && position + n <= hdr.numBytes
      requires Holds(buf[..], hdr.View(), disk.sectors, position / SECTOR_SIZE)
      modifies into
      ensures into[..] == old(into[..at]) + Bytes()[position..position + n] + old(into[at + n..])
    {
      Blit(buf[from..from + n], into, at);
      assert buf[from..from + n] == Bytes()[position..position + n];
    }

    // SetTime and WriteBack: the header goes to its sector, with some time stamp.
    method Touch()
      requires Ok()
      modifies hdr`text, disk
      ensures hdr.View() == old(hdr.View()).(text := hdr.text)
      ensures disk.sectors == old(disk.sectors)[hdr.sectorNumber := EncodeHeader(hdr.View())]
      ensures Ok() && Bytes() == old(Bytes()) && Sectors() == old(Sectors())
    {
      ghost var h, d := hdr.View(), disk.sectors;
      hdr.text := *;
      HeaderApart(h, d, EncodeHeader(hdr.View()));
      disk.WriteSector(hdr.sectorNumber, EncodeHeader(hdr.View()));
      SameContent(h, d, hdr.View(), disk.sectors);
    }

    method WriteBlock(ghost d0: DiskData, first: nat, i: nat, buf: seq<Byte>)
      requires FileOk(hdr.View(), d0) && Written(hdr.View(), d0, disk.sectors, first, i, buf)
      requires first + i < hdr.numSectors && (i + 1) * SECTOR_SIZE <= |buf|
      modifies disk
      ensures Written(hdr.View(), d0, disk.sectors, first, i + 1, buf)
    {
      WriteStep(hdr.View(), d0, disk.sectors, first, i, buf);
      var sector := hdr.ByteToSector(disk, (first + i) * SECTOR_SIZE);
      disk.WriteSector(sector, Chunk(buf, i));
    }

    method WriteBlocks(first: nat, count: nat, buf: seq<Byte>)
      requires Ok() && |buf| == count * SECTOR_SIZE && first + count <= hdr.numSectors
      modifies disk
      ensures Written(hdr.View(), old(disk.sectors), disk.sectors, first, count, buf)
    {
      ghost var d0 := disk.sectors;
      var i := 0;
      while i < count
        invariant 0 <= i <= count
        invariant Written(hdr.View(), d0, disk.sectors, first, i, buf)
      {
        WriteBlock(d0, first, i, buf);
        i := i + 1;
      }
    }

    method ReadSectorInto(buf: array<Byte>, first: nat, i: nat)
      requires Ok() && first <= i && (i - first + 1) * SECTOR_SIZE <= buf.Length && i * SECTOR_SIZE < hdr.numBytes
      modifies buf, hdr`text, disk
      ensures hdr.View() == old(hdr.View()).(text := hdr.text)
      ensures Ok() && Bytes() == old(Bytes()) && Sectors() == old(Sectors()) && OnlyHeaderChanged(hdr.View(), old(disk.sectors), disk.sectors)
      ensures SectorIn(buf[..], Bytes(), first, i)
      ensures first < i && SectorIn(old(buf[..]), Bytes(), first, first) ==> SectorIn(buf[..], Bytes(), first, first)
    {
      ghost var was := buf[..];
      var n := ReadAt(buf, (i - first) * SECTOR_SIZE, SECTOR_SIZE, i * SECTOR_SIZE);
      SectorCopied(was, buf[..], Bytes(), first, i, n);
    }

    // The first and the last sector are read in when they are changed in part.
    method FillBuffer(position: nat, from: seq<Byte>) returns (buf: array<Byte>)
      requires Ok() && from != [] && position + |from| <= hdr.numBytes
      modifies hdr`text, disk
      ensures fresh(buf) && buf.Length == SectorsFor(position, |from|) * SECTOR_SIZE
      ensures hdr.View() == old(hdr.View()).(text := hdr.text)
      ensures Ok() && Bytes() == old(Bytes()) && Sectors() == old(Sectors()) && OnlyHeaderChanged(hdr.View(), old(disk.sectors), disk.sectors)
      ensures Filled(buf[..], Bytes(), position / SECTOR_SIZE, position, from)
    {
      var first, last := position / SECTOR_SIZE, (position + |from| - 1) / SECTOR_SIZE;
      buf := new Byte[(1 + last - first) * SECTOR_SIZE];
      var firstAligned := position == first * SECTOR_SIZE;
      var lastAligned := position + |from| == (last + 1) * SECTOR_SIZE;
      if !firstAligned {
        ReadSectorInto(buf, first, first);
      }
      if !lastAligned && (first != last || firstAligned) {
        ReadSectorInto(buf, first, last);
      }
      ghost var b2 := buf[..];
      Blit(from, buf, position - first * SECTOR_SIZE);
      FilledUp(b2, buf[..], Bytes(), position, from);
    }

    // Extend, and the header goes to its sector.
    method Grow(freeMap: BitMap, size: nat)
      requires Ok() && freeMap.Valid() && freeMap.numBits == NUM_SECTORS
      requires Marked(hdr.View(), disk.sectors, freeMap.bits) && CanGrow(hdr.View(), freeMap.bits, size)
      modifies hdr, disk, freeMap, freeMap.map_
      ensures WriteReady(freeMap)
      ensures hdr.View() == Extend(old(hdr.View()), old(freeMap.bits), size).hdr
      ensures freeMap.bits == Extend(old(hdr.View()), old(freeMap.bits), size).bits
      ensures Bytes()[..old(hdr.numBytes)] == old(Bytes())
      ensures OnlyHeaderChanged(hdr.View(), old(disk.sectors), disk.sectors)
      ensures GrownOwned(old(freeMap.bits), old(Sectors()), Sectors())
    {
      ghost var h, b, d := hdr.View(), freeMap.bits, disk.sectors;
      GrowsWell(h, b, size, d);
      var _ := hdr.Extend(freeMap, size);
      HeaderApart(hdr.View(), d, EncodeHeader(hdr.View()));
      disk.WriteSector(hdr.sectorNumber, EncodeHeader(hdr.View()));
      SameContent(hdr.View(), d, hdr.View(), disk.sectors);
    }

    // A write that stays within the file.
    method Overwrite(from: seq<Byte>, position: nat)
      requires Ok() && from != [] && position + |from| <= hdr.numBytes
      modifies hdr`text, disk
      ensures hdr.View() == old(hdr.View()).(text := hdr.text)
      ensures Ok() && Bytes() == Spliced(old(Bytes()), position, from) && Sectors() == old(Sectors())
      ensures KeptOutside(old(disk.sectors), disk.sectors, Sectors())
      ensures disk.sectors[hdr.sectorNumber] == EncodeHeader(hdr.View())
    {
      var buf := FillBuffer(position, from);
      PutBuffer(buf[..], position, from);
      assert Sectors()[0] == hdr.sectorNumber;
      Touch();
    }

    method PutBuffer(buf: seq<Byte>, position: nat, ghost from: seq<Byte>)
      requires Ok() && from != [] && position + |from| <= hdr.numBytes
      requires |buf| == SectorsFor(position, |from|) * SECTOR_SIZE
      requires Filled(buf, Bytes(), position / SECTOR_SIZE, position, from)
      modifies disk
      ensures Ok() && Bytes() == Spliced(old(Bytes()), position, from) && Sectors() == old(Sectors())
      ensures KeptOutside(old(disk.sectors), disk.sectors, Sectors())
    {
      ghost var h, d := hdr.View(), disk.sectors;
      var first, count := position / SECTOR_SIZE, |buf| / SECTOR_SIZE;
      LastByte(h, position + |from| - 1);
      WriteBlocks(first, count, buf);
      WrittenContent(h, d, disk.sectors, first, count, buf, position, from);
      WrittenOutside(h, d, disk.sectors, first, count, buf);
    }

    ghost predicate WriteReady(freeMap: BitMap)
      reads this, hdr, disk, freeMap, freeMap.map_
    {
      Ok() && freeMap.Valid() && freeMap.numBits == NUM_SECTORS && Marked(hdr.View(), disk.sectors, freeMap.bits)
    }

    /** A write at position <= length replaces exactly its range, and the length becomes
        max(length, position + |from|).  No sector that was in use by anything else changes.
        freeMap is the map of free sectors that is kept in sector 0's file. */
    method WriteAt(from: seq<Byte>, position: nat, freeMap: BitMap) returns (n: int)
      requires WriteReady(freeMap)
      requires from != [] && position <= hdr.numBytes < position + |from| ==>
        CanGrow(hdr.View(), freeMap.bits, position + |from| - hdr.numBytes)
      modifies hdr, disk, freeMap, freeMap.map_
      ensures n == (if position > old(hdr.numBytes) then 0 else |from|)
      ensures WriteReady(freeMap)
      ensures n == 0 ==> hdr.View() == old(hdr.View()) && disk.sectors == old(disk.sectors) && freeMap.bits == old(freeMap.bits)
      ensures n > 0 ==> Bytes() == Spliced(old(Bytes()), position, from)
      ensures n > 0 ==> hdr.numBytes == Max(old(hdr.numBytes), position + |from|)
      ensures n > 0 ==> disk.sectors[hdr.sectorNumber] == EncodeHeader(hdr.View())
      ensures OthersKept(old(disk.sectors), disk.sectors, old(freeMap.bits), old(Sectors()))
      ensures KeptOutside(old(disk.sectors), disk.sectors, Sectors())
      ensures hdr.View() == AfterWrite(old(hdr.View()), old(freeMap.bits), position, |from|).hdr.(text := hdr.text)
      ensures freeMap.bits == AfterWrite(old(hdr.View()), old(freeMap.bits), position, |from|).bits
    {
      if from == [] || position > hdr.numBytes {
        return 0;
      }
      MakeRoom(from, position, freeMap);
      Overwrite(from, position);
      return |from|;
    }

    method MakeRoom(from: seq<Byte>, position: nat, freeMap: BitMap)
      requires WriteReady(freeMap) && from != [] && position <= hdr.numBytes
      requires hdr.numBytes < position + |from| ==>
        CanGrow(hdr.View(), freeMap.bits, position + |from| - hdr.numBytes)
      modifies hdr, disk, freeMap, freeMap.map_
      ensures WriteReady(freeMap) && hdr.numBytes == Max(old(hdr.numBytes), position + |from|)
      ensures Spliced(Bytes(), position, from) == Spliced(old(Bytes()), position, from)
      ensures hdr.View() == AfterWrite(old(hdr.View()), old(freeMap.bits), position, |from|).hdr
      ensures freeMap.bits == AfterWrite(old(hdr.View()), old(freeMap.bits), position, |from|).bits
      ensures OnlyHeaderChanged(hdr.View(), old(disk.sectors), disk.sectors)
      ensures GrownOwned(old(freeMap.bits), old(Sectors()), Sectors())
    {
      ghost var c := Bytes();
      if position + |from| > hdr.numBytes {
        Grow(freeMap, position + |from| - hdr.numBytes);
        SplicedGrown(c, Bytes(), position, from);
      }
    }

    method ReadBytes(numBytes: nat, position: nat) returns (data: seq<Byte>)
      requires Ok() && (numBytes > 0 && position == 0 && hdr.numBytes == 0 ==> InDisk(hdr.data[0]))
      modifies hdr`text, disk
      ensures Ok() && Bytes() == old(Bytes()) && Sectors() == old(Sectors())
      ensures hdr.View() == old(hdr.View()).(text := hdr.text)
      ensures data == FlatRead(old(Bytes()), numBytes, position)
      ensures OnlyHeaderChanged(hdr.View(), old(disk.sectors), disk.sectors)
    {
      var into := new Byte[numBytes];
      ghost var was := into[..];
      var n := ReadAt(into, 0, numBytes, position);
      data := into[..n];
      ReadSlice(Bytes(), was, into[..], n, numBytes, position);
    }

    // Read and Write go on where the last one stopped.
    method Read(numBytes: nat) returns (data: seq<Byte>)
      requires Ok() && (numBytes > 0 && seekPosition == 0 && hdr.numBytes == 0 ==> InDisk(hdr.data[0]))
      modifies this`seekPosition, hdr`text, disk
      ensures Ok() && Bytes() == old(Bytes()) && Sectors() == old(Sectors())
      ensures hdr.View() == old(hdr.View()).(text := hdr.text)
      ensures data == FlatRead(old(Bytes()), numBytes, old(seekPosition)) && seekPosition == old(seekPosition) + |data|
    {
      data := ReadBytes(numBytes, seekPosition);
      seekPosition := seekPosition + |data|;
    }

    method Write(from: seq<Byte>, freeMap: BitMap) returns (n: int)
      requires WriteReady(freeMap)
      requires from != [] && seekPosition <= hdr.numBytes < seekPosition + |from| ==>
        CanGrow(hdr.View(), freeMap.bits, seekPosition + |from| - hdr.numBytes)
      modifies this`seekPosition, hdr, disk, freeMap, freeMap.map_
      ensures WriteReady(freeMap)
      ensures n == (if old(seekPosition > hdr.numBytes) then 0 else |from|) && seekPosition == old(seekPosition) + n
      ensures Bytes() == if n > 0 then Spliced(old(Bytes()), old(seekPosition), from) else old(Bytes())
    {
      n := WriteAt(from, seekPosition, freeMap);
      seekPosition := seekPosition + n;
    }

    // Room for a file of eight sectors.
    ghost predicate Roomy(freeMap: BitMap)
      reads this, hdr, disk, freeMap, freeMap.map_
    {
      && WriteReady(freeMap) && hdr.numSectors <= 8 && CountClear(freeMap.bits) >= 8 - hdr.numSectors
      && (hdr.numBytes == 0 ==> InDisk(hdr.data[0]))
    }

    /** Any run of reads and writes within eight sectors behaves as on a plain byte sequence. */
    method Perform(ops: seq<Op>, freeMap: BitMap) returns (answers: seq<Answer>)
      requires Roomy(freeMap) && forall i :: 0 <= i < |ops| ==> Fits(ops[i])
      modifies hdr, disk, freeMap, freeMap.map_
      ensures Roomy(freeMap)
      ensures Bytes() == FlatRun(old(Bytes()), ops)
      ensures answers == FlatAnswers(old(Bytes()), ops)
    {
      answers := [];
      ghost var c := Bytes();
      var i := 0;
      while i < |ops|
        invariant 0 <= i <= |ops| && Roomy(freeMap)
        invariant OnTrack(c, Bytes(), ops, i, answers)
      {
        FlatNext(c, Bytes(), ops, i, answers);
        var a := PerformOne(ops[i], freeMap);
        answers := answers + [a];
        i := i + 1;
      }
    }

    method PerformOne(op: Op, freeMap: BitMap) returns (a: Answer)
      requires Roomy(freeMap) && Fits(op)
      modifies hdr, disk, freeMap, freeMap.map_
      ensures Roomy(freeMap) && Bytes() == FlatStep(old(Bytes()), op) && a == FlatAnswer(old(Bytes()), op)
    {
      match op
      case ReadOp(numBytes, position) =>
        var data := ReadBytes(numBytes, position);
        a := Got(data);
      case WriteOp(from, position) =>
        var n := WriteBytes(from, position, freeMap);
        a := Put(n);
    }

    method WriteBytes(from: seq<Byte>, position: nat, freeMap: BitMap) returns (n: int)
      requires Roomy(freeMap) && position + |from| <= 8 * SECTOR_SIZE
      modifies hdr, disk, freeMap, freeMap.map_
      ensures Roomy(freeMap) && n == (if position > old(hdr.numBytes) then 0 else |from|)
      ensures Bytes() == if position <= old(hdr.numBytes) then Spliced(old(Bytes()), position, from) else old(Bytes())
    {
      StaysRoomy(hdr.View(), freeMap.bits, position, |from|);
      n := WriteAt(from, position, freeMap);
    }
  }
}
