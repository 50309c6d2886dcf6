/** Demand paging without a TLB (machine/translate.cc, the page-fault branch of
    userprog/exception.cc, the frame map of machine/machine.cc, the table set up by
    userprog/addrspace.cc).

    Entry i of the page table describes frame i and says which page it holds.  A fault takes a
    free frame or else evicts frame 0, writing it back only when it is dirty.  One address
    space runs; which frames are free when it starts is arbitrary. */
module Paging {
  import opened Basics
  import opened Bytes

  const MEMORY_SIZE := NUM_PHYS_PAGES * PAGE_SIZE

  datatype Entry = Entry(virtualPage: int, physicalPage: int, valid: bool, readOnly: bool, use: bool, dirty: bool)

  // ---------------------------------------------------------------------------
  // Memory as values

  // The last of the first k entries that holds page v, or -1.
  function FrameOf(table: seq<Entry>, v: int, k: nat): (r: int)
    requires k <= |table|
    ensures -1 <= r < k
    ensures r >= 0 ==> table[r].virtualPage == v
    ensures r == -1 ==> forall i | 0 <= i < k :: table[i].virtualPage != v
  {
    if k == 0 then -1
    else if table[k - 1].virtualPage == v then k - 1
    else FrameOf(table, v, k - 1)
  }

  function PageByte(s: seq<Byte>, page: int, k: int): Byte
    requires 0 <= page && 0 <= k < PAGE_SIZE && page * PAGE_SIZE + k < |s|
  {
    s[page * PAGE_SIZE + k]
  }

  ghost predicate TableOk(table: seq<Entry>, used: seq<bool>, n: nat) {
    && |table| == |used| == NUM_PHYS_PAGES && 1 <= n <= NUM_PHYS_PAGES
    && (forall i | 0 <= i < NUM_PHYS_PAGES ::
          && table[i].physicalPage == i && !table[i].readOnly && -1 <= table[i].virtualPage < n
          && (!used[i] ==> table[i].virtualPage == -1)
          && (table[i].virtualPage == -1 ==> !table[i].dirty))
    && (forall i, j | 0 <= i < j < NUM_PHYS_PAGES && table[i].virtualPage >= 0 ::
          table[i].virtualPage != table[j].virtualPage)
  }

  // A resident page that is not dirty equals its copy in the backing file.
  ghost predicate CleanOk(mem: seq<Byte>, table: seq<Entry>, file: seq<Byte>, n: nat)
    requires |table| == NUM_PHYS_PAGES
  {
    && |mem| == MEMORY_SIZE && |file| == n * PAGE_SIZE
    && (forall i | 0 <= i < NUM_PHYS_PAGES :: table[i].virtualPage < n)
    && (forall i, k | 0 <= i < NUM_PHYS_PAGES && 0 <= k < PAGE_SIZE
          && table[i].virtualPage >= 0 && !table[i].dirty ::
          PageByte(mem, i, k) == PageByte(file, table[i].virtualPage, k))
  }

  ghost predicate Ok(mem: seq<Byte>, table: seq<Entry>, used: seq<bool>, file: seq<Byte>, n: nat) {
    TableOk(table, used, n) && CleanOk(mem, table, file, n)
  }

  // The byte the program should see at address a.
  function ByteAt(mem: seq<Byte>, table: seq<Entry>, file: seq<Byte>, a: nat): Byte
    requires |mem| == MEMORY_SIZE && |table| == NUM_PHYS_PAGES && a < |file|
  {
    var f := FrameOf(table, a / PAGE_SIZE, NUM_PHYS_PAGES);
    if f >= 0 then mem[f * PAGE_SIZE + a % PAGE_SIZE] else file[a]
  }

  // The address space as a flat array of bytes.
  function Flat(mem: seq<Byte>, table: seq<Entry>, file: seq<Byte>): (r: seq<Byte>)
    requires |mem| == MEMORY_SIZE && |table| == NUM_PHYS_PAGES
    ensures |r| == |file|
    ensures forall a | 0 <= a < |file| :: r[a] == ByteAt(mem, table, file, a)
  {
    seq(|file|, a requires 0 <= a < |file| => ByteAt(mem, table, file, a))
  }

  function Splice(s: seq<Byte>, at: nat, b: seq<Byte>): (r: seq<Byte>)
    requires at + |b| <= |s|
    ensures |r| == |s|
  {
    s[..at] + b + s[at + |b|..]
  }

  lemma SpliceSnoc(s: seq<Byte>, at: nat, b: seq<Byte>, k: nat)
    requires k < |b| && at + |b| <= |s|
    ensures Splice(s, at, b[..k])[at + k := b[k]] == Splice(s, at, b[..k + 1])
  {
  }

  lemma UniqueFrame(table: seq<Entry>, used: seq<bool>, n: nat, i: nat)
    requires TableOk(table, used, n) && i < NUM_PHYS_PAGES && table[i].virtualPage >= 0
    ensures FrameOf(table, table[i].virtualPage, NUM_PHYS_PAGES) == i
  {
  }

  // Marking entries used or dirty does not change where pages are.
  lemma {:induction false} SameFrames(t: seq<Entry>, t': seq<Entry>, v: int, k: nat)
    requires |t| == |t'| && k <= |t|
    requires forall i | 0 <= i < |t| :: t[i].virtualPage == t'[i].virtualPage
    ensures FrameOf(t, v, k) == FrameOf(t', v, k)
  {
    if k > 0 {
      SameFrames(t, t', v, k - 1);
    }
  }

  lemma SameFlat(mem: seq<Byte>, t: seq<Entry>, t': seq<Entry>, file: seq<Byte>)
    requires |mem| == MEMORY_SIZE && |t| == |t'| == NUM_PHYS_PAGES
    requires forall i | 0 <= i < |t| :: t[i].virtualPage == t'[i].virtualPage
    ensures Flat(mem, t, file) == Flat(mem, t', file)
  {
    forall a | 0 <= a < |file| ensures ByteAt(mem, t, file, a) == ByteAt(mem, t', file, a) {
      SameFrames(t, t', a / PAGE_SIZE, NUM_PHYS_PAGES);
    }
  }

  // Storing a byte at offset o of page v, which is dirty and in frame f.
  lemma StoreByte(mem: seq<Byte>, table: seq<Entry>, used: seq<bool>, file: seq<Byte>, n: nat, f: nat, v: nat, o: nat, b: Byte)
    requires Ok(mem, table, used, file, n) && v < n && o < PAGE_SIZE
    requires f == FrameOf(table, v, NUM_PHYS_PAGES) && table[f].dirty
    ensures f < NUM_PHYS_PAGES
    ensures Ok(mem[f * PAGE_SIZE + o := b], table, used, file, n)
    ensures Flat(mem[f * PAGE_SIZE + o := b], table, file) == Flat(mem, table, file)[v * PAGE_SIZE + o := b]
  {
    var mem', a := mem[f * PAGE_SIZE + o := b], v * PAGE_SIZE + o;
    assert a / PAGE_SIZE == v && a % PAGE_SIZE == o;
    forall c | 0 <= c < |file| && c != a ensures ByteAt(mem', table, file, c) == ByteAt(mem, table, file, c) {
      var g := FrameOf(table, c / PAGE_SIZE, NUM_PHYS_PAGES);
      if g == f {
        assert c / PAGE_SIZE == v && c % PAGE_SIZE != o;
      }
    }
    assert Flat(mem', table, file) == Flat(mem, table, file)[a := b];
  }

  lemma {:induction false} StoreAll(mem: seq<Byte>, table: seq<Entry>, used: seq<bool>, file: seq<Byte>, n: nat,
                                    f: nat, v: nat, o: nat, b: seq<Byte>)
    requires Ok(mem, table, used, file, n) && v < n && o + |b| <= PAGE_SIZE
    requires f == FrameOf(table, v, NUM_PHYS_PAGES) && table[f].dirty
    ensures f < NUM_PHYS_PAGES
    ensures Ok(Splice(mem, f * PAGE_SIZE + o, b), table, used, file, n)
    ensures Flat(Splice(mem, f * PAGE_SIZE + o, b), table, file) == Splice(Flat(mem, table, file), v * PAGE_SIZE + o, b)
    decreases |b|
  {
    if b == [] {
      assert Splice(mem, f * PAGE_SIZE + o, b) == mem;
      assert Splice(Flat(mem, table, file), v * PAGE_SIZE + o, b) == Flat(mem, table, file);
    } else {
      var k := |b| - 1;
      StoreAll(mem, table, used, file, n, f, v, o, b[..k]);
      StoreLast(mem, table, used, file, n, f, v, o, b);
    }
  }

  lemma StoreLast(mem: seq<Byte>, table: seq<Entry>, used: seq<bool>, file: seq<Byte>, n: nat, f: nat, v: nat, o: nat, b: seq<Byte>)
    requires |mem| == MEMORY_SIZE && |file| == n * PAGE_SIZE && |table| == NUM_PHYS_PAGES && f < NUM_PHYS_PAGES && v < n
    requires b != [] && o + |b| <= PAGE_SIZE && f == FrameOf(table, v, NUM_PHYS_PAGES) && table[f].dirty
    requires Ok(Splice(mem, f * PAGE_SIZE + o, b[..|b| - 1]), table, used, file, n)
    requires Flat(Splice(mem, f * PAGE_SIZE + o, b[..|b| - 1]), table, file)
      == Splice(Flat(mem, table, file), v * PAGE_SIZE + o, b[..|b| - 1])
    ensures Ok(Splice(mem, f * PAGE_SIZE + o, b), table, used, file, n)
    ensures Flat(Splice(mem, f * PAGE_SIZE + o, b), table, file) == Splice(Flat(mem, table, file), v * PAGE_SIZE + o, b)
  {
    var p, a, k := f * PAGE_SIZE + o, v * PAGE_SIZE + o, |b| - 1;
    StoreByte(Splice(mem, p, b[..k]), table, used, file, n, f, v, o + k, b[k]);
    SpliceSnoc(mem, p, b, k);
    SpliceSnoc(Flat(mem, table, file), a, b, k);
    assert b[..k + 1] == b;
  }

  // ---------------------------------------------------------------------------
  // A page fault as a change of values

  // Frame p is given to page v; what it held before was written back if it was dirty.
  ghost predicate Replaced(mem: seq<Byte>, table: seq<Entry>, used: seq<bool>, file: seq<Byte>, n: nat, p: nat, v: nat,
                           mem': seq<Byte>, table': seq<Entry>, used': seq<bool>, file': seq<Byte>)
    requires Ok(mem, table, used, file, n) && p < NUM_PHYS_PAGES && v < n
  {
    && |mem'| == MEMORY_SIZE && |file'| == |file|
    && used' == used[p := true]
    && table' == table[p := Entry(v, p, true, false, false, false)]
    && (forall x | 0 <= x < MEMORY_SIZE && x / PAGE_SIZE != p :: mem'[x] == mem[x])
    && (forall k | 0 <= k < PAGE_SIZE :: PageByte(mem', p, k) == PageByte(file, v, k))
    && (forall a | 0 <= a < |file| ::
          file'[a] == if table[p].dirty && a / PAGE_SIZE == table[p].virtualPage
                      then mem[p * PAGE_SIZE + a % PAGE_SIZE] else file[a])
  }

  lemma ReplacedTable(mem: seq<Byte>, table: seq<Entry>, used: seq<bool>, file: seq<Byte>, n: nat, p: nat, v: nat,
                      mem': seq<Byte>, table': seq<Entry>, used': seq<bool>, file': seq<Byte>)
    requires Ok(mem, table, used, file, n) && p < NUM_PHYS_PAGES && v < n
    requires FrameOf(table, v, NUM_PHYS_PAGES) == -1
    requires Replaced(mem, table, used, file, n, p, v, mem', table', used', file')
    ensures TableOk(table', used', n)
    ensures forall w | w != v && w != table[p].virtualPage && w >= 0 ::
      FrameOf(table', w, NUM_PHYS_PAGES) == FrameOf(table, w, NUM_PHYS_PAGES)
    ensures FrameOf(table', v, NUM_PHYS_PAGES) == p
    ensures table[p].virtualPage >= 0 ==> FrameOf(table', table[p].virtualPage, NUM_PHYS_PAGES) == -1
  {
    assert TableOk(table', used', n);
    UniqueFrame(table', used', n, p);
    forall w | w != v && w != table[p].virtualPage && w >= 0
      ensures FrameOf(table', w, NUM_PHYS_PAGES) == FrameOf(table, w, NUM_PHYS_PAGES)
    {
      var g := FrameOf(table, w, NUM_PHYS_PAGES);
      if g >= 0 {
        assert table'[g].virtualPage == w;
        UniqueFrame(table', used', n, g);
      }
    }
  }

  lemma ReplacedClean(mem: seq<Byte>, table: seq<Entry>, used: seq<bool>, file: seq<Byte>, n: nat, p: nat, v: nat,
                      mem': seq<Byte>, table': seq<Entry>, used': seq<bool>, file': seq<Byte>)
    requires Ok(mem, table, used, file, n) && p < NUM_PHYS_PAGES && v < n
    requires FrameOf(table, v, NUM_PHYS_PAGES) == -1
    requires Replaced(mem, table, used, file, n, p, v, mem', table', used', file')
    ensures CleanOk(mem', table', file', n)
  {
    forall i, k | 0 <= i < NUM_PHYS_PAGES && 0 <= k < PAGE_SIZE && table'[i].virtualPage >= 0 && !table'[i].dirty
      ensures PageByte(mem', i, k) == PageByte(file', table'[i].virtualPage, k)
    {
      var w := table'[i].virtualPage;
      assert (w * PAGE_SIZE + k) / PAGE_SIZE == w && (i * PAGE_SIZE + k) / PAGE_SIZE == i;
      if i != p {
        assert table[i].virtualPage == w && w != table[p].virtualPage;
        assert PageByte(mem, i, k) == PageByte(file, w, k);
      } else {
        assert w == v && table[p].virtualPage != v;
        assert PageByte(mem', p, k) == PageByte(file, v, k);
      }
    }
  }

  /** A page fault keeps the invariant and changes no byte of the address space; afterwards the
      page that was missing is in memory. */
  lemma FaultKeepsFlat(mem: seq<Byte>, table: seq<Entry>, used: seq<bool>, file: seq<Byte>, n: nat, p: nat, v: nat,
                       mem': seq<Byte>, table': seq<Entry>, used': seq<bool>, file': seq<Byte>)
    requires Ok(mem, table, used, file, n) && p < NUM_PHYS_PAGES && v < n
    requires FrameOf(table, v, NUM_PHYS_PAGES) == -1
    requires Replaced(mem, table, used, file, n, p, v, mem', table', used', file')
    ensures Ok(mem', table', used', file', n)
    ensures Flat(mem', table', file') == Flat(mem, table, file)
    ensures FrameOf(table', v, NUM_PHYS_PAGES) == p
  {
    ReplacedTable(mem, table, used, file, n, p, v, mem', table', used', file');
    ReplacedClean(mem, table, used, file, n, p, v, mem', table', used', file');
    forall a | 0 <= a < |file| ensures ByteAt(mem', table', file', a) == ByteAt(mem, table, file, a) {
      FaultByte(mem, table, used, file, n, p, v, mem', table', used', file', a);
    }
  }

  lemma FaultByte(mem: seq<Byte>, table: seq<Entry>, used: seq<bool>, file: seq<Byte>, n: nat, p: nat, v: nat,
                  mem': seq<Byte>, table': seq<Entry>, used': seq<bool>, file': seq<Byte>, a: nat)
    requires Ok(mem, table, used, file, n) && p < NUM_PHYS_PAGES && v < n
    requires FrameOf(table, v, NUM_PHYS_PAGES) == -1 && a < |file|
    requires Replaced(mem, table, used, file, n, p, v, mem', table', used', file')
    ensures ByteAt(mem', table', file', a) == ByteAt(mem, table, file, a)
  {
    ReplacedTable(mem, table, used, file, n, p, v, mem', table', used', file');
    var w, k := a / PAGE_SIZE, a % PAGE_SIZE;
    if w == v {
      assert PageByte(mem', p, k) == PageByte(file, v, k);
    } else if w == table[p].virtualPage {
      UniqueFrame(table, used, n, p);
      assert !table[p].dirty ==> PageByte(mem, p, k) == PageByte(file, w, k);
    } else {
      var g := FrameOf(table, w, NUM_PHYS_PAGES);
      if g >= 0 {
        assert g != p && (g * PAGE_SIZE + k) / PAGE_SIZE == g;
      }
    }
  }

  // ---------------------------------------------------------------------------
  // The flat machine that paging should look like

  datatype Access = Load(addr: Int32, size: int) | Store(addr: Int32, size: int, value: Int32)

  datatype Result = Loaded(value: Int32) | Stored | Failed(e: Exception)

  predicate LegalSize(size: int) {
    size == 1 || size == 2 || size == 4
  }

  // Addresses are unsigned when pages are counted.
  function PageOf(addr: Int32): nat {
    Unsigned(addr) / PAGE_SIZE
  }

  predicate BadAddress(addr: Int32, size: int, n: nat) {
    (size == 4 && addr % 4 != 0) || (size == 2 && addr % 2 != 0) || PageOf(addr) >= n
  }

  // The int that ReadMem makes of the bytes: a char, an unsigned short, or an int.
  function Value(b: seq<Byte>): Int32
    requires LegalSize(|b|)
  {
    if |b| == 1 then SignedByte(b[0])
    else if |b| == 2 then var lo: int, hi: int := b[0], b[1]; lo + 256 * hi
    else Decode32(b)
  }

  // The bytes that WriteMem stores.
  function StoredBytes(value: Int32, size: int): (b: seq<Byte>)
    requires LegalSize(size)
    ensures |b| == size
  {
    Encode32(value)[..size]
  }

  predicate Fits(flat: seq<Byte>, addr: Int32, size: int) {
    0 <= addr && addr + size <= |flat|
  }

  lemma GoodAddressFits(flat: seq<Byte>, addr: Int32, size: int, n: nat)
    requires LegalSize(size) && |flat| == n * PAGE_SIZE && n <= NUM_PHYS_PAGES && !BadAddress(addr, size, n)
    ensures Fits(flat, addr, size) && addr / PAGE_SIZE == PageOf(addr) == (addr + size - 1) / PAGE_SIZE
  {
  }

  function FlatStep(flat: seq<Byte>, n: nat, a: Access): (seq<Byte>, Result)
    requires LegalSize(a.size)
  {
    if BadAddress(a.addr, a.size, n) || !Fits(flat, a.addr, a.size) then (flat, Failed(AddressError))
    else match a
      case Load(addr, size) => (flat, Loaded(Value(flat[addr..addr + size])))
      case Store(addr, size, value) => (Splice(flat, addr, StoredBytes(value, size)), Stored)
  }

  /** An access fails exactly when its address is no multiple of its size or some byte of it lies outside the space. */
  lemma FailsIff(flat: seq<Byte>, n: nat, a: Access)
    requires LegalSize(a.size) && |flat| == n * PAGE_SIZE && n <= NUM_PHYS_PAGES
    ensures FlatStep(flat, n, a).1.Failed? <==>
      (a.size == 2 && a.addr % 2 != 0) || (a.size == 4 && a.addr % 4 != 0) || a.addr < 0 || a.addr + a.size > n * PAGE_SIZE
    ensures FlatStep(flat, n, a).1.Failed? ==> FlatStep(flat, n, a) == (flat, Failed(AddressError))
  {
    if !BadAddress(a.addr, a.size, n) {
      GoodAddressFits(flat, a.addr, a.size, n);
    }
  }

  // Byte k of a value in memory, counted from the low end.
  function ByteOf(value: Int32, k: nat): (b: Byte)
    requires k < 4
  {
    var u := Unsigned(value);
    (if k == 0 then u else if k == 1 then u / 0x100 else if k == 2 then u / 0x1_0000 else u / 0x100_0000) % 256
  }

  lemma StoredSplice(flat: seq<Byte>, addr: nat, b: seq<Byte>, k: nat)
    requires addr + |b| <= |flat| && k < |b|
    ensures Splice(flat, addr, b)[addr..addr + |b|] == b
    ensures Splice(flat, addr, b)[addr + k..addr + k + 1] == [b[k]]
  {
  }

  /** On the flat machine a load returns what was last stored at its address: the value itself for a word, its
      low sixteen bits for a short, its low eight as a signed number for a byte. */
  lemma LoadAfterStore(flat: seq<Byte>, n: nat, addr: Int32, size: int, value: Int32)
    requires LegalSize(size) && !BadAddress(addr, size, n) && Fits(flat, addr, size)
    ensures FlatStep(flat, n, Store(addr, size, value)).1 == Stored
    ensures var flat' := FlatStep(flat, n, Store(addr, size, value)).0;
      var (flat'', r) := FlatStep(flat', n, Load(addr, size));
      && flat'' == flat' && r.Loaded?
      && (size == 4 ==> r.value == value)
      && (size == 2 ==> 0 <= r.value < 0x1_0000 && (value - r.value) % 0x1_0000 == 0)
      && (size == 1 ==> -128 <= r.value < 128 && (value - r.value) % 256 == 0)
  {
    StoredSplice(flat, addr, StoredBytes(value, size), 0);
    StoredValue(value, size);
  }

  lemma StoredValue(value: Int32, size: int)
    requires LegalSize(size)
    ensures var v := Value(StoredBytes(value, size));
      && (size == 4 ==> v == value)
      && (size == 2 ==> 0 <= v < 0x1_0000 && (value - v) % 0x1_0000 == 0)
      && (size == 1 ==> -128 <= v < 128 && (value - v) % 256 == 0)
  {
    var u := Unsigned(value);
    SameLow(value);
    if size == 4 {
      assert StoredBytes(value, 4) == Encode32(value);
      RoundTrip32(value);
    } else if size == 2 {
      LowHalf(u);
      assert Value(StoredBytes(value, size)) == u % 0x1_0000;
    } else {
      assert Value(StoredBytes(value, size)) == SignedByte(u % 256);
    }
  }

  lemma SameLow(value: Int32)
    ensures (value - Unsigned(value) % 0x1_0000) % 0x1_0000 == 0
    ensures (value - SignedByte(Unsigned(value) % 256)) % 256 == 0
  {
    var u := Unsigned(value);
    assert u == 0x1_0000 * (u / 0x1_0000) + u % 0x1_0000;
    assert u == 256 * (u / 256) + u % 256;
  }

  lemma LowHalf(u: nat)
    ensures u % 256 + 256 * (u / 256 % 256) == u % 0x1_0000
  {
    var h := u / 256;
    assert u == 256 * h + u % 256 && h == 256 * (h / 256) + h % 256;
    var low := 256 * (h % 256) + u % 256;
    assert u == 0x1_0000 * (h / 256) + low && 0 <= low < 0x1_0000;
  }

  /** Byte order: after a store of any size, the byte at addr + k is byte k of the value, low end first; no other
      byte has changed. */
  lemma ByteAfterStore(flat: seq<Byte>, n: nat, addr: Int32, size: int, value: Int32, k: nat)
    requires LegalSize(size) && |flat| == n * PAGE_SIZE && n <= NUM_PHYS_PAGES && !BadAddress(addr, size, n) && k < size
    ensures var r := FlatStep(FlatStep(flat, n, Store(addr, size, value)).0, n, Load(addr + k, 1)).1;
      r.Loaded? && -128 <= r.value < 128 && (r.value - ByteOf(value, k)) % 256 == 0
    ensures var flat' := FlatStep(flat, n, Store(addr, size, value)).0;
      |flat'| == |flat| && forall a | 0 <= a < |flat| && !(addr <= a < addr + size) :: flat'[a] == flat[a]
  {
    GoodAddressFits(flat, addr, size, n);
    var b := StoredBytes(value, size);
    StoredSplice(flat, addr, b, k);
    EncodedByte(value, k);
  }

  /** A load reads bytes low end first, a byte as a signed and a short as an unsigned number. */
  lemma LoadMeans(flat: seq<Byte>, n: nat, addr: Int32, size: int, k: nat)
    requires LegalSize(size) && !BadAddress(addr, size, n) && Fits(flat, addr, size) && k < size
    ensures var r := FlatStep(flat, n, Load(addr, size)).1;
      && r.Loaded? && ByteOf(r.value, k) == flat[addr + k]
      && (size == 1 ==> -128 <= r.value < 128)
      && (size == 2 ==> 0 <= r.value < 0x1_0000)
  {
    var b := flat[addr..addr + size];
    if size == 4 {
      DecodeEncode32(b);
      EncodedByte(Decode32(b), k);
    }
  }

  lemma EncodedByte(value: Int32, k: nat)
    requires k < 4
    ensures Encode32(value)[k] == ByteOf(value, k)
  {
  }

  function FlatRun(flat: seq<Byte>, n: nat, accesses: seq<Access>): (seq<Byte>, seq<Result>)
    requires forall a | a in accesses :: LegalSize(a.size)
  {
    if accesses == [] then (flat, [])
    else
      var (f1, rs) := FlatRun(flat, n, accesses[..|accesses| - 1]);
      var (f2, r) := FlatStep(f1, n, accesses[|accesses| - 1]);
      (f2, rs + [r])
  }

  // ---------------------------------------------------------------------------
  // The machine

  class Machine {
    const pageTableSize: nat
    const memory: array<Byte>
    const table: array<Entry>
    const frames: array<bool>        // Bitmap::map
    var file: seq<Byte>              // the file "virtual_memory"
    var badVAddr: Int32              // register BAD_VADDR_REG

    ghost predicate Valid()
      reads this, memory, table, frames
    {
      && memory.Length == MEMORY_SIZE && table.Length == frames.Length == NUM_PHYS_PAGES
      && Ok(memory[..], table[..], frames[..], file, pageTableSize)
    }

    ghost function Space(): seq<Byte>
      requires Valid()
      reads this, memory, table, frames
    {
      Flat(memory[..], table[..], file)
    }

    // An address space of numPages pages whose image is in the backing file; `taken` says
    // which frames are in use already.
    constructor (numPages: nat, image: seq<Byte>, taken: seq<bool>)
      requires 1 <= numPages <= NUM_PHYS_PAGES && |image| == numPages * PAGE_SIZE && |taken| == NUM_PHYS_PAGES
      ensures Valid() && Space() == image && pageTableSize == numPages
    {
      pageTableSize := numPages;
      memory := new Byte[MEMORY_SIZE](_ => 0);
      table := new Entry[NUM_PHYS_PAGES](i => Entry(-1, i, false, false, false, false));
      frames := new bool[NUM_PHYS_PAGES](i requires 0 <= i < NUM_PHYS_PAGES => taken[i]);
      file := image;
      badVAddr := 0;
      new;
      forall a | 0 <= a < |image| ensures ByteAt(memory[..], table[..], image, a) == image[a] {
        var f := FrameOf(table[..], a / PAGE_SIZE, NUM_PHYS_PAGES);
        assert f == -1;
      }
    }

    // Bitmap::find
    method FindFrame() returns (out: int)
      requires frames.Length == NUM_PHYS_PAGES
      modifies frames
      ensures -1 <= out < NUM_PHYS_PAGES
      ensures out == -1 ==> frames[..] == old(frames[..]) && forall i | 0 <= i < NUM_PHYS_PAGES :: old(frames[i])
      ensures out >= 0 ==> !old(frames[out]) && frames[..] == old(frames[..])[out := true]
      ensures forall j | 0 <= j < out :: old(frames[j])
    {
      out := -1;
      var i := 0;
      while i < NUM_PHYS_PAGES
        invariant 0 <= i <= NUM_PHYS_PAGES && out == -1
        invariant forall j | 0 <= j < i :: frames[j]
      {
        if !frames[i] {
          out := i;
          break;
        }
        i := i + 1;
      }
      if out == -1 {
        return;
      }
      frames[out] := true;
    }

    method Translate(virtAddr: Int32, size: int, writing: bool) returns (e: Exception, phys: int)
      requires Valid() && LegalSize(size)
      modifies table
      ensures Valid() && Space() == old(Space())
      ensures e == AddressError <==> BadAddress(virtAddr, size, pageTableSize)
      ensures e == PageFault <==>
        !BadAddress(virtAddr, size, pageTableSize) && FrameOf(old(table[..]), PageOf(virtAddr), NUM_PHYS_PAGES) == -1
      ensures e == NoException || e == PageFault || e == AddressError
      ensures forall i | 0 <= i < NUM_PHYS_PAGES :: table[i].virtualPage == old(table[i].virtualPage)
      ensures e == NoException ==>
        && 0 <= phys && phys + size <= MEMORY_SIZE && (writing ==> table[phys / PAGE_SIZE].dirty)
        && phys / PAGE_SIZE == FrameOf(table[..], PageOf(virtAddr), NUM_PHYS_PAGES)
        && phys % PAGE_SIZE == Unsigned(virtAddr) % PAGE_SIZE
    {
      phys := 0;
      if (size == 4 && virtAddr % 4 != 0) || (size == 2 && virtAddr % 2 != 0) {
        return AddressError, phys;
      }
      var vpn := Unsigned(virtAddr) / PAGE_SIZE;
      var offset := Unsigned(virtAddr) % PAGE_SIZE;
      if vpn >= pageTableSize {
        return AddressError, phys;
      }
      var pos := -1;
      var i := 0;
      while i < NUM_PHYS_PAGES
        invariant 0 <= i <= NUM_PHYS_PAGES
        invariant pos == FrameOf(table[..], vpn, i)
      {
        if table[i].virtualPage == vpn {
          pos := i;
        }
        i := i + 1;
      }
      if pos == -1 {
        return PageFault, phys;
      }
      if table[pos].readOnly && writing {
        return ReadOnlyPage, phys;
      }
      var pageFrame := table[pos].physicalPage;
      if pageFrame >= NUM_PHYS_PAGES {
        return BusError, phys;
      }
      MarkUsed(pos, writing);
      phys := pageFrame * PAGE_SIZE + offset;
      assert phys >= 0 && phys + size <= MEMORY_SIZE;
      e := NoException;
    }

    method MarkUsed(pos: nat, writing: bool)
      requires Valid() && pos < NUM_PHYS_PAGES && table[pos].virtualPage >= 0
      modifies table
      ensures Valid() && Space() == old(Space())
      ensures table[..] == old(table[..])[pos := old(table[pos]).(use := true, dirty := writing || old(table[pos].dirty))]
      ensures forall v :: FrameOf(table[..], v, NUM_PHYS_PAGES) == FrameOf(old(table[..]), v, NUM_PHYS_PAGES)
    {
      ghost var t0 := table[..];
      table[pos] := table[pos].(use := true);
      if writing {
        table[pos] := table[pos].(dirty := true);
      }
      assert table[..] == t0[pos := t0[pos].(use := true, dirty := writing || t0[pos].dirty)];
      SameFlat(memory[..], t0, table[..], file);
      forall v ensures FrameOf(table[..], v, NUM_PHYS_PAGES) == FrameOf(t0, v, NUM_PHYS_PAGES) {
        SameFrames(t0, table[..], v, NUM_PHYS_PAGES);
      }
    }

    // Frame 0 is about to be reused: its page goes back to the file if it is dirty.
    method WriteBackFrame0()
      requires Valid()
      modifies this`file, table
      ensures |file| == |old(file)|
      ensures forall a | 0 <= a < |file| ::
        file[a] == if old(table[0].dirty) && a / PAGE_SIZE == old(table[0].virtualPage)
                   then memory[a % PAGE_SIZE] else old(file)[a]
      ensures exists b :: table[..] == old(table[..])[0 := old(table[0]).(valid := b)]
    {
      assert table[..] == table[..][0 := table[0].(valid := table[0].valid)];
      var j := 0;
      while j < pageTableSize
        invariant 0 <= j <= pageTableSize
        invariant table[..] == old(table[..]) && file == old(file)
        invariant j > 0 ==> !table[0].dirty
      {
        if table[j].physicalPage == 0 {
          if table[j].dirty {
            file := Splice(file, table[j].virtualPage * PAGE_SIZE, memory[0..PAGE_SIZE]);
            table[j] := table[j].(valid := false);
            assert table[..] == old(table[..])[0 := old(table[0]).(valid := false)];
            break;
          }
        }
        j := j + 1;
      }
    }

    method LoadPage(pos: nat, vpn: nat)
      requires memory.Length == MEMORY_SIZE && table.Length == NUM_PHYS_PAGES
      requires pos < NUM_PHYS_PAGES && (vpn + 1) * PAGE_SIZE <= |file|
      modifies memory, table
      ensures table[..] == old(table[..])[pos := Entry(vpn, old(table[pos].physicalPage), true, false, false, false)]
      ensures forall x | 0 <= x < MEMORY_SIZE && x / PAGE_SIZE != pos :: memory[..][x] == old(memory[..])[x]
      ensures forall k | 0 <= k < PAGE_SIZE :: PageByte(memory[..], pos, k) == PageByte(file, vpn, k)
    {
      forall k | 0 <= k < PAGE_SIZE {
        memory[pos * PAGE_SIZE + k] := file[vpn * PAGE_SIZE + k];
      }
      table[pos] := table[pos].(valid := true);
      table[pos] := table[pos].(virtualPage := vpn);
      table[pos] := table[pos].(use := false);
      table[pos] := table[pos].(dirty := false);
      table[pos] := table[pos].(readOnly := false);
    }

    // ExceptionHandler(PageFaultException)
    method HandlePageFault()
      requires Valid() && PageOf(badVAddr) < pageTableSize
      requires FrameOf(table[..], PageOf(badVAddr), NUM_PHYS_PAGES) == -1
      modifies this`file, memory, table, frames
      ensures Valid() && Space() == old(Space())
      ensures FrameOf(table[..], PageOf(badVAddr), NUM_PHYS_PAGES) >= 0
    {
      ghost var mem0, table0, used0, file0 := memory[..], table[..], frames[..], file;
      var vpn := Unsigned(badVAddr) / PAGE_SIZE;
      var pos := FindFrame();
      if pos == -1 {
        pos := 0;
        assert used0 == used0[0 := true];
        WriteBackFrame0();
        LoadPage(pos, vpn);
        assert table[..] == table0[pos := Entry(vpn, pos, true, false, false, false)];
        assert forall k | 0 <= k < PAGE_SIZE ::
          PageByte(file, vpn, k) == PageByte(file0, vpn, k) && (vpn * PAGE_SIZE + k) / PAGE_SIZE == vpn;
      } else {
        LoadPage(pos, vpn);
      }
      FaultKeepsFlat(mem0, table0, used0, file0, pageTableSize, pos, vpn, memory[..], table[..], frames[..], file);
    }

    // Translation failed: RaiseException calls the handler, which resolves page faults.
    method RaiseException(e: Exception, addr: Int32)
      requires Valid()
      requires e == PageFault ==> PageOf(addr) < pageTableSize && FrameOf(table[..], PageOf(addr), NUM_PHYS_PAGES) == -1
      modifies this`file, this`badVAddr, memory, table, frames
      ensures Valid() && Space() == old(Space())
      ensures e == PageFault ==> FrameOf(table[..], PageOf(addr), NUM_PHYS_PAGES) >= 0
    {
      badVAddr := addr;
      if e == PageFault {
        HandlePageFault();
      }
    }

    method ReadMem(addr: Int32, size: int) returns (e: Exception, value: Int32)
      requires Valid() && LegalSize(size)
      modifies this`file, this`badVAddr, memory, table, frames
      ensures Valid() && Space() == old(Space())
      ensures e == AddressError <==> BadAddress(addr, size, pageTableSize)
      ensures e == NoException || e == PageFault || e == AddressError
      ensures e == PageFault ==> FrameOf(table[..], PageOf(addr), NUM_PHYS_PAGES) >= 0
      ensures old(FrameOf(table[..], PageOf(addr), NUM_PHYS_PAGES) >= 0) ==> e != PageFault
      ensures e == NoException ==> Fits(Space(), addr, size) && value == Value(Space()[addr..addr + size])
    {
      value := 0;
      var phys;
      e, phys := Translate(addr, size, false);
      if e != NoException {
        RaiseException(e, addr);
        return;
      }
      SamePage(addr, size, phys);
      value := Value(memory[phys..phys + size]);
    }

    lemma SamePage(addr: Int32, size: int, phys: nat)
      requires Valid() && LegalSize(size) && !BadAddress(addr, size, pageTableSize) && phys + size <= MEMORY_SIZE
      requires phys / PAGE_SIZE == FrameOf(table[..], PageOf(addr), NUM_PHYS_PAGES)
      requires phys % PAGE_SIZE == Unsigned(addr) % PAGE_SIZE
      ensures Fits(Space(), addr, size)
      ensures memory[phys..phys + size] == Space()[addr..addr + size]
    {
      GoodAddressFits(Space(), addr, size, pageTableSize);
      var got, want := memory[phys..phys + size], Space()[addr..addr + size];
      forall k | 0 <= k < size ensures got[k] == want[k] {
        assert (addr + k) / PAGE_SIZE == addr / PAGE_SIZE && (addr + k) % PAGE_SIZE == addr % PAGE_SIZE + k;
      }
    }

    method WriteMem(addr: Int32, size: int, value: Int32) returns (e: Exception)
      requires Valid() && LegalSize(size)
      modifies this`file, this`badVAddr, memory, table, frames
      ensures Valid()
      ensures e == AddressError <==> BadAddress(addr, size, pageTableSize)
      ensures e == NoException || e == PageFault || e == AddressError
      ensures e == PageFault ==> FrameOf(table[..], PageOf(addr), NUM_PHYS_PAGES) >= 0
      ensures old(FrameOf(table[..], PageOf(addr), NUM_PHYS_PAGES) >= 0) ==> e != PageFault
      ensures e != NoException ==> Space() == old(Space())
      ensures e == NoException ==>
        Fits(old(Space()), addr, size) && Space() == Splice(old(Space()), addr, StoredBytes(value, size))
    {
      var phys;
      e, phys := Translate(addr, size, true);
      if e != NoException {
        RaiseException(e, addr);
        return;
      }
      StoreBytes(phys, addr, StoredBytes(value, size));
    }

    // The bytes of one store, all within one dirty page.
    method StoreBytes(phys: nat, addr: Int32, bytes: seq<Byte>)
      requires Valid() && LegalSize(|bytes|) && !BadAddress(addr, |bytes|, pageTableSize) && phys + |bytes| <= MEMORY_SIZE
      requires phys / PAGE_SIZE == FrameOf(table[..], PageOf(addr), NUM_PHYS_PAGES) && table[phys / PAGE_SIZE].dirty
      requires phys % PAGE_SIZE == Unsigned(addr) % PAGE_SIZE
      modifies memory
      ensures Valid() && Fits(old(Space()), addr, |bytes|) && Space() == Splice(old(Space()), addr, bytes)
    {
      ghost var mem := memory[..];
      GoodAddressFits(Space(), addr, |bytes|, pageTableSize);
      StoreAll(mem, table[..], frames[..], file, pageTableSize, phys / PAGE_SIZE, addr / PAGE_SIZE, addr % PAGE_SIZE, bytes);
      CopyIn(phys, bytes);
    }

    method CopyIn(phys: nat, bytes: seq<Byte>)
      requires phys + |bytes| <= memory.Length
      modifies memory
      ensures memory[..] == Splice(old(memory[..]), phys, bytes)
    {
      ghost var mem := memory[..];
      var k := 0;
      while k < |bytes|
        invariant 0 <= k <= |bytes|
        invariant memory[..] == Splice(mem, phys, bytes[..k])
      {
        SpliceSnoc(mem, phys, bytes, k);
        memory[phys + k] := bytes[k];
        k := k + 1;
      }
      assert bytes[..|bytes|] == bytes;
    }

    // One load or store of the user program: after a page fault the instruction is run again.
    method Perform(a: Access) returns (r: Result)
      requires Valid() && LegalSize(a.size)
      modifies this`file, this`badVAddr, memory, table, frames
      ensures Valid() && (Space(), r) == FlatStep(old(Space()), pageTableSize, a)
    {
      GoodAddress(a.addr, a.size);
      var e, value := NoException, 0;
      match a {
        case Load(addr, size) =>
          e, value := ReadMem(addr, size);
          if e == PageFault {
            e, value := ReadMem(addr, size);
          }
          r := if e == NoException then Loaded(value) else Failed(e);
        case Store(addr, size, v) =>
          e := WriteMem(addr, size, v);
          if e == PageFault {
            e := WriteMem(addr, size, v);
          }
          r := if e == NoException then Stored else Failed(e);
      }
    }

    lemma GoodAddress(addr: Int32, size: int)
      requires Valid() && LegalSize(size)
      ensures !BadAddress(addr, size, pageTableSize) ==> Fits(Space(), addr, size)
    {
      if !BadAddress(addr, size, pageTableSize) {
        GoodAddressFits(Space(), addr, size, pageTableSize);
      }
    }

    /** Paging refines a flat byte array: for every sequence of loads and stores, whatever faults
        and evictions it causes, the results and the final contents are those of the flat
        machine. */
    method Execute(accesses: seq<Access>) returns (results: seq<Result>)
      requires Valid() && forall a | a in accesses :: LegalSize(a.size)
      modifies this`file, this`badVAddr, memory, table, frames
      ensures Valid() && (Space(), results) == FlatRun(old(Space()), pageTableSize, accesses)
    {
      results := [];
      var i := 0;
      assert accesses[..0] == [];
      while i < |accesses|
        invariant 0 <= i <= |accesses| && Valid()
        invariant (Space(), results) == FlatRun(old(Space()), pageTableSize, accesses[..i])
      {
        var r := Perform(accesses[i]);
        assert accesses[..i + 1][..i] == accesses[..i];
        results := results + [r];
        i := i + 1;
      }
      assert accesses[..|accesses|] == accesses;
    }
  }
}
