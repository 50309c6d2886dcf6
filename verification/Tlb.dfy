/** The software-loaded TLB (machine/translate.cc, TLB branch; userprog/exception.cc, TLB
    refill), over a linear page table whose entry v describes page v.

    A hit sets the counter of the entry to 0 and increments the counters of all other entries;
    a refill increments the counters of the valid entries and fills a free entry or else the
    one with the largest counter.  The class is compared with a list of pages kept in order of
    their last use. */
module Tlb {
  import opened Basics
  import opened Bytes

  const TLB_SIZE := 4

  datatype Entry = Entry(valid: bool, virtualPage: int, physicalPage: int, readOnly: bool, use: bool, dirty: bool, cnt: int)

  datatype PageEntry = PageEntry(virtualPage: int, physicalPage: int, readOnly: bool)

  // ---------------------------------------------------------------------------
  // Least-recently-used caches of pages, most recent page first

  function Remove(r: seq<int>, p: int): seq<int> {
    if r == [] then [] else if r[0] == p then r[1..] else [r[0]] + Remove(r[1..], p)
  }

  // All pages in order of their last use.
  function Recency(refs: seq<int>): seq<int> {
    if refs == [] then []
    else var p := refs[|refs| - 1]; [p] + Remove(Recency(refs[..|refs| - 1]), p)
  }

  // A cache of TLB_SIZE pages: a page in it moves to the front, a new one pushes out the last.
  function LruTouch(r: seq<int>, p: int): seq<int> {
    if p in r then [p] + Remove(r, p)
    else if |r| < TLB_SIZE then [p] + r
    else [p] + r[..TLB_SIZE - 1]
  }

  function LruRun(refs: seq<int>): seq<int> {
    if refs == [] then [] else LruTouch(LruRun(refs[..|refs| - 1]), refs[|refs| - 1])
  }

  function Top(r: seq<int>): seq<int> {
    if |r| <= TLB_SIZE then r else r[..TLB_SIZE]
  }

  lemma {:induction false} RemoveFacts(r: seq<int>, p: int)
    ensures p !in r ==> Remove(r, p) == r
    ensures p in r ==> |Remove(r, p)| == |r| - 1
    ensures forall x | x != p :: x in Remove(r, p) <==> x in r
    ensures Distinct(r) ==> Distinct(Remove(r, p)) && p !in Remove(r, p)
    decreases |r|
  {
    if r != [] {
      RemoveFacts(r[1..], p);
      if r[0] != p && Distinct(r) {
        assert r[0] !in r[1..];
        assert Distinct(r[1..]);
      }
    }
  }

  // Removing p from a long list and cutting it, or cutting first, is the same, except that the
  // cut list must not lose a page when p lies beyond the cut.
  lemma {:induction false} RemovePrefix(r: seq<int>, p: int, k: nat)
    requires k <= |r|
    ensures p in r[..k] ==> |Remove(r, p)| >= k - 1 && Remove(r, p)[..k - 1] == Remove(r[..k], p)
    ensures p !in r[..k] ==> |Remove(r, p)| >= k - 1 && (k > 0 ==> Remove(r, p)[..k - 1] == r[..k - 1])
    decreases |r|
  {
    if r != [] && k > 0 && r[0] != p {
      RemovePrefix(r[1..], p, k - 1);
      assert r[..k][1..] == r[1..][..k - 1];
      assert r[..k] == [r[0]] + r[1..][..k - 1];
      RemoveFacts(r[..k], p);
      RemoveFacts(r, p);
      if p in r[..k] {
        assert p in r[1..][..k - 1];
        assert k >= 2;
        assert Remove(r, p)[..k - 1] == [r[0]] + Remove(r[1..], p)[..k - 2];
      } else if k >= 2 {
        assert Remove(r, p)[..k - 1] == [r[0]] + Remove(r[1..], p)[..k - 2];
        assert r[..k - 1] == [r[0]] + r[1..][..k - 2];
      }
    } else if k > 0 {
      assert p in r[..k];
      assert r[..k][1..] == r[1..][..k - 1];
    }
  }

  lemma {:induction false} RecencyDistinct(refs: seq<int>)
    ensures Distinct(Recency(refs))
    ensures forall p :: p in Recency(refs) <==> p in refs
  {
    if refs != [] {
      var front, p := refs[..|refs| - 1], refs[|refs| - 1];
      RecencyDistinct(front);
      RemoveFacts(Recency(front), p);
      assert refs == front + [p];
    }
  }

  /** The cache holds exactly the TLB_SIZE most recently used pages, in order of last use. */
  lemma {:induction false} LruKeepsMostRecent(refs: seq<int>)
    ensures LruRun(refs) == Top(Recency(refs))
  {
    if refs != [] {
      var front, p := refs[..|refs| - 1], refs[|refs| - 1];
      LruKeepsMostRecent(front);
      RecencyDistinct(front);
      TouchTop(Recency(front), p);
    }
  }

  lemma TouchTop(r: seq<int>, p: int)
    requires Distinct(r)
    ensures LruTouch(Top(r), p) == Top([p] + Remove(r, p))
  {
    RemoveFacts(r, p);
    if |r| > TLB_SIZE {
      TouchCut(r, p);
    }
  }

  lemma TouchCut(r: seq<int>, p: int)
    requires |r| > TLB_SIZE
    ensures LruTouch(r[..TLB_SIZE], p) == Top([p] + Remove(r, p))
  {
    var c := r[..TLB_SIZE];
    RemoveFacts(r, p);
    RemoveFacts(c, p);
    RemovePrefix(r, p, TLB_SIZE);
    assert Top([p] + Remove(r, p)) == [p] + Remove(r, p)[..TLB_SIZE - 1];
    if p !in c {
      assert c[..TLB_SIZE - 1] == r[..TLB_SIZE - 1];
    }
  }

  // ---------------------------------------------------------------------------
  // Counters and recency, on values

  ghost predicate Agrees(e: Entry, table: seq<PageEntry>) {
    && 0 <= e.virtualPage < |table| && e.cnt >= 0
    && e.physicalPage == table[e.virtualPage].physicalPage && e.readOnly == table[e.virtualPage].readOnly
  }

  ghost predicate EntriesOk(t: seq<Entry>, table: seq<PageEntry>) {
    && |t| == TLB_SIZE
    && (forall i | 0 <= i < TLB_SIZE && t[i].valid :: Agrees(t[i], table))
    && (forall i, j | 0 <= i < j < TLB_SIZE && t[i].valid && t[j].valid :: t[i].virtualPage != t[j].virtualPage)
  }

  ghost predicate ListsSlots(t: seq<Entry>, order: seq<int>) {
    && |t| == TLB_SIZE && Distinct(order)
    && (forall k | 0 <= k < |order| :: 0 <= order[k] < TLB_SIZE)
    && (forall i | 0 <= i < TLB_SIZE :: t[i].valid <==> i in order)
  }

  ghost predicate Increasing(t: seq<Entry>, order: seq<int>) {
    && (forall k | 0 <= k < |order| :: 0 <= order[k] < |t|)
    && (forall j, k | 0 <= j < k < |order| :: t[order[j]].cnt < t[order[k]].cnt)
  }

  // `order` lists the valid slots from the most to the least recently used.
  ghost predicate Ordered(t: seq<Entry>, table: seq<PageEntry>, order: seq<int>) {
    EntriesOk(t, table) && ListsSlots(t, order) && Increasing(t, order)
  }

  ghost function Pages(t: seq<Entry>, order: seq<int>): seq<int>
    requires forall k | 0 <= k < |order| :: 0 <= order[k] < |t|
  {
    seq(|order|, k requires 0 <= k < |order| => t[order[k]].virtualPage)
  }

  lemma OrderSize(t: seq<Entry>, table: seq<PageEntry>, order: seq<int>)
    requires Ordered(t, table, order)
    ensures |order| <= TLB_SIZE
    ensures |order| == TLB_SIZE <==> t[0].valid && t[1].valid && t[2].valid && t[3].valid
  {
    DistinctSize(order);
    var all := {0, 1, 2, 3};
    SubsetSize((set i | i in order), all);
    if (set i | i in order) == all {
      assert 0 in order && 1 in order && 2 in order && 3 in order;
    }
  }

  lemma SubsetSize(a: set<int>, b: set<int>)
    requires a <= b
    ensures |a| <= |b| && (|a| == |b| <==> a == b)
  {
    assert b == a + (b - a);
    assert |b| == |a| + |b - a|;
  }

  // A page is cached exactly when a valid slot holds it.
  lemma PagesMember(t: seq<Entry>, table: seq<PageEntry>, order: seq<int>, p: int)
    requires Ordered(t, table, order)
    ensures p in Pages(t, order) <==> exists i :: 0 <= i < TLB_SIZE && t[i].valid && t[i].virtualPage == p
  {
    if i :| 0 <= i < TLB_SIZE && t[i].valid && t[i].virtualPage == p {
      var k :| 0 <= k < |order| && order[k] == i;
      assert Pages(t, order)[k] == p;
    }
  }

  lemma {:induction false} PagesRemove(t: seq<Entry>, order: seq<int>, i: int)
    requires forall k | 0 <= k < |order| :: 0 <= order[k] < |t|
    requires 0 <= i < |t| && forall k | 0 <= k < |order| && order[k] != i :: t[order[k]].virtualPage != t[i].virtualPage
    ensures forall k | 0 <= k < |Remove(order, i)| :: 0 <= Remove(order, i)[k] < |t|
    ensures Pages(t, Remove(order, i)) == Remove(Pages(t, order), t[i].virtualPage)
    decreases |order|
  {
    if order != [] {
      var rest := order[1..];
      PagesRemove(t, rest, i);
      assert Pages(t, order) == [t[order[0]].virtualPage] + Pages(t, rest);
      assert Pages(t, order)[1..] == Pages(t, rest);
      if order[0] != i {
        var r := Remove(rest, i);
        assert Remove(order, i) == [order[0]] + r;
        assert Pages(t, [order[0]] + r) == [t[order[0]].virtualPage] + Pages(t, r);
      }
    }
  }

  // Slots in an order keep their relative places when one is removed.
  lemma {:induction false} RemoveKeepsOrder(t: seq<Entry>, order: seq<int>, i: int)
    requires Increasing(t, order)
    ensures Increasing(t, Remove(order, i))
    ensures forall x | x in Remove(order, i) :: x in order
    decreases |order|
  {
    if order != [] {
      RemoveKeepsOrder(t, order[1..], i);
      var r := Remove(order[1..], i);
      forall k | 0 <= k < |r| ensures t[order[0]].cnt < t[r[k]].cnt {
        assert r[k] in r;
        assert r[k] in order[1..];
      }
    }
  }

  // What a hit on slot f does to the counters.
  function HitCounters(t: seq<Entry>, f: int): (r: seq<Entry>)
    ensures |r| == |t|
    ensures forall i | 0 <= i < |t| :: r[i] == t[i].(cnt := if i == f then 0 else t[i].cnt + 1)
  {
    seq(|t|, i requires 0 <= i < |t| => t[i].(cnt := if i == f then 0 else t[i].cnt + 1))
  }

  // Putting slot f, with counter 0, in front of slots whose counters went up.
  lemma PushIncreasing(t: seq<Entry>, t': seq<Entry>, order: seq<int>, f: int)
    requires |t'| == |t| && 0 <= f < |t| && Increasing(t, order) && f !in order && t'[f].cnt == 0
    requires forall i | 0 <= i < |t| && i in order :: t[i].cnt >= 0 && t'[i].cnt == t[i].cnt + 1
    ensures Increasing(t', [f] + order)
  {
    assert forall k | 0 <= k < |order| :: order[k] in order;
  }

  lemma HitOrder(t: seq<Entry>, table: seq<PageEntry>, order: seq<int>, f: int)
    requires Ordered(t, table, order) && 0 <= f < TLB_SIZE && t[f].valid
    ensures Ordered(HitCounters(t, f), table, [f] + Remove(order, f))
  {
    HitIncreasing(t, table, order, f);
    HitSlots(t, order, f);
  }

  lemma HitIncreasing(t: seq<Entry>, table: seq<PageEntry>, order: seq<int>, f: int)
    requires Ordered(t, table, order) && 0 <= f < TLB_SIZE && t[f].valid
    ensures Increasing(HitCounters(t, f), [f] + Remove(order, f))
  {
    var t', r := HitCounters(t, f), Remove(order, f);
    RemoveFacts(order, f);
    RemoveKeepsOrder(t, order, f);
    assert forall i | 0 <= i < TLB_SIZE && i in r :: t[i].valid;
    PushIncreasing(t, t', r, f);
  }

  lemma HitSlots(t: seq<Entry>, order: seq<int>, f: int)
    requires ListsSlots(t, order) && 0 <= f < TLB_SIZE && t[f].valid
    ensures ListsSlots(HitCounters(t, f), [f] + Remove(order, f))
  {
    var t', r := HitCounters(t, f), Remove(order, f);
    RemoveFacts(order, f);
    assert f in order;
    forall k | 0 <= k < |r| ensures 0 <= r[k] < TLB_SIZE {
      assert r[k] in r && r[k] in order;
    }
    forall i | 0 <= i < TLB_SIZE ensures t'[i].valid <==> i in [f] + r {
      assert t[i].valid <==> i in order;
    }
  }

  lemma HitPages(t: seq<Entry>, order: seq<int>, f: int)
    requires forall k | 0 <= k < |order| :: 0 <= order[k] < |t|
    requires 0 <= f < |t| && f in order
    requires forall k | 0 <= k < |order| && order[k] != f :: t[order[k]].virtualPage != t[f].virtualPage
    ensures forall k | 0 <= k < |[f] + Remove(order, f)| :: 0 <= ([f] + Remove(order, f))[k] < |t|
    ensures Pages(HitCounters(t, f), [f] + Remove(order, f)) == LruTouch(Pages(t, order), t[f].virtualPage)
  {
    PagesRemove(t, order, f);
    var k :| 0 <= k < |order| && order[k] == f;
    assert Pages(t, order)[k] == t[f].virtualPage;
    HitPagesCons(t, Remove(order, f), f);
  }

  lemma HitPagesCons(t: seq<Entry>, r: seq<int>, f: int)
    requires 0 <= f < |t| && forall k | 0 <= k < |r| :: 0 <= r[k] < |t|
    ensures forall k | 0 <= k < |[f] + r| :: 0 <= ([f] + r)[k] < |t|
    ensures Pages(HitCounters(t, f), [f] + r) == [t[f].virtualPage] + Pages(t, r)
  {
  }

  // A page that no slot of the list holds.
  lemma NotCached(t: seq<Entry>, table: seq<PageEntry>, order: seq<int>, p: int)
    requires Ordered(t, table, order) && p !in Pages(t, order)
    ensures forall i | 0 <= i < TLB_SIZE && t[i].valid :: t[i].virtualPage != p
  {
    PagesMember(t, table, order, p);
  }

  lemma RefillEntries(t: seq<Entry>, table: seq<PageEntry>, f: int, p: int)
    requires EntriesOk(t, table) && 0 <= f < TLB_SIZE && 0 <= p < |table|
    requires forall i | 0 <= i < TLB_SIZE && t[i].valid :: t[i].virtualPage != p
    ensures EntriesOk(RefillCounters(t)[f := Filled(p, table[p])], table)
  {
  }

  // What a refill does: the counters of the valid slots go up, then slot f gets the page.
  function RefillCounters(t: seq<Entry>): (r: seq<Entry>)
    ensures |r| == |t|
    ensures forall i | 0 <= i < |t| :: r[i] == if t[i].valid then t[i].(cnt := t[i].cnt + 1) else t[i]
  {
    seq(|t|, i requires 0 <= i < |t| => if t[i].valid then t[i].(cnt := t[i].cnt + 1) else t[i])
  }

  function Filled(p: int, e: PageEntry): Entry {
    Entry(true, p, e.physicalPage, e.readOnly, false, false, 0)
  }

  lemma FreeSlotOrder(t: seq<Entry>, table: seq<PageEntry>, order: seq<int>, f: int, p: int)
    requires Ordered(t, table, order) && 0 <= f < TLB_SIZE && !t[f].valid && 0 <= p < |table|
    requires p !in Pages(t, order)
    ensures Ordered(RefillCounters(t)[f := Filled(p, table[p])], table, [f] + order)
  {
    NotCached(t, table, order, p);
    RefillEntries(t, table, f, p);
    PushIncreasing(t, RefillCounters(t)[f := Filled(p, table[p])], order, f);
  }

  lemma FreeSlotPages(t: seq<Entry>, order: seq<int>, f: int, p: int, e: PageEntry)
    requires forall k | 0 <= k < |order| :: 0 <= order[k] < |t| && order[k] != f
    requires 0 <= f < |t| && |order| < TLB_SIZE && p !in Pages(t, order)
    ensures Pages(RefillCounters(t)[f := Filled(p, e)], [f] + order) == LruTouch(Pages(t, order), p)
  {
    assert Pages(RefillCounters(t)[f := Filled(p, e)], [f] + order) == [p] + Pages(t, order);
  }

  lemma VictimSlots(t: seq<Entry>, t': seq<Entry>, order: seq<int>)
    requires ListsSlots(t, order) && |order| == TLB_SIZE && |t'| == TLB_SIZE
    requires forall i | 0 <= i < TLB_SIZE :: t[i].valid && t'[i].valid
    ensures ListsSlots(t', [order[3]] + order[..3])
  {
    forall i | 0 <= i < TLB_SIZE ensures i in [order[3]] + order[..3] {
      assert i in order;
    }
  }

  lemma VictimOrder(t: seq<Entry>, table: seq<PageEntry>, order: seq<int>, f: int, p: int)
    requires Ordered(t, table, order) && |order| == TLB_SIZE && f == order[3]
    requires 0 <= p < |table| && p !in Pages(t, order)
    ensures Ordered(RefillCounters(t)[f := Filled(p, table[p])], table, [f] + order[..3])
  {
    var t' := RefillCounters(t)[f := Filled(p, table[p])];
    NotCached(t, table, order, p);
    RefillEntries(t, table, f, p);
    OrderSize(t, table, order);
    VictimSlots(t, t', order);
    VictimIncreasing(t, t', order);
  }

  lemma VictimIncreasing(t: seq<Entry>, t': seq<Entry>, order: seq<int>)
    requires Increasing(t, order) && |order| == TLB_SIZE && Distinct(order) && |t'| == |t|
    requires t'[order[3]].cnt == 0
    requires forall i | 0 <= i < |t| && i != order[3] :: t[i].cnt >= 0 && t'[i].cnt == t[i].cnt + 1
    ensures Increasing(t', [order[3]] + order[..3])
  {
    PushIncreasing(t, t', order[..3], order[3]);
  }

  lemma VictimPages(t: seq<Entry>, order: seq<int>, f: int, p: int, e: PageEntry)
    requires forall k | 0 <= k < |order| :: 0 <= order[k] < |t|
    requires Distinct(order) && |order| == TLB_SIZE && f == order[3] && p !in Pages(t, order)
    ensures Pages(RefillCounters(t)[f := Filled(p, e)], [f] + order[..3]) == LruTouch(Pages(t, order), p)
  {
    assert Pages(RefillCounters(t)[f := Filled(p, e)], [f] + order[..3]) == [p] + Pages(t, order)[..3];
  }

  // ---------------------------------------------------------------------------
  // The machine

  // Where the page table puts an address.
  function Physical(table: seq<PageEntry>, a: Int32): int
    requires Unsigned(a) / PAGE_SIZE < |table|
  {
    table[Unsigned(a) / PAGE_SIZE].physicalPage * PAGE_SIZE + Unsigned(a) % PAGE_SIZE
  }

  /** The frame is the page table's and the offset is kept; so where the table gives no two pages one frame, no two
      addresses share a physical one. */
  lemma PhysicalKeepsOffset(table: seq<PageEntry>, a: Int32, b: Int32)
    requires Unsigned(a) / PAGE_SIZE < |table| && Unsigned(b) / PAGE_SIZE < |table|
    ensures Physical(table, a) / PAGE_SIZE == table[Unsigned(a) / PAGE_SIZE].physicalPage
    ensures Physical(table, a) % PAGE_SIZE == a % PAGE_SIZE
    ensures (forall v, w :: 0 <= v < w < |table| ==> table[v].physicalPage != table[w].physicalPage) ==>
      (Physical(table, a) == Physical(table, b) <==> a == b)
  {
    assert Unsigned(a) % PAGE_SIZE == a % PAGE_SIZE && Unsigned(b) % PAGE_SIZE == b % PAGE_SIZE;
    if Physical(table, a) == Physical(table, b) {
      assert table[Unsigned(a) / PAGE_SIZE].physicalPage == table[Unsigned(b) / PAGE_SIZE].physicalPage;
    }
  }

  class Mmu {
    const tlb: array<Entry>
    const pageTable: seq<PageEntry>
    var TLBhit: nat
    var TLBmiss: nat
    ghost var order: seq<int>

    ghost predicate Valid()
      reads this, tlb
    {
      && tlb.Length == TLB_SIZE && Ordered(tlb[..], pageTable, order)
      && (forall v | 0 <= v < |pageTable| :: pageTable[v].virtualPage == v)
    }

    // The cached pages, most recently used first.
    ghost function Cached(): seq<int>
      requires Valid()
      reads this, tlb
    {
      Pages(tlb[..], order)
    }

    constructor (table: seq<PageEntry>)
      requires forall v | 0 <= v < |table| :: table[v].virtualPage == v
      ensures Valid() && Cached() == [] && pageTable == table
    {
      tlb := new Entry[TLB_SIZE](_ => Entry(false, 0, 0, false, false, false, 0));
      pageTable := table;
      TLBhit, TLBmiss := 0, 0;
      order := [];
    }

    // Machine::Translate, with a TLB.
    method Translate(virtAddr: Int32, size: int, writing: bool) returns (e: Exception, phys: int)
      requires Valid()
      modifies tlb, this`TLBhit, this`TLBmiss, this`order
      ensures Valid()
      ensures var p := Unsigned(virtAddr) / PAGE_SIZE;
        if (size == 4 && virtAddr % 4 != 0) || (size == 2 && virtAddr % 2 != 0) then
          e == AddressError && Cached() == old(Cached()) && TLBhit == old(TLBhit) && TLBmiss == old(TLBmiss)
        else if p !in old(Cached()) then
          e == PageFault && Cached() == old(Cached()) && TLBhit == old(TLBhit) && TLBmiss == old(TLBmiss) + 1
        else
          && Cached() == LruTouch(old(Cached()), p) && TLBhit == old(TLBhit) + 1 && TLBmiss == old(TLBmiss) && 0 <= p < |pageTable|
          && e == (if pageTable[p].readOnly && writing then ReadOnlyPage
                   else if 0 <= pageTable[p].physicalPage < NUM_PHYS_PAGES then NoException else BusError)
          && (e == NoException ==> phys == Physical(pageTable, virtAddr))
    {
      phys := 0;
      if (size == 4 && virtAddr % 4 != 0) || (size == 2 && virtAddr % 2 != 0) {
        return AddressError, phys;
      }
      var vpn := Unsigned(virtAddr) / PAGE_SIZE;
      var find := Lookup(vpn);
      if find == -1 {
        TLBmiss := TLBmiss + 1;
        return PageFault, phys;
      }
      e, phys := Hit(find, virtAddr, writing);
    }

    method Lookup(vpn: int) returns (find: int)
      requires Valid()
      ensures -1 <= find < TLB_SIZE && (find == -1 <==> vpn !in Cached())
      ensures find >= 0 ==> tlb[find].valid && tlb[find].virtualPage == vpn
    {
      find := Find(vpn);
      PagesMember(tlb[..], pageTable, order, vpn);
      if find >= 0 {
        assert tlb[..][find].valid;
      }
    }

    method Hit(find: int, virtAddr: Int32, writing: bool) returns (e: Exception, phys: int)
      requires Valid() && 0 <= find < TLB_SIZE && tlb[find].valid
      requires tlb[find].virtualPage == Unsigned(virtAddr) / PAGE_SIZE
      modifies tlb, this`TLBhit, this`order
      ensures Valid() && TLBhit == old(TLBhit) + 1 && Unsigned(virtAddr) / PAGE_SIZE < |pageTable|
      ensures Cached() == LruTouch(old(Cached()), Unsigned(virtAddr) / PAGE_SIZE)
      ensures var entry := pageTable[Unsigned(virtAddr) / PAGE_SIZE];
        e == (if entry.readOnly && writing then ReadOnlyPage
              else if 0 <= entry.physicalPage < NUM_PHYS_PAGES then NoException else BusError)
      ensures e == NoException ==> phys == Physical(pageTable, virtAddr)
    {
      TLBhit := TLBhit + 1;
      Count(find);
      e, phys := UseEntry(find, virtAddr, writing);
    }

    // The checks and updates on the entry that was found.
    method UseEntry(find: int, virtAddr: Int32, writing: bool) returns (e: Exception, phys: int)
      requires Valid() && 0 <= find < TLB_SIZE && tlb[find].valid
      requires tlb[find].virtualPage == Unsigned(virtAddr) / PAGE_SIZE
      modifies tlb
      ensures Valid() && Cached() == old(Cached()) && Unsigned(virtAddr) / PAGE_SIZE < |pageTable|
      ensures var entry := pageTable[Unsigned(virtAddr) / PAGE_SIZE];
        e == (if entry.readOnly && writing then ReadOnlyPage
              else if 0 <= entry.physicalPage < NUM_PHYS_PAGES then NoException else BusError)
      ensures e == NoException ==> phys == Physical(pageTable, virtAddr)
      ensures tlb[..] == if e != NoException then old(tlb[..])
        else old(tlb[..])[find := old(tlb[find]).(use := true, dirty := writing || old(tlb[find].dirty))]
    {
      phys := 0;
      var offset := Unsigned(virtAddr) % PAGE_SIZE;
      assert Agrees(tlb[..][find], pageTable);
      if tlb[find].readOnly && writing {
        return ReadOnlyPage, phys;
      }
      var pageFrame := tlb[find].physicalPage;
      if !(0 <= pageFrame < NUM_PHYS_PAGES) {
        return BusError, phys;
      }
      MarkUsed(find, writing);
      phys := pageFrame * PAGE_SIZE + offset;
      e := NoException;
    }

    method Find(vpn: int) returns (find: int)
      requires Valid()
      ensures -1 <= find < TLB_SIZE
      ensures find >= 0 ==> tlb[find].valid && tlb[find].virtualPage == vpn
      ensures find == -1 ==> forall i | 0 <= i < TLB_SIZE :: !(tlb[i].valid && tlb[i].virtualPage == vpn)
    {
      find := -1;
      var i := 0;
      while i < TLB_SIZE
        invariant 0 <= i <= TLB_SIZE && find == -1
        invariant forall j | 0 <= j < i :: !(tlb[j].valid && tlb[j].virtualPage == vpn)
      {
        if tlb[i].valid && tlb[i].virtualPage == vpn {
          return i;
        }
        i := i + 1;
      }
    }

    method Count(find: int)
      requires Valid() && 0 <= find < TLB_SIZE && tlb[find].valid
      modifies tlb, this`order
      ensures Valid() && tlb[..] == HitCounters(old(tlb[..]), find)
      ensures Cached() == LruTouch(old(Cached()), old(tlb[find].virtualPage))
    {
      ghost var t := tlb[..];
      HitOrder(t, pageTable, order, find);
      assert forall k | 0 <= k < |order| :: order[k] in order;
      HitPages(t, order, find);
      CountEntries(find);
      order := [find] + Remove(order, find);
    }

    method CountEntries(find: int)
      requires tlb.Length == TLB_SIZE && 0 <= find < TLB_SIZE
      modifies tlb
      ensures tlb[..] == HitCounters(old(tlb[..]), find)
    {
      ghost var t := tlb[..];
      tlb[find] := tlb[find].(cnt := 0);
      var i := 0;
      while i < TLB_SIZE
        invariant 0 <= i <= TLB_SIZE
        invariant forall j | 0 <= j < i :: tlb[j] == HitCounters(t, find)[j]
        invariant forall j | i <= j < TLB_SIZE && j != find :: tlb[j] == t[j]
        invariant tlb[find] == t[find].(cnt := 0)
      {
        if i != find {
          tlb[i] := tlb[i].(cnt := tlb[i].cnt + 1);
        }
        i := i + 1;
      }
    }

    method MarkUsed(find: int, writing: bool)
      requires Valid() && 0 <= find < TLB_SIZE
      modifies tlb
      ensures Valid() && Cached() == old(Cached())
      ensures tlb[..] == old(tlb[..])[find := old(tlb[find]).(use := true, dirty := writing || old(tlb[find].dirty))]
    {
      ghost var t := tlb[..];
      tlb[find] := tlb[find].(use := true);
      if writing {
        tlb[find] := tlb[find].(dirty := true);
      }
      assert tlb[..] == t[find := t[find].(use := true, dirty := writing || t[find].dirty)];
      MarkKeeps(t, tlb[..], pageTable, order);
    }

    // ExceptionHandler(PageFaultException) with a TLB.
    method Refill(virtAddr: Int32)
      requires Valid() && Unsigned(virtAddr) / PAGE_SIZE < |pageTable|
      requires Unsigned(virtAddr) / PAGE_SIZE !in Cached()
      modifies tlb, this`order
      ensures Valid() && Cached() == LruTouch(old(Cached()), Unsigned(virtAddr) / PAGE_SIZE)
    {
      var vpn := Unsigned(virtAddr) / PAGE_SIZE;
      var entry := pageTable[vpn];
      ghost var t := tlb[..];
      OrderSize(t, pageTable, order);
      Age();
      var i := 0;
      while i < TLB_SIZE
        invariant 0 <= i <= TLB_SIZE
        invariant forall j | 0 <= j < i :: tlb[j].valid
      {
        if !tlb[i].valid {
          tlb[i] := Entry(true, entry.virtualPage, entry.physicalPage, entry.readOnly, false, false, 0);
          assert tlb[..] == RefillCounters(t)[i := Filled(vpn, entry)];
          FreeSlotOrder(t, pageTable, order, i, vpn);
          assert forall k | 0 <= k < |order| :: order[k] in order;
          FreeSlotPages(t, order, i, vpn, entry);
          order := [i] + order;
          return;
        }
        i := i + 1;
      }
      var maxidx := Oldest(t);
      tlb[maxidx] := tlb[maxidx].(virtualPage := entry.virtualPage, physicalPage := entry.physicalPage,
                                  readOnly := entry.readOnly, use := false, dirty := false, cnt := 0);
      assert tlb[..] == RefillCounters(t)[maxidx := Filled(vpn, entry)];
      VictimOrder(t, pageTable, order, maxidx, vpn);
      VictimPages(t, order, maxidx, vpn, entry);
      order := [maxidx] + order[..3];
    }

    // The counters of the valid entries go up.
    method Age()
      requires tlb.Length == TLB_SIZE
      modifies tlb
      ensures tlb[..] == RefillCounters(old(tlb[..]))
    {
      var i := 0;
      while i < TLB_SIZE
        invariant 0 <= i <= TLB_SIZE
        invariant forall j | 0 <= j < i :: tlb[j] == RefillCounters(old(tlb[..]))[j]
        invariant forall j | i <= j < TLB_SIZE :: tlb[j] == old(tlb[..])[j]
      {
        if tlb[i].valid {
          tlb[i] := tlb[i].(cnt := tlb[i].cnt + 1);
        }
        i := i + 1;
      }
    }

    // The search for the largest counter always finds the least recently used entry.
    method Oldest(ghost t: seq<Entry>) returns (maxidx: int)
      requires tlb.Length == TLB_SIZE && |t| == TLB_SIZE && Ordered(t, pageTable, order) && |order| == TLB_SIZE
      requires tlb[..] == RefillCounters(t) && forall i | 0 <= i < TLB_SIZE :: t[i].valid
      ensures maxidx == order[3]
    {
      var maxcnt := 0;
      maxidx := -1;
      var i := 0;
      while i < TLB_SIZE
        invariant 0 <= i <= TLB_SIZE && -1 <= maxidx < i
        invariant maxidx == -1 ==> i == 0 && maxcnt == 0
        invariant maxidx >= 0 ==> maxcnt == tlb[maxidx].cnt
        invariant forall j | 0 <= j < i :: tlb[j].cnt <= maxcnt
      {
        assert Agrees(t[i], pageTable) && tlb[i] == RefillCounters(t)[i];
        if tlb[i].cnt > maxcnt {
          maxcnt := tlb[i].cnt;
          maxidx := i;
        }
        i := i + 1;
      }
      LastIsOldest(t, order, maxidx);
    }

    /** The TLB is a true LRU cache: after any sequence of loads and stores of any size, starting
        empty, it holds the most recently used pages, and every access ends as the page table alone
        says. */
    method Reference(accesses: seq<Access>) returns (results: seq<Result>)
      requires Valid() && Cached() == []
      requires forall a | a in accesses :: Page(a) < |pageTable|
      modifies tlb, this`TLBhit, this`TLBmiss, this`order
      ensures Valid() && Cached() == LruRun(PagesUsed(accesses)) == Top(Recency(PagesUsed(accesses)))
      ensures Answered(results, pageTable, accesses, |accesses|)
    {
      results := [];
      var i := 0;
      while i < |accesses|
        invariant 0 <= i <= |accesses| && Valid() && OnTrack(Cached(), results, pageTable, accesses, i)
      {
        assert accesses[i] in accesses;
        results := PerformNext(accesses, i, results);
        i := i + 1;
      }
      assert accesses[..|accesses|] == accesses;
      LruKeepsMostRecent(PagesUsed(accesses));
    }

    method PerformNext(accesses: seq<Access>, i: nat, results: seq<Result>) returns (results': seq<Result>)
      requires Valid() && i < |accesses| && Page(accesses[i]) < |pageTable|
      requires OnTrack(Cached(), results, pageTable, accesses, i)
      modifies tlb, this`TLBhit, this`TLBmiss, this`order
      ensures Valid() && OnTrack(Cached(), results', pageTable, accesses, i + 1)
    {
      ghost var cached := Cached();
      var r := Perform(accesses[i]);
      results' := results + [r];
      TrackNext(cached, Cached(), results, pageTable, accesses, i, r);
    }

    // One access by the user program: a miss refills and the instruction runs again.
    method Perform(a: Access) returns (r: Result)
      requires Valid() && Page(a) < |pageTable|
      modifies tlb, this`TLBhit, this`TLBmiss, this`order
      ensures Valid() && r == TableResult(pageTable, a)
      ensures Cached() == if Misaligned(a) then old(Cached()) else LruTouch(old(Cached()), Page(a))
    {
      var e, phys := Translate(a.addr, a.size, a.writing);
      if e == PageFault {
        Refill(a.addr);
        TouchTwice(old(Cached()), Page(a));
        e, phys := Translate(a.addr, a.size, a.writing);
      }
      r := if e == NoException then Mapped(phys) else Raised(e);
    }
  }

  datatype Access = Access(addr: Int32, size: int, writing: bool)
  datatype Result = Mapped(phys: int) | Raised(e: Exception)

  function Page(a: Access): nat {
    Unsigned(a.addr) / PAGE_SIZE
  }

  predicate Misaligned(a: Access) {
    (a.size == 4 && a.addr % 4 != 0) || (a.size == 2 && a.addr % 2 != 0)
  }

  // What an access comes to by the page table alone.
  function TableResult(table: seq<PageEntry>, a: Access): Result
    requires Page(a) < |table|
  {
    if Misaligned(a) then Raised(AddressError)
    else if table[Page(a)].readOnly && a.writing then Raised(ReadOnlyPage)
    else if 0 <= table[Page(a)].physicalPage < NUM_PHYS_PAGES then Mapped(Physical(table, a.addr))
    else Raised(BusError)
  }

  // The first n accesses ended as the page table says.
  ghost predicate Answered(results: seq<Result>, table: seq<PageEntry>, accesses: seq<Access>, n: nat) {
    && |results| == n <= |accesses|
    && forall i | 0 <= i < n :: Page(accesses[i]) < |table| && results[i] == TableResult(table, accesses[i])
  }

  // After n accesses the cache holds what LRU says, and they ended as the page table says.
  ghost predicate OnTrack(cached: seq<int>, results: seq<Result>, table: seq<PageEntry>, accesses: seq<Access>, n: nat) {
    Answered(results, table, accesses, n) && cached == LruRun(PagesUsed(accesses[..n]))
  }

  lemma TrackNext(cached: seq<int>, cached': seq<int>, results: seq<Result>, table: seq<PageEntry>,
                  accesses: seq<Access>, n: nat, r: Result)
    requires OnTrack(cached, results, table, accesses, n) && n < |accesses| && Page(accesses[n]) < |table|
    requires r == TableResult(table, accesses[n])
    requires cached' == if Misaligned(accesses[n]) then cached else LruTouch(cached, Page(accesses[n]))
    ensures OnTrack(cached', results + [r], table, accesses, n + 1)
  {
    NextPage(accesses, n);
  }

  // The pages looked up, in order.
  function PagesUsed(accesses: seq<Access>): seq<int> {
    if accesses == [] then []
    else
      var last := accesses[|accesses| - 1];
      PagesUsed(accesses[..|accesses| - 1]) + if Misaligned(last) then [] else [Page(last)]
  }

  lemma NextPage(accesses: seq<Access>, i: nat)
    requires i < |accesses|
    ensures var run, a := LruRun(PagesUsed(accesses[..i])), accesses[i];
      LruRun(PagesUsed(accesses[..i + 1])) == if Misaligned(a) then run else LruTouch(run, Page(a))
  {
    var front := accesses[..i + 1];
    assert front[..i] == accesses[..i];
    var p := PagesUsed(accesses[..i]);
    if Misaligned(accesses[i]) {
      assert p + [] == p;
    } else {
      assert (p + [Page(accesses[i])])[..|p|] == p;
    }
  }

  lemma TouchTwice(r: seq<int>, p: int)
    ensures p in LruTouch(r, p) && LruTouch(LruTouch(r, p), p) == LruTouch(r, p)
  {
  }

  lemma LastIsOldest(t: seq<Entry>, order: seq<int>, m: int)
    requires ListsSlots(t, order) && Increasing(t, order) && |order| == TLB_SIZE
    requires 0 <= m < TLB_SIZE && t[m].valid && forall i | 0 <= i < TLB_SIZE :: t[i].cnt <= t[m].cnt
    ensures m == order[3]
  {
    var k :| 0 <= k < |order| && order[k] == m;
    assert t[order[3]].cnt <= t[order[k]].cnt;
  }

  lemma MarkKeeps(t: seq<Entry>, t': seq<Entry>, table: seq<PageEntry>, order: seq<int>)
    requires Ordered(t, table, order) && |t'| == |t|
    requires forall i | 0 <= i < |t| :: t'[i] == t[i].(use := t'[i].use, dirty := t'[i].dirty)
    ensures Ordered(t', table, order) && Pages(t', order) == Pages(t, order)
  {
    forall i | 0 <= i < TLB_SIZE && t'[i].valid ensures Agrees(t'[i], table) {
      assert Agrees(t[i], table);
    }
    assert Pages(t', order) == Pages(t, order);
  }
}
