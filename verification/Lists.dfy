/** The kernel's singly linked list (threads/list.cc): cells with first and last pointers, and the
    sorted insertion used by the interrupt queue. */
module Lists {
  import opened Basics

  datatype Item<T> = Item(thing: T, key: int)

  class Cell<T> {
    const item: Item<T>
    var next: Cell?<T>

    constructor (item: Item<T>)
      ensures this.item == item && next == null
    {
      this.item := item;
      next := null;
    }
  }

  // ---- what the operations mean on sequences ----

  function Things<T>(s: seq<Item<T>>): (t: seq<T>)
    ensures |t| == |s| && forall i :: 0 <= i < |s| ==> t[i] == s[i].thing
  {
    if s == [] then [] else [s[0].thing] + Things(s[1..])
  }

  function Insert<T>(s: seq<Item<T>>, x: Item<T>): seq<Item<T>> {
    if s == [] || x.key < s[0].key then [x] + s else [s[0]] + Insert(s[1..], x)
  }

  ghost predicate Sorted<T>(s: seq<Item<T>>) {
    forall i, j :: 0 <= i < j < |s| ==> s[i].key <= s[j].key
  }

  // The new item lands at place k: nothing before it is bigger, and the next one is.
  ghost predicate Place<T>(s: seq<Item<T>>, key: int, k: nat) {
    k <= |s| && (forall i :: 0 <= i < k ==> s[i].key <= key) && (k < |s| ==> key < s[k].key)
  }

  lemma {:induction false} InsertAt<T>(s: seq<Item<T>>, x: Item<T>, k: nat)
    requires Place(s, x.key, k)
    ensures Insert(s, x) == s[..k] + [x] + s[k..]
  {
    if k == 0 {
      assert Insert(s, x) == [x] + s;
      assert s[..0] + [x] + s[0..] == [x] + s;
    } else {
      var first, rest := s[0], s[1..];
      assert Place(rest, x.key, k - 1);
      InsertAt(rest, x, k - 1);
      SpliceCons(first, rest, x, k - 1);
      assert [first] + rest == s;
    }
  }

  lemma SpliceCons<T>(first: Item<T>, rest: seq<Item<T>>, x: Item<T>, k: nat)
    requires k <= |rest|
    ensures var s := [first] + rest; [first] + (rest[..k] + [x] + rest[k..]) == s[..k + 1] + [x] + s[k + 1..]
  {
    var s := [first] + rest;
    assert s[..k + 1] == [first] + rest[..k];
    assert s[k + 1..] == rest[k..];
  }

  /** Insertion splices the item in behind every equal key, and moves nothing else. */
  lemma {:induction false} HasPlace<T>(s: seq<Item<T>>, x: Item<T>) returns (k: nat)
    ensures Place(s, x.key, k) && Insert(s, x) == s[..k] + [x] + s[k..]
  {
    k := 0;
    while k < |s| && s[k].key <= x.key
      invariant 0 <= k <= |s| && forall i :: 0 <= i < k ==> s[i].key <= x.key
    {
      k := k + 1;
    }
    InsertAt(s, x, k);
  }

  lemma InsertKeeps<T>(s: seq<Item<T>>, x: Item<T>)
    ensures multiset(Insert(s, x)) == multiset(s) + multiset{x}
    ensures Insert(s, x) != []
  {
    var k := HasPlace(s, x);
    assert s == s[..k] + s[k..];
  }

  lemma InsertSorted<T>(s: seq<Item<T>>, x: Item<T>)
    requires Sorted(s)
    ensures Sorted(Insert(s, x))
  {
    var k := HasPlace(s, x);
    var t := s[..k] + [x] + s[k..];
    forall i, j | 0 <= i < j < |t|
      ensures t[i].key <= t[j].key
    {
      if k < |s| && k < j {
        assert t[j] == s[j - 1] && s[k].key <= s[j - 1].key;
      }
    }
  }

  lemma InsertMembers<T>(s: seq<Item<T>>, x: Item<T>, y: Item<T>)
    ensures y in Insert(s, x) <==> y == x || y in s
  {
    var k := HasPlace(s, x);
    assert s == s[..k] + s[k..];
  }

  // ---- the linked list itself ----

  ghost function ItemsOf<T>(nodes: seq<Cell<T>>): (s: seq<Item<T>>)
    ensures |s| == |nodes| && forall i :: 0 <= i < |nodes| ==> s[i] == nodes[i].item
  {
    seq(|nodes|, i requires 0 <= i < |nodes| => nodes[i].item)
  }

  lemma InsertNode<T>(nodes: seq<Cell<T>>, element: Cell<T>, k: nat)
    requires Place(ItemsOf(nodes), element.item.key, k)
    ensures ItemsOf(nodes[..k] + [element] + nodes[k..]) == Insert(ItemsOf(nodes), element.item)
  {
    var s := ItemsOf(nodes);
    InsertAt(s, element.item, k);
    var spliced := nodes[..k] + [element] + nodes[k..];
    forall i | 0 <= i < |spliced|
      ensures ItemsOf(spliced)[i] == (s[..k] + [element.item] + s[k..])[i]
    {
    }
  }

  lemma SplicedCells<T>(nodes: seq<Cell<T>>, element: Cell<T>, k: nat)
    requires k <= |nodes|
    ensures k == |nodes| ==> nodes[..k] + [element] + nodes[k..] == nodes + [element]
    ensures forall c :: c in nodes[..k] + [element] + nodes[k..] <==> c in nodes || c == element
  {
    assert nodes == nodes[..k] + nodes[k..];
  }

  class List<T> {
    var first: Cell?<T>
    var last: Cell?<T>
    ghost var nodes: seq<Cell<T>>

    ghost function Cells(): set<object>
      reads this
    {
      set c | c in nodes
    }

    ghost predicate Valid()
      reads this, Cells()
    {
      && (first == null <==> nodes == []) && (first == null ==> last == null)
      && (nodes != [] ==> first == nodes[0] && last == nodes[|nodes| - 1] && nodes[|nodes| - 1].next == null)
      && (forall i :: 0 <= i < |nodes| - 1 ==> nodes[i].next == nodes[i + 1])
      && (forall i, j :: 0 <= i < j < |nodes| ==> nodes[i] != nodes[j])
    }

    ghost function Contents(): (s: seq<Item<T>>)
      reads this
      ensures |s| == |nodes|
    {
      ItemsOf(nodes)
    }

    constructor ()
      ensures Valid() && Contents() == [] && Cells() == {}
    {
      first, last, nodes := null, null, [];
    }

    method IsEmpty() returns (empty: bool)
      requires Valid()
      ensures empty <==> Contents() == []
    {
      empty := first == null;
    }

    method PushBack(element: Cell<T>)
      requires Valid() && element !in nodes && element.next == null
      modifies this, last
      ensures Valid() && nodes == old(nodes) + [element]
    {
      if first == null {
        first, last := element, element;
      } else {
        last.next := element;
        last := element;
      }
      nodes := nodes + [element];
    }

    method PushFront(element: Cell<T>)
      requires Valid() && element !in nodes && nodes != []
      modifies this, element
      ensures Valid() && nodes == [element] + old(nodes)
    {
      element.next := first;
      first := element;
      nodes := [element] + nodes;
    }

    method Append(thing: T)
      requires Valid()
      modifies this, Cells()
      ensures Valid() && fresh(Cells() - old(Cells()))
      ensures Contents() == old(Contents()) + [Item(thing, 0)]
    {
      var element := new Cell(Item(thing, 0));
      PushBack(element);
    }

    method Prepend(thing: T)
      requires Valid()
      modifies this, Cells()
      ensures Valid() && fresh(Cells() - old(Cells()))
      ensures Contents() == [Item(thing, 0)] + old(Contents())
    {
      var element := new Cell(Item(thing, 0));
      if first == null {
        PushBack(element);
      } else {
        PushFront(element);
      }
    }

    method LinkAfter(ghost k: nat, ptr: Cell<T>, element: Cell<T>)
      requires Valid() && k + 1 < |nodes| && ptr == nodes[k] && element !in nodes
      modifies this, ptr, element
      ensures Valid() && nodes == old(nodes[..k + 1]) + [element] + old(nodes[k + 1..])
    {
      element.next := ptr.next;
      ptr.next := element;
      nodes := nodes[..k + 1] + [element] + nodes[k + 1..];
    }

    // The walk: the last cell before a bigger key, or the last cell.
    method FindPlace(sortKey: int) returns (ptr: Cell<T>, ghost k: nat)
      requires Valid() && nodes != [] && nodes[0].item.key <= sortKey
      ensures k < |nodes| && ptr == nodes[k]
      ensures Place(ItemsOf(nodes), sortKey, k + 1)
      ensures ptr.next == null <==> k + 1 == |nodes|
    {
      ptr, k := first, 0;
      while ptr.next != null && ptr.next.item.key <= sortKey
        invariant 0 <= k < |nodes| && ptr == nodes[k]
        invariant forall i :: 0 <= i <= k ==> nodes[i].item.key <= sortKey
        decreases |nodes| - k
      {
        assert k + 1 < |nodes| && ptr.next == nodes[k + 1];
        ptr, k := ptr.next, k + 1;
      }
      if k + 1 < |nodes| {
        assert ptr.next == nodes[k + 1];
      }
    }

    method InsertBehind(element: Cell<T>)
      requires Valid() && nodes != [] && nodes[0].item.key <= element.item.key
      requires element !in nodes && element.next == null
      modifies this, Cells(), element
      ensures Valid() && Cells() == old(Cells()) + {element}
      ensures Contents() == Insert(old(Contents()), element.item)
    {
      var ptr, k := FindPlace(element.item.key);
      ghost var spliced := nodes[..k + 1] + [element] + nodes[k + 1..];
      InsertNode(nodes, element, k + 1);
      SplicedCells(nodes, element, k + 1);
      if ptr.next != null {
        LinkAfter(k, ptr, element);
        assert nodes == spliced;
      } else {
        PushBack(element);
        assert nodes == spliced;
      }
    }

    method SortedInsert(thing: T, sortKey: int)
      requires Valid()
      modifies this, Cells()
      ensures Valid() && fresh(Cells() - old(Cells()))
      ensures Contents() == Insert(old(Contents()), Item(thing, sortKey))
    {
      ghost var was := Contents();
      var element := new Cell(Item(thing, sortKey));
      if first == null {
        PushBack(element);
      } else if sortKey < first.item.key {
        PushFront(element);
        InsertAt(was, element.item, 0);
      } else {
        InsertBehind(element);
      }
    }

    method SortedRemove() returns (r: Option<Item<T>>)
      requires Valid()
      modifies this
      ensures Valid() && Cells() <= old(Cells())
      ensures old(Contents()) == [] ==> r.None? && Contents() == []
      ensures old(Contents()) != [] ==> r == Some(old(Contents())[0]) && Contents() == old(Contents())[1..]
    {
      if first == null {
        return None;
      }
      var element := first;
      if first == last {
        assert nodes[0] == nodes[|nodes| - 1];
        assert |nodes| == 1;
        first, last := null, null;
      } else {
        assert |nodes| > 1 && nodes[0].next == nodes[0 + 1];
        first := element.next;
      }
      nodes := nodes[1..];
      r := Some(element.item);
    }
  }
}
