/** Directories of plain files (filesys/directory.cc): a table of ten entries, names compared on
    their first twenty characters.  Names here have no '/'. */
module Directories {

  const FILE_NAME_MAX_LEN := 20
  const NUM_DIR_ENTRIES := 10
  const ROOT_SECTOR := 1

  datatype Entry = Entry(inUse: bool, sector: int, name: string, kind: int)

  // What strncmp and strncpy see of a name.
  function Key(name: string): string {
    if |name| <= FILE_NAME_MAX_LEN then name else name[..FILE_NAME_MAX_LEN]
  }

  ghost predicate At(t: seq<Entry>, i: int, name: string) {
    0 <= i < |t| && t[i].inUse && Key(t[i].name) == Key(name)
  }

  // No two entries in use have the same name.
  ghost predicate Unique(t: seq<Entry>) {
    forall i, j :: 0 <= i < j < |t| && t[i].inUse && t[j].inUse ==> Key(t[i].name) != Key(t[j].name)
  }

  function IndexFrom(t: seq<Entry>, name: string, from: nat): (i: int)
    requires from <= |t| && forall k :: 0 <= k < from ==> !At(t, k, name)
    ensures i == -1 ==> forall k :: !At(t, k, name)
    ensures i != -1 ==> At(t, i, name) && forall k :: 0 <= k < i ==> !At(t, k, name)
    decreases |t| - from
  {
    if from == |t| then -1
    else if t[from].inUse && Key(t[from].name) == Key(name) then from
    else IndexFrom(t, name, from + 1)
  }

  function Find(t: seq<Entry>, name: string): int {
    var i := IndexFrom(t, name, 0);
    if i != -1 then t[i].sector else -1
  }

  function FreeFrom(t: seq<Entry>, from: nat): (i: int)
    requires from <= |t| && forall k :: 0 <= k < from ==> t[k].inUse
    ensures i == -1 ==> forall k :: 0 <= k < |t| ==> t[k].inUse
    ensures i != -1 ==> 0 <= i < |t| && !t[i].inUse && forall k :: 0 <= k < i ==> t[k].inUse
    decreases |t| - from
  {
    if from == |t| then -1 else if !t[from].inUse then from else FreeFrom(t, from + 1)
  }

  // The table after Add; unchanged when it fails.
  function Add(t: seq<Entry>, name: string, sector: int, kind: int): seq<Entry> {
    var i := FreeFrom(t, 0);
    if IndexFrom(t, name, 0) != -1 || i == -1 then t else t[i := Entry(true, sector, Key(name), kind)]
  }

  function Remove(t: seq<Entry>, name: string): seq<Entry> {
    var i := IndexFrom(t, name, 0);
    if i == -1 then t else t[i := t[i].(inUse := false)]
  }

  // Both names end before character k, or both have it and it is the same.
  ghost predicate AgreeAt(a: string, b: string, k: nat) {
    if k < |a| then k < |b| && a[k] == b[k] else k >= |b|
  }

  /** Two names are one to the directory exactly when they agree on their first twenty characters; so different
      names of at most twenty characters are kept apart. */
  lemma SameKeyIff(a: string, b: string)
    ensures Key(a) == Key(b) <==> forall k: nat :: k < FILE_NAME_MAX_LEN ==> AgreeAt(a, b, k)
    ensures |a| <= FILE_NAME_MAX_LEN && |b| <= FILE_NAME_MAX_LEN ==> (Key(a) == Key(b) <==> a == b)
  {
    if Key(a) == Key(b) {
      forall k: nat | k < FILE_NAME_MAX_LEN
        ensures AgreeAt(a, b, k)
      {
        assert k < |Key(a)| ==> a[k] == Key(a)[k] == Key(b)[k] == b[k];
      }
    } else if forall k: nat :: k < FILE_NAME_MAX_LEN ==> AgreeAt(a, b, k) {
      AgreeSame(a, b);
    }
  }

  lemma AgreeSame(a: string, b: string)
    requires forall k: nat :: k < FILE_NAME_MAX_LEN ==> AgreeAt(a, b, k)
    ensures Key(a) == Key(b)
  {
    var n := |Key(a)|;
    assert |Key(b)| == n by {
      assert |a| < FILE_NAME_MAX_LEN ==> AgreeAt(a, b, |a|);
      assert |b| < FILE_NAME_MAX_LEN ==> AgreeAt(a, b, |b|);
    }
    forall k: nat | k < n
      ensures Key(a)[k] == Key(b)[k]
    {
      assert AgreeAt(a, b, k);
    }
  }

  lemma KeyOfKey(name: string)
    ensures Key(Key(name)) == Key(name)
  {
  }

  /** A name that is added is found again, with its sector and kind, and no other name is found elsewhere than before. */
  lemma FindAfterAdd(t: seq<Entry>, name: string, sector: int, kind: int, other: string)
    requires Unique(t) && IndexFrom(t, name, 0) == -1 && FreeFrom(t, 0) != -1
    ensures var t' := Add(t, name, sector, kind);
      && Unique(t') && Find(t', name) == sector
      && IndexFrom(t', name, 0) != -1 && t'[IndexFrom(t', name, 0)].kind == kind
      && (Key(other) != Key(name) ==> Find(t', other) == Find(t, other))
  {
    AddAt(t, name, sector, kind);
    OnlyOne(Add(t, name, sector, kind), name, FreeFrom(t, 0));
    if Key(other) != Key(name) {
      OtherAfterAdd(t, name, sector, kind, other);
    }
  }

  lemma OnlyOne(t: seq<Entry>, name: string, i: int)
    requires forall k :: At(t, k, name) <==> k == i
    ensures 0 <= i < |t| && IndexFrom(t, name, 0) == i && Find(t, name) == t[i].sector
  {
    assert At(t, i, name);
    assert At(t, IndexFrom(t, name, 0), name);
  }

  lemma OtherAfterAdd(t: seq<Entry>, name: string, sector: int, kind: int, other: string)
    requires FreeFrom(t, 0) != -1 && Key(other) != Key(name)
    ensures Find(Add(t, name, sector, kind), other) == Find(t, other)
  {
    KeyOfKey(name);
    SameFind(t, Add(t, name, sector, kind), other);
  }

  // The new entry is the only one with its name.
  lemma AddAt(t: seq<Entry>, name: string, sector: int, kind: int)
    requires Unique(t) && IndexFrom(t, name, 0) == -1 && FreeFrom(t, 0) != -1
    ensures var t' := Add(t, name, sector, kind); Unique(t') && forall k :: At(t', k, name) <==> k == FreeFrom(t, 0)
  {
    KeyOfKey(name);
    var t', i := Add(t, name, sector, kind), FreeFrom(t, 0);
    forall k
      ensures At(t', k, name) <==> k == i
    {
      assert !At(t, k, name);
    }
    forall k, j | 0 <= k < j < |t'| && t'[k].inUse && t'[j].inUse
      ensures Key(t'[k].name) != Key(t'[j].name)
    {
      assert !At(t, k, name) && !At(t, j, name);
    }
  }

  lemma SameFind(t: seq<Entry>, t': seq<Entry>, name: string)
    requires |t'| == |t| && forall k :: At(t', k, name) <==> At(t, k, name)
    requires forall k :: At(t, k, name) ==> t'[k].sector == t[k].sector
    ensures Find(t', name) == Find(t, name)
  {
    var i, i' := IndexFrom(t, name, 0), IndexFrom(t', name, 0);
    if i != -1 && i' != -1 {
      assert !(i < i') && !(i' < i);
    }
  }

  /** A name that is removed is not found any more, and the others are found as before. */
  lemma FindAfterRemove(t: seq<Entry>, name: string, other: string)
    requires Unique(t)
    ensures var t' := Remove(t, name);
      Unique(t') && Find(t', name) == -1 && (Key(other) != Key(name) ==> Find(t', other) == Find(t, other))
  {
    var t', i := Remove(t, name), IndexFrom(t, name, 0);
    if i != -1 {
      forall k
        ensures !At(t', k, name)
        ensures Key(other) != Key(name) ==> (At(t', k, other) <==> At(t, k, other))
      {
        if 0 <= k < |t| && k != i && t[k].inUse {
          assert Key(t[k].name) != Key(t[i].name);
        }
      }
      if Key(other) != Key(name) {
        SameFind(t, t', other);
      }
    }
  }

  /** Add and then Remove brings every name back to where it was found. */
  lemma AddRemove(t: seq<Entry>, name: string, sector: int, kind: int)
    requires Unique(t) && IndexFrom(t, name, 0) == -1 && FreeFrom(t, 0) != -1
    ensures var t', i := Remove(Add(t, name, sector, kind), name), FreeFrom(t, 0);
      t' == t[i := t'[i]] && !t'[i].inUse
  {
    KeyOfKey(name);
    var t1, i := Add(t, name, sector, kind), FreeFrom(t, 0);
    assert At(t1, i, name);
    assert forall k :: At(t1, k, name) ==> k == i || At(t, k, name);
  }

  // ---- the code ----

  class Directory {
    var table: seq<Entry>

    // A new directory holds "." and "..".
    constructor ()
      ensures table == NewTable()
    {
      table := NewTable();
    }

    method FindIndex(name: string) returns (i: int)
      ensures i == IndexFrom(table, name, 0)
    {
      i := 0;
      while i < |table|
        invariant 0 <= i <= |table| && forall k :: 0 <= k < i ==> !At(table, k, name)
        invariant IndexFrom(table, name, i) == IndexFrom(table, name, 0)
      {
        if table[i].inUse && Key(table[i].name) == Key(name) {
          return i;
        }
        i := i + 1;
      }
      return -1;
    }

    method Lookup(name: string) returns (sector: int)
      ensures sector == Find(table, name)
    {
      var i := FindIndex(name);
      sector := if i != -1 then table[i].sector else -1;
    }

    method AddEntry(name: string, newSector: int, kind: int) returns (ok: bool)
      modifies this
      ensures table == Add(old(table), name, newSector, kind)
      ensures ok <==> IndexFrom(old(table), name, 0) == -1 && FreeFrom(old(table), 0) != -1
    {
      var found := FindIndex(name);
      if found != -1 {
        return false;
      }
      var i := 0;
      while i < |table|
        invariant 0 <= i <= |table| && table == old(table) && forall k :: 0 <= k < i ==> table[k].inUse
        invariant FreeFrom(table, i) == FreeFrom(table, 0)
      {
        if !table[i].inUse {
          table := table[i := Entry(true, newSector, Key(name), kind)];
          return true;
        }
        i := i + 1;
      }
      return false;
    }

    method RemoveEntry(name: string) returns (ok: bool)
      modifies this
      ensures table == Remove(old(table), name) && (ok <==> IndexFrom(old(table), name, 0) != -1)
    {
      var i := FindIndex(name);
      if i == -1 {
        return false;
      }
      table := table[i := table[i].(inUse := false)];
      return true;
    }
  }

  function NewTable(): (t: seq<Entry>)
    ensures |t| == NUM_DIR_ENTRIES && Unique(t)
  {
    [Entry(true, ROOT_SECTOR, ".", 0), Entry(true, ROOT_SECTOR, "..", 0)]
    + seq(NUM_DIR_ENTRIES - 2, _ => Entry(false, 0, "", 0))
  }
}
