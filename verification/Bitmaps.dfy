/** Bit maps of free disk sectors (userprog/bitmap.cc): 32 bits to a word, with the search for
    one clear bit and the search for a run of clear bits. */
module Bitmaps {

  // ---- what the operations mean on a sequence of bits ----

  type Bits = seq<bool>

  function CountClear(b: Bits): nat {
    if b == [] then 0 else (if b[0] then 0 else 1) + CountClear(b[1..])
  }

  ghost predicate FirstClear(b: Bits, i: int) {
    0 <= i < |b| && !b[i] && forall j :: 0 <= j < i ==> b[j]
  }

  // -1 when there is none.
  function SearchClear(b: Bits, from: nat): (i: int)
    requires from <= |b| && forall j :: 0 <= j < from ==> b[j]
    ensures i == -1 ==> forall j :: 0 <= j < |b| ==> b[j]
    ensures i != -1 ==> FirstClear(b, i)
    decreases |b| - from
  {
    if from == |b| then -1 else if !b[from] then from else SearchClear(b, from + 1)
  }

  function Mark(b: Bits, i: int): (b': Bits)
    ensures |b'| == |b|
  {
    if 0 <= i < |b| then b[i := true] else b
  }

  // A run of n clear bits at i.
  predicate RunAt(b: Bits, i: int, n: int) {
    0 <= i && i + n <= |b| && forall j :: i <= j < i + n ==> 0 <= j < |b| && !b[j]
  }

  datatype Search = Found(start: nat) | NotFound | Aborted

  // Testing a bit past the end aborts.
  function SearchRun(b: Bits, n: int, from: nat): Search
    decreases |b| - from
  {
    if from >= |b| then NotFound
    else if n > 0 && from + n > |b| then Aborted
    else if n <= 0 || RunAt(b, from, n) then Found(from)
    else SearchRun(b, n, from + 1)
  }

  function MarkRun(b: Bits, i: int, n: int): Bits {
    seq(|b|, k requires 0 <= k < |b| => b[k] || i <= k < i + n)
  }

  // ---- their properties ----

  lemma {:induction false} CountSplit(b: Bits, c: Bits)
    ensures CountClear(b + c) == CountClear(b) + CountClear(c)
  {
    if b == [] {
      assert b + c == c;
    } else {
      CountSplit(b[1..], c);
      assert (b + c)[1..] == b[1..] + c;
    }
  }

  lemma CountUpdate(b: Bits, i: nat, v: bool)
    requires i < |b|
    ensures CountClear(b[i := v]) == CountClear(b) + (if b[i] then 1 else 0) - (if v then 1 else 0)
  {
    var p, q := b[..i], b[i + 1..];
    assert b == p + ([b[i]] + q) && b[i := v] == p + ([v] + q);
    CountSplit(p, [b[i]] + q);
    CountSplit(p, [v] + q);
  }

  lemma {:induction false} SomeClear(b: Bits)
    ensures CountClear(b) > 0 <==> exists i :: 0 <= i < |b| && !b[i]
  {
    if b != [] {
      SomeClear(b[1..]);
      if i :| 0 <= i < |b| && !b[i] {
        assert i > 0 ==> !b[1..][i - 1];
      }
      if i :| 0 <= i < |b[1..]| && !b[1..][i] {
        assert !b[i + 1];
      }
    }
  }

  ghost predicate FirstRun(b: Bits, n: int, i: int) {
    i < |b| && RunAt(b, i, n) && forall j :: 0 <= j < i ==> !RunAt(b, j, n)
  }

  ghost predicate NoRun(b: Bits, n: int) {
    forall j :: !RunAt(b, j, n)
  }

  /** The search for a run finds the first one.  Without one it aborts, unless it looks for one
      bit only, or the map is empty. */
  lemma SearchRunMeans(b: Bits, n: nat)
    ensures SearchRun(b, n, 0).Found? <==> b != [] && !NoRun(b, n)
    ensures SearchRun(b, n, 0).Found? ==> FirstRun(b, n, SearchRun(b, n, 0).start)
    ensures SearchRun(b, n, 0).Aborted? <==> n >= 2 && b != [] && NoRun(b, n)
  {
    SearchFrom(b, n, 0);
    if b != [] && n == 0 {
      assert RunAt(b, 0, n);
    }
  }

  lemma {:induction false} SearchFrom(b: Bits, n: nat, from: nat)
    requires forall j :: 0 <= j < from ==> !RunAt(b, j, n)
    ensures SearchRun(b, n, from).Found? ==> FirstRun(b, n, SearchRun(b, n, from).start)
    ensures !SearchRun(b, n, from).Found? && (n > 0 || from < |b|) ==> NoRun(b, n)
    ensures SearchRun(b, n, from).Aborted? ==> n >= 2 && from < |b|
    ensures SearchRun(b, n, from).NotFound? && from < |b| ==> n <= 1
    decreases |b| - from
  {
    if from < |b| && from + n <= |b| && !RunAt(b, from, n) {
      SearchFrom(b, n, from + 1);
    }
  }

  // ---- the words ----

  // A word is a number; bit k is its k-th binary digit.
  function WordBit(w: nat, k: nat): bool {
    if k == 0 then w % 2 == 1 else WordBit(w / 2, k - 1)
  }

  // w | 1 << k when v, w & ~(1 << k) otherwise
  function PutBit(w: nat, k: nat, v: bool): nat {
    if k == 0 then w / 2 * 2 + (if v then 1 else 0) else w % 2 + 2 * PutBit(w / 2, k - 1, v)
  }

  lemma {:induction false} PutGetBit(w: nat, j: nat, v: bool, k: nat)
    ensures WordBit(PutBit(w, j, v), k) == if k == j then v else WordBit(w, k)
  {
    if j > 0 {
      var r := PutBit(w / 2, j - 1, v);
      assert (w % 2 + 2 * r) / 2 == r;
      if k > 0 {
        PutGetBit(w / 2, j - 1, v, k - 1);
      }
    }
  }

  function BitAt(words: seq<nat>, i: nat): bool
    requires i / 32 < |words|
  {
    WordBit(words[i / 32], i % 32)
  }

  lemma SetWord(words: seq<nat>, which: nat, v: bool)
    requires which / 32 < |words|
    ensures forall i: nat :: i / 32 < |words| ==>
      BitAt(words[which / 32 := PutBit(words[which / 32], which % 32, v)], i) == if i == which then v else BitAt(words, i)
  {
    var words' := words[which / 32 := PutBit(words[which / 32], which % 32, v)];
    forall i: nat | i / 32 < |words|
      ensures BitAt(words', i) == if i == which then v else BitAt(words, i)
    {
      PutGetBit(words[which / 32], which % 32, v, i % 32);
    }
  }

  ghost predicate Represents(words: seq<nat>, bits: Bits) {
    && |words| == (|bits| + 31) / 32
    && forall i: nat {:trigger BitAt(words, i)} :: i < |bits| ==> BitAt(words, i) == bits[i]
  }

  lemma SetRepresents(words: seq<nat>, bits: Bits, which: nat, v: bool)
    requires which < |bits| && Represents(words, bits)
    ensures Represents(words[which / 32 := PutBit(words[which / 32], which % 32, v)], bits[which := v])
  {
    SetWord(words, which, v);
    var words' := words[which / 32 := PutBit(words[which / 32], which % 32, v)];
    forall i: nat | i < |bits|
      ensures BitAt(words', i) == bits[which := v][i]
    {
      assert BitAt(words, i) == bits[i];
    }
  }

  function Values(words: seq<nat>, n: nat): (bits: Bits)
    requires |words| == (n + 31) / 32
    ensures |bits| == n && Represents(words, bits)
  {
    seq(n, i requires 0 <= i < n => BitAt(words, i))
  }

  // ---- the code ----

  class BitMap {
    const numBits: nat
    const map_: array<nat>

    ghost var bits: Bits

    ghost predicate Valid()
      reads this, map_
    {
      |bits| == numBits && Represents(map_[..], bits)
    }

    constructor (nitems: nat)
      ensures Valid() && numBits == nitems && fresh(map_)
      ensures bits == seq(nitems, _ => false)
    {
      numBits := nitems;
      map_ := new nat[(nitems + 31) / 32];
      new;
      bits := Values(map_[..], nitems);
      for i := 0 to numBits
        invariant Valid() && forall k :: 0 <= k < i ==> !bits[k]
      {
        Clear(i);
      }
    }

    // The words as they are kept in the map's file; b is what they stand for.
    method FetchFrom(words: seq<nat>, ghost b: Bits)
      requires Valid() && Represents(words, b) && |b| == numBits
      modifies this, map_
      ensures Valid() && bits == b
    {
      forall i | 0 <= i < map_.Length {
        map_[i] := words[i];
      }
      assert map_[..] == words;
      bits := b;
    }

    method WriteBack() returns (words: seq<nat>)
      requires Valid()
      ensures Represents(words, bits)
    {
      words := map_[..];
    }

    method Mark(which: int)
      requires Valid() && 0 <= which < numBits
      modifies this, map_
      ensures Valid() && bits == old(bits)[which := true]
    {
      Put(which, true);
    }

    method Clear(which: int)
      requires Valid() && 0 <= which < numBits
      modifies this, map_
      ensures Valid() && bits == old(bits)[which := false]
    {
      Put(which, false);
    }

    method Put(which: int, v: bool)
      requires Valid() && 0 <= which < numBits
      modifies this, map_
      ensures Valid() && bits == old(bits)[which := v]
    {
      var w := PutBit(map_[which / 32], which % 32, v);
      SetRepresents(map_[..], bits, which, v);
      map_[which / 32] := w;
      bits := bits[which := v];
      assert map_[..] == old(map_[..])[which / 32 := w];
    }

    method Test(which: int) returns (r: bool)
      requires Valid() && 0 <= which < numBits
      ensures r == bits[which]
    {
      r := WordBit(map_[which / 32], which % 32);
      assert r == BitAt(map_[..], which);
    }

    method Find() returns (r: int)
      requires Valid()
      modifies this, map_
      ensures Valid() && r == SearchClear(old(bits), 0)
      ensures bits == if r == -1 then old(bits) else old(bits)[r := true]
    {
      for i := 0 to numBits
        invariant Valid() && bits == old(bits)
        invariant forall k :: 0 <= k < i ==> bits[k]
        invariant SearchClear(bits, i) == SearchClear(bits, 0)
      {
        var t := Test(i);
        if !t {
          Mark(i);
          return i;
        }
      }
      return -1;
    }

    method NumClear() returns (count: nat)
      requires Valid()
      ensures count == CountClear(bits)
    {
      count := 0;
      ghost var b := bits;
      for i := 0 to numBits
        invariant count == CountClear(b[..i])
      {
        var t := Test(i);
        assert b[..i + 1] == b[..i] + [b[i]];
        CountSplit(b[..i], [b[i]]);
        if !t {
          count := count + 1;
        }
      }
      assert b[..numBits] == b;
    }

    // Are the bits from i on clear?  Testing past the end aborts.
    method TestRun(i: nat, size: int) returns (flag: bool, abort: bool)
      requires Valid() && i < numBits
      ensures abort <==> size > 0 && i + size > numBits
      ensures !abort ==> (flag <==> size <= 0 || RunAt(bits, i, size))
    {
      flag, abort := true, false;
      var j := 0;
      while j < size
        invariant 0 <= j && (if size > 0 then j <= size else j == 0) && i + j <= numBits
        invariant flag <==> forall k :: i <= k < i + j ==> !bits[k]
      {
        if i + j >= numBits {
          return flag, true;
        }
        var t := Test(i + j);
        if t {
          flag := false;
        }
        j := j + 1;
      }
      assert size > 0 ==> j == size;
    }

    method MarkBits(i: nat, size: int)
      requires Valid() && (size > 0 ==> i + size <= numBits)
      modifies this, map_
      ensures Valid() && bits == MarkRun(old(bits), i, size)
    {
      var j := 0;
      while j < size
        invariant 0 <= j && (if size > 0 then j <= size else j == 0)
        invariant Valid() && bits == MarkRun(old(bits), i, j)
      {
        Mark(i + j);
        j := j + 1;
      }
      assert size > 0 ==> j == size;
    }

    method MyFind(size: int) returns (r: Search)
      requires Valid()
      modifies this, map_
      ensures Valid() && r == SearchRun(old(bits), size, 0)
      ensures bits == if r.Found? then MarkRun(old(bits), r.start, size) else old(bits)
    {
      for i := 0 to numBits
        invariant Valid() && bits == old(bits)
        invariant SearchRun(bits, size, i) == SearchRun(bits, size, 0)
      {
        var flag, abort := TestRun(i, size);
        if abort {
          return Aborted;
        }
        if flag {
          MarkBits(i, size);
          return Found(i);
        }
      }
      return NotFound;
    }
  }
}
