/** The 32 x 32 to 64 bit multiplication of the MIPS simulator (machine/mipssim.cc, Mult):
    shift and add on 32-bit halves, with an arithmetic right shift of the multiplier, an early
    exit, and a two's complement at the end.  int values are kept in 32 bits; unsigned values
    wrap. */
module Multiply {
  import opened Bytes

  const W := 0x1_0000_0000

  function Pow2(n: nat): (p: nat)
    ensures p >= 1
  {
    if n == 0 then 1 else 2 * Pow2(n - 1)
  }

  lemma {:induction false} Pow2Add(m: nat, n: nat)
    ensures Pow2(m + n) == Pow2(m) * Pow2(n)
  {
    if m > 0 {
      Pow2Add(m - 1, n);
      assert Pow2(m + n) == 2 * Pow2(m - 1 + n);
      assert 2 * (Pow2(m - 1) * Pow2(n)) == 2 * Pow2(m - 1) * Pow2(n);
    }
  }

  lemma Pow2Word()
    ensures Pow2(32) == W
  {
    assert Pow2(4) == 16;
    Pow2Add(4, 4);
    Pow2Add(8, 8);
    Pow2Add(16, 16);
  }

  // -x in 32 bits: the most negative value is its own negative.
  function Negate(x: Int32): Int32 {
    if x == -0x8000_0000 then x else -x
  }

  lemma MulBound(x: nat, y: nat, m: nat, n: nat)
    requires x < m && y <= n
    ensures x * y <= (m - 1) * n
  {
    assert x * y <= (m - 1) * y by { assert (m - 1 - x) * y >= 0; }
    assert (m - 1) * y <= (m - 1) * n by { assert (m - 1) * (n - y) >= 0; }
  }

  // After the bits below weight w: `done` is what they contribute to the multiplier A, and a is
  // what the arithmetic shift has left of it; c is 1 when A's top bit is set.
  ghost predicate Progress(A: nat, a: int, c: nat, w: nat, rest: nat, done: nat) {
    done < w && w * rest == W && A == (a + c * rest) * w + done && (c == 1 ==> a < 0) && c <= 1
  }

  lemma NextBit(A: nat, a: int, c: nat, w: nat, rest: nat, done: nat)
    requires Progress(A, a, c, w, 2 * rest, done)
    ensures Progress(A, a / 2, c, 2 * w, rest, done + (a % 2) * w)
  {
    var q, bit := a / 2, a % 2;
    assert a == 2 * q + bit;
    assert (a + c * (2 * rest)) * w == (2 * (q + c * rest) + bit) * w == (q + c * rest) * (2 * w) + bit * w;
    assert (2 * w) * rest == w * (2 * rest);
  }

  lemma NoOverflow(w: nat, rest: nat, done: nat, B: nat)
    requires done < w && w * (2 * rest) == W && rest >= 1 && B < W
    ensures (done + w) * B < W * W && 2 * (B * w) < W * W
  {
    assert 2 * w <= W by {
      assert (2 * w) * rest == W;
      assert (2 * w) * (rest - 1) >= 0;
    }
    MulBound(B, done + w, W, W);
    MulBound(B, 2 * w, W, W);
    assert 2 * (B * w) == B * (2 * w);
    assert (done + w) * B == B * (done + w);
  }

  // The loop's accumulator is `total` and the shifted multiplicand is `shifted`.
  ghost predicate Accumulated(A: nat, B: nat, a: int, c: nat, w: nat, rest: nat, done: nat, total: nat, shifted: nat) {
    Progress(A, a, c, w, rest, done) && total == done * B && shifted == B * w
  }

  lemma NextRound(A: nat, B: nat, a: int, c: nat, w: nat, rest: nat, done: nat, total: nat, shifted: nat)
    requires Accumulated(A, B, a, c, w, 2 * rest, done, total, shifted) && rest >= 1 && B < W
    ensures total + shifted < W * W && 2 * shifted < W * W
    ensures Accumulated(A, B, a / 2, c, 2 * w, rest, done + (a % 2) * w, total + (a % 2) * shifted, 2 * shifted)
    ensures a == 1 ==> total + shifted == A * B
  {
    NoOverflow(w, rest, done, B);
    NextBit(A, a, c, w, rest, done);
    assert (done + w) * B == total + shifted by {
      assert (done + w) * B == done * B + w * B;
    }
    assert B * (2 * w) == 2 * (B * w);
    if a % 2 == 1 {
      assert (a % 2) * w == w && (a % 2) * shifted == shifted;
    } else {
      assert (a % 2) * w == 0 && (a % 2) * shifted == 0;
    }
    if a == 1 {
      assert c == 0 && (a + c * (2 * rest)) * w == w;
    }
  }

  // All bits are handled: the sign of a cancels the top bit.
  lemma AllBits(A: nat, B: nat, a: int, c: nat, w: nat, done: nat, total: nat, shifted: nat)
    requires Accumulated(A, B, a, c, w, 1, done, total, shifted) && A < W
    ensures total == A * B
  {
    assert w == W;
    assert a + c == 0;
  }

  // hi:lo and bHi:bLo as 64-bit numbers; one addition.
  method AddShifted(hi: nat, lo: nat, bHi: nat, bLo: nat) returns (hi': nat, lo': nat)
    requires hi < W && lo < W && bHi < W && bLo < W
    requires (hi + bHi) * W + lo + bLo < W * W
    ensures hi' < W && lo' < W && hi' * W + lo' == (hi + bHi) * W + lo + bLo
  {
    lo' := (lo + bLo) % W;
    hi' := hi;
    if lo' < bLo {
      hi' := (hi' + 1) % W;
    }
    hi' := (hi' + bHi) % W;
  }

  // bHi:bLo shifted left by one.
  method ShiftLeft(bHi: nat, bLo: nat) returns (bHi': nat, bLo': nat)
    requires bHi < W && bLo < W && 2 * (bHi * W + bLo) < W * W
    ensures bHi' < W && bLo' < W && bHi' * W + bLo' == 2 * (bHi * W + bLo)
  {
    bHi' := bHi * 2 % W;
    if bLo >= 0x8000_0000 {
      bHi' := bHi' + 1;
    }
    bLo' := bLo * 2 % W;
  }

  // One bit of the loop, without the early exit.
  method Round(hi: nat, lo: nat, bHi: nat, bLo: nat, a: int) returns (hi': nat, lo': nat, bHi': nat, bLo': nat)
    requires hi < W && lo < W && bHi < W && bLo < W
    requires hi * W + lo + (bHi * W + bLo) < W * W && 2 * (bHi * W + bLo) < W * W
    ensures hi' < W && lo' < W && bHi' < W && bLo' < W
    ensures hi' * W + lo' == hi * W + lo + (a % 2) * (bHi * W + bLo)
    ensures bHi' * W + bLo' == 2 * (bHi * W + bLo)
  {
    hi', lo' := hi, lo;
    if a % 2 == 1 {
      hi', lo' := AddShifted(hi, lo, bHi, bLo);
    }
    bHi', bLo' := ShiftLeft(bHi, bLo);
  }

  // The loop: hi:lo becomes the product of the two words taken as unsigned numbers.
  method MultWords(a0: Int32, b: Int32) returns (hi: nat, lo: nat)
    ensures hi < W && lo < W && hi * W + lo == Unsigned(a0) * Unsigned(b)
  {
    ghost var A, B := Unsigned(a0), Unsigned(b);
    ghost var c: nat, w: nat, rest: nat, done: nat := if a0 < 0 then 1 else 0, 1, Pow2(32), 0;
    var a: int := a0;
    var bLo: nat, bHi: nat := Unsigned(b), 0;
    lo, hi := 0, 0;
    var i := 0;
    Pow2Word();
    while i < 32
      invariant 0 <= i <= 32 && lo < W && hi < W && bLo < W && bHi < W && rest == Pow2(32 - i)
      invariant Accumulated(A, B, a, c, w, rest, done, hi * W + lo, bHi * W + bLo)
    {
      NextRound(A, B, a, c, w, Pow2(31 - i), done, hi * W + lo, bHi * W + bLo);
      w, rest, done := 2 * w, Pow2(31 - i), done + (a % 2) * w;
      var last := a == 1;
      hi, lo, bHi, bLo := Round(hi, lo, bHi, bLo, a);
      if last {
        return;
      }
      a := a / 2;
      i := i + 1;
    }
    AllBits(A, B, a, c, w, done, hi * W + lo, bHi * W + bLo);
  }

  // The two's complement of a double word.
  method Complement(h: nat, l: nat) returns (h': nat, l': nat)
    requires h < W && l < W && h * W + l > 0
    ensures h' < W && l' < W && h' * W + l' == W * W - (h * W + l)
  {
    h' := W - 1 - h;
    l' := (W - 1 - l + 1) % W;
    if l' == 0 {
      h' := (h' + 1) % W;
    }
  }

  lemma Magnitudes(a: Int32, b: Int32)
    requires a != 0 && b != 0
    ensures var x: int, y: int := if a < 0 then -(a as int) else a, if b < 0 then -(b as int) else b;
      && 0 < x * y <= 0x4000_0000_0000_0000
      && a * b == (if (a < 0) != (b < 0) then -(x * y) else x * y)
  {
    var x: int, y: int := if a < 0 then -(a as int) else a, if b < 0 then -(b as int) else b;
    MulBound(x, y, 0x8000_0001, 0x8000_0000);
    assert x * y > 0;
  }

  /** hi:lo is the exact 64-bit product, signed or unsigned, for all 32-bit operands. */
  method Mult(a: Int32, b: Int32, signedArith: bool) returns (hi: Int32, lo: Int32)
    ensures signedArith ==> hi * W + Unsigned(lo) == a * b
    ensures !signedArith ==> Unsigned(hi) * W + Unsigned(lo) == Unsigned(a) * Unsigned(b)
  {
    if a == 0 || b == 0 {
      hi, lo := 0, 0;
      return;
    }
    var x, y, negative := a, b, false;
    if signedArith {
      if x < 0 {
        negative := !negative;
        x := Negate(x);
      }
      if y < 0 {
        negative := !negative;
        y := Negate(y);
      }
      Magnitudes(a, b);
    }
    var h, l := MultWords(x, y);
    if negative {
      h, l := Complement(h, l);
    }
    hi, lo := Signed(h), Signed(l);
  }
}
