/** What the instructions of machine/mipssim.cc compute, said without the formulas that compute it: bit by bit, modulo
    2^32, by the identities a compiler relies on, and where two of them go wrong, exactly when. */
module InstructionLaws {
  import opened Basics
  import opened Bytes
  import opened Multiply
  import opened Mips

  // ---- bits ----

  predicate Bit(u: nat, k: nat) {
    if k == 0 then u % 2 == 1 else Bit(u / 2, k - 1)
  }

  lemma {:induction false} BitwiseBit(x: nat, y: nat, n: nat, f: Gate, k: nat)
    requires k < n
    ensures Bit(Bitwise(x, y, n, f), k) <==> Out(f, Bit(x, k), Bit(y, k))
    decreases n
  {
    if k > 0 {
      BitwiseBit(x / 2, y / 2, n - 1, f, k - 1);
      assert Bitwise(x, y, n, f) / 2 == Bitwise(x / 2, y / 2, n - 1, f);
    }
  }

  lemma BitOpBit(a: Int32, b: Int32, f: Gate, k: nat)
    requires k < 32
    ensures Bit(Unsigned(BitOp(a, b, f)), k) <==> Out(f, Bit(Unsigned(a), k), Bit(Unsigned(b), k))
  {
    Pow2Word();
    BitwiseBit(Unsigned(a), Unsigned(b), 32, f, k);
  }

  // Numbers with the same bits are the same.
  lemma {:induction false} SameBits(x: nat, y: nat, n: nat)
    requires x < Pow2(n) && y < Pow2(n)
    requires forall k: nat :: k < n ==> (Bit(x, k) <==> Bit(y, k))
    ensures x == y
  {
    if n > 0 {
      assert Bit(x, 0) <==> Bit(y, 0);
      forall k: nat | k < n - 1
        ensures Bit(x / 2, k) <==> Bit(y / 2, k)
      {
        assert Bit(x, k + 1) <==> Bit(y, k + 1);
      }
      SameBits(x / 2, y / 2, n - 1);
    }
  }

  lemma {:induction false} LowBits(u: nat, n: nat, k: nat)
    ensures Bit(u % Pow2(n), k) <==> k < n && Bit(u, k)
    decreases n, k
  {
    if n == 0 {
      ZeroBits(k);
    } else {
      LowHalved(u, n);
      if k > 0 {
        LowBits(u / 2, n - 1, k - 1);
      }
    }
  }

  lemma {:induction false} ZeroBits(k: nat)
    ensures !Bit(0, k)
  {
    if k > 0 {
      ZeroBits(k - 1);
    }
  }

  lemma LowHalved(u: nat, n: nat)
    requires n > 0
    ensures u % Pow2(n) / 2 == u / 2 % Pow2(n - 1) && u % Pow2(n) % 2 == u % 2
  {
    var p, h := Pow2(n - 1), u / 2;
    assert h == h / p * p + h % p;
    var low := 2 * (h % p) + u % 2;
    assert u == h / p * (2 * p) + low;
    assert low < 2 * p;
    Split(h / p, low, 2 * p);
  }

  predicate IsGateOp(op: Op) {
    op == AND || op == XOR || op == NOR || op == ANDI || op == ORI || op == XORI
  }

  // What one bit of the result should be.
  predicate GateBit(op: Op, x: bool, y: bool) {
    if op == AND || op == ANDI then x && y else if op == NOR then !x && !y else if op == ORI then x || y else x != y
  }

  // The register an operation writes and the second operand, of which the immediate ones take sixteen bits.
  function Dest(i: Instruction): Reg {
    if IsImmOp(i.op) || i.op == ADDI then i.rt else i.rd
  }

  predicate SecondBit(i: Instruction, r: Regs, k: nat) {
    if IsImmOp(i.op) then k < 16 && Bit(Unsigned(i.extra), k) else Bit(Unsigned(r[i.rt]), k)
  }

  /** The logical operations, other than OR, work bit by bit; immediate operands have sixteen bits. */
  lemma GatesByBits(i: Instruction, r: Regs, env: Env, k: nat) returns (x: Int32)
    requires 0 <= r[LOAD_REG] < 32 && IsGateOp(i.op) && k < 32
    ensures Gives(Exec(i, r, env), r, Dest(i), x)
    ensures Bit(Unsigned(x), k) <==> GateBit(i.op, Bit(Unsigned(r[i.rs]), k), SecondBit(i, r, k))
  {
    if IsImmOp(i.op) {
      x := GivesImm(i, r, env);
      ImmGate(i, r[i.rs], k);
    } else {
      x := GivesReg(i, r, env);
      RegGate(i, r, k);
    }
  }

  lemma RegGate(i: Instruction, r: Regs, k: nat)
    requires (i.op == AND || i.op == XOR || i.op == NOR) && k < 32
    ensures Bit(Unsigned(RegResult(i, r)), k) <==> GateBit(i.op, Bit(Unsigned(r[i.rs]), k), Bit(Unsigned(r[i.rt]), k))
  {
    BitOpBit(r[i.rs], r[i.rt], if i.op == AND then AndGate else if i.op == NOR then NorGate else XorGate, k);
  }

  lemma ImmGate(i: Instruction, a: Int32, k: nat)
    requires (i.op == ANDI || i.op == ORI || i.op == XORI) && k < 32
    ensures Bit(Unsigned(ImmResult(i, a)), k) <==> GateBit(i.op, Bit(Unsigned(a), k), k < 16 && Bit(Unsigned(i.extra), k))
  {
    BitOpBit(a, Low(i.extra, 0x1_0000), if i.op == ANDI then AndGate else if i.op == ORI then OrGate else XorGate, k);
    Pow2Half();
    LowBits(Unsigned(i.extra), 16, k);
  }

  lemma Pow2Half()
    ensures Pow2(16) == 0x1_0000
  {
    assert Pow2(4) == 16;
    Pow2Add(4, 4);
    Pow2Add(8, 8);
  }

  // x has every bit that y has.
  ghost predicate Covers(x: nat, y: nat) {
    forall k: nat :: k < 32 && Bit(y, k) ==> Bit(x, k)
  }

  /** OR combines rs with itself, so that it moves rs; that is the disjunction of rs and rt exactly when rt has no bit
      that rs lacks. */
  lemma OrRightIff(i: Instruction, r: Regs, env: Env)
    requires 0 <= r[LOAD_REG] < 32 && i.op == OR
    ensures Gives(Exec(i, r, env), r, i.rd, r[i.rs])
    ensures r[i.rs] == BitOp(r[i.rs], r[i.rt], OrGate) <==> Covers(Unsigned(r[i.rs]), Unsigned(r[i.rt]))
  {
    var x := GivesReg(i, r, env);
    OrSameIff(r[i.rs], r[i.rs]);
    OrSameIff(r[i.rs], r[i.rt]);
  }

  lemma OrSameIff(a: Int32, b: Int32)
    ensures BitOp(a, b, OrGate) == a <==> Covers(Unsigned(a), Unsigned(b))
  {
    if BitOp(a, b, OrGate) == a {
      forall k: nat | k < 32 && Bit(Unsigned(b), k)
        ensures Bit(Unsigned(a), k)
      {
        BitOpBit(a, b, OrGate, k);
      }
    } else if Covers(Unsigned(a), Unsigned(b)) {
      OrSame(a, b);
    }
  }

  lemma OrSame(a: Int32, b: Int32)
    requires Covers(Unsigned(a), Unsigned(b))
    ensures BitOp(a, b, OrGate) == a
  {
    forall k: nat | k < 32
      ensures Bit(Unsigned(BitOp(a, b, OrGate)), k) <==> Bit(Unsigned(a), k)
    {
      BitOpBit(a, b, OrGate, k);
    }
    Pow2Word();
    SameBits(Unsigned(BitOp(a, b, OrGate)), Unsigned(a), 32);
  }

  // ---- sums, differences and comparisons ----

  // x and y are one number to 32 bits.
  predicate Same32(x: int, y: int) {
    (x - y) % W == 0
  }

  lemma WrapSame(x: int)
    ensures Same32(Wrap(x), x)
  {
  }

  // The second operand of a sum or a comparison.
  function Second(i: Instruction, r: Regs): Int32 {
    if IsImmOp(i.op) || i.op == ADDI then i.extra else r[i.rt]
  }

  /** ADDU, SUBU and ADDIU give the sum and the difference modulo 2^32. */
  lemma SumsMod32(i: Instruction, r: Regs, env: Env) returns (x: Int32)
    requires 0 <= r[LOAD_REG] < 32 && (i.op == ADDU || i.op == SUBU || i.op == ADDIU)
    ensures Gives(Exec(i, r, env), r, Dest(i), x)
    ensures var a: int, b: int := r[i.rs], Second(i, r); Same32(x, if i.op == SUBU then a - b else a + b)
  {
    var a: int, b: int := r[i.rs], Second(i, r);
    WrapSame(if i.op == SUBU then a - b else a + b);
    if i.op == ADDIU {
      x := GivesImm(i, r, env);
    } else {
      x := GivesReg(i, r, env);
    }
  }

  /** ADD, SUB and ADDI give the exact sum and difference, and trap when 32 bits do not hold it. */
  lemma SumsOrTrap(i: Instruction, r: Regs, env: Env)
    requires 0 <= r[LOAD_REG] < 32 && (i.op == ADD || i.op == SUB || i.op == ADDI)
    ensures var a: int, b: int := r[i.rs], Second(i, r);
      var x := if i.op == SUB then a - b else a + b;
      if -0x8000_0000 <= x < 0x8000_0000 then Gives(Exec(i, r, env), r, Dest(i), x) else Exec(i, r, env).Trap?
  {
    OverflowIff(r[i.rs], Second(i, r));
  }

  /** SLT and SLTU tell 1 or 0; they disagree exactly on operands of different sign; and where SUB does not trap, SLT
      tells whether its difference is negative. */
  lemma Comparisons(i: Instruction, r: Regs, env: Env, x: Int32, y: Int32)
    requires 0 <= r[LOAD_REG] < 32
    requires Gives(Exec(i.(op := SLT), r, env), r, i.rd, x) && Gives(Exec(i.(op := SLTU), r, env), r, i.rd, y)
    ensures {x, y} <= {0, 1} && (x != y <==> (r[i.rs] < 0) != (r[i.rt] < 0))
    ensures forall d: Int32 :: Gives(Exec(i.(op := SUB), r, env), r, i.rd, d) ==> (x == 1 <==> d < 0)
  {
    var x' := GivesReg(i.(op := SLT), r, env);
    var y' := GivesReg(i.(op := SLTU), r, env);
    GivesOne(Exec(i.(op := SLT), r, env), r, i.rd, x, x');
    GivesOne(Exec(i.(op := SLTU), r, env), r, i.rd, y, y');
    forall d: Int32 | Gives(Exec(i.(op := SUB), r, env), r, i.rd, d)
      ensures x == 1 <==> d < 0
    {
      SumsOrTrap(i.(op := SUB), r, env);
      var a: int, b: int := r[i.rs], r[i.rt];
      GivesOne(Exec(i.(op := SUB), r, env), r, i.rd, d, a - b);
    }
  }

  lemma GivesOne(e: Effect, r: Regs, reg: Reg, x: Int32, y: Int32)
    requires Gives(e, r, reg, x) && Gives(e, r, reg, y)
    ensures x == y
  {
    assert r[reg := x][reg] == x && r[reg := y][reg] == y;
  }

  /** The immediate comparisons compare with the sign-extended immediate, SLTIU as unsigned words. */
  lemma ImmediateComparisons(i: Instruction, r: Regs, env: Env) returns (x: Int32)
    requires 0 <= r[LOAD_REG] < 32 && (i.op == SLTI || i.op == SLTIU)
    ensures Gives(Exec(i, r, env), r, i.rt, x) && (x == 0 || x == 1)
    ensures (r[i.rs] < 0) == (i.extra < 0) || i.op == SLTI ==> (x == 1 <==> r[i.rs] < i.extra)
    ensures (r[i.rs] < 0) != (i.extra < 0) && i.op == SLTIU ==> (x == 1 <==> i.extra < 0)
  {
    x := GivesImm(i, r, env);
  }

  // ---- shifts ----

  // x is b / p, rounded down.
  predicate Floor(b: int, p: nat, x: int) {
    x * p <= b < (x + 1) * p
  }

  lemma FloorHalf(b: int, p: nat, x: int)
    requires Floor(b / 2, p, x)
    ensures Floor(b, 2 * p, x)
  {
    assert x * (2 * p) == 2 * (x * p) && (x + 1) * (2 * p) == 2 * ((x + 1) * p);
  }

  lemma FloorOne(b: int, p: nat, x: int, y: int)
    requires Floor(b, p, x) && Floor(b, p, y)
    ensures x == y
  {
    assert x > y ==> x * p >= (y + 1) * p;
    assert y > x ==> y * p >= (x + 1) * p;
  }

  lemma FloorSign(b: int, p: nat, x: int)
    requires Floor(b, p, x)
    ensures x < 0 <==> b < 0
    ensures b >= 0 && p >= 2 ==> 2 * x <= b
  {
    assert x >= 0 ==> x * p >= 0;
    assert x <= -1 ==> (x + 1) * p <= 0;
    assert p >= 2 && x >= 0 ==> x * p >= x * 2;
  }

  lemma {:induction false} ShiftRightFloor(b: Int32, k: nat)
    ensures Floor(b, Pow2(k), ShiftRight(b, k))
    decreases k
  {
    if k > 0 {
      ShiftRightFloor(b / 2, k - 1);
      FloorHalf(b, Pow2(k - 1), ShiftRight(b, k));
    }
  }

  lemma DivisionFloor(u: nat, p: nat)
    requires p > 0
    ensures Floor(u, p, u / p)
  {
    assert (u / p + 1) * p == u / p * p + p;
  }

  // How far a shift goes: the shift amount of the word, or the low five bits of rs.
  function Distance(i: Instruction, r: Regs): (k: nat)
    ensures k < 32
  {
    if i.op == SLL || i.op == SRA || i.op == SRL then i.extra % 32 else r[i.rs] % 32
  }

  predicate IsShift(op: Op) {
    op == SLL || op == SLLV || op == SRA || op == SRAV || op == SRL || op == SRLV
  }

  // x is b shifted k bits: multiplied modulo 2^32, or divided and rounded down.
  predicate Shifted(op: Op, b: Int32, k: nat, x: Int32) {
    var y: int := b;
    if op == SLL || op == SLLV then Same32(x, y * Pow2(k)) else Floor(b, Pow2(k), x)
  }

  lemma ShiftValue(i: Instruction, b: Int32, k: nat)
    requires k < 32
    ensures Shifted(i.op, b, k, ShiftResult(i, b, k))
  {
    var y: int := b;
    WrapSame(y * Pow2(k));
    ShiftRightFloor(b, k);
  }

  lemma ShiftIs(i: Instruction, r: Regs)
    requires IsShift(i.op)
    ensures RegResult(i, r) == ShiftResult(i, r[i.rt], Distance(i, r))
  {
    assert ShiftAmount(i, r[i.rs]) == Distance(i, r);
  }

  /** A left shift multiplies modulo 2^32, a right shift divides and rounds down, a negative number too. */
  lemma ShiftsScale(i: Instruction, r: Regs, env: Env) returns (x: Int32)
    requires 0 <= r[LOAD_REG] < 32 && IsShift(i.op)
    ensures Gives(Exec(i, r, env), r, i.rd, x) && Shifted(i.op, r[i.rt], Distance(i, r), x)
  {
    x := GivesReg(i, r, env);
    ShiftIs(i, r);
    ShiftValue(i, r[i.rt], Distance(i, r));
  }

  // The shifts of a word read as signed and as unsigned agree exactly when it is not negative, or by nothing.
  lemma LogicalIff(b: Int32, p: nat, x: Int32, q: int)
    requires p >= 1 && Floor(b, p, x) && Floor(Unsigned(b), p, q)
    ensures Unsigned(x) == q <==> b >= 0 || p == 1
  {
    if b >= 0 {
      FloorSign(b, p, x);
      FloorOne(b, p, x, q);
    } else if p >= 2 {
      FloorSign(b, p, x);
      FloorSign(Unsigned(b), p, q);
    }
  }

  lemma LogicalShift(b: Int32, k: nat, x: Int32)
    requires Floor(b, Pow2(k), x)
    ensures Unsigned(x) == Unsigned(b) / Pow2(k) <==> b >= 0 || k == 0
  {
    DivisionFloor(Unsigned(b), Pow2(k));
    LogicalIff(b, Pow2(k), x, Unsigned(b) / Pow2(k));
  }

  /** SRL and SRLV shift a signed int, so that they bring in the sign where they should bring in zeros: right exactly
      for a number that is not negative, or a shift by nothing. */
  lemma SrlRightIff(i: Instruction, r: Regs, env: Env) returns (x: Int32)
    requires 0 <= r[LOAD_REG] < 32 && (i.op == SRL || i.op == SRLV)
    ensures Gives(Exec(i, r, env), r, i.rd, x)
    ensures Unsigned(x) == Unsigned(r[i.rt]) / Pow2(Distance(i, r)) <==> r[i.rt] >= 0 || Distance(i, r) == 0
  {
    x := ShiftsScale(i, r, env);
    LogicalShift(r[i.rt], Distance(i, r), x);
  }

  // ---- HI and LO ----

  // The quotient is rounded toward zero and the rest has the sign of a.
  predicate Divides(a: int, b: int, quotient: int, rest: int) {
    a == quotient * b + rest && Magnitude(rest) < Magnitude(b) && (rest == 0 || (rest < 0 <==> a < 0))
  }

  function Magnitude(b: int): nat {
    if b < 0 then -b else b
  }

  lemma QuotientDivides(a: int, b: int)
    requires b != 0
    ensures Divides(a, b, TruncDiv(a, b), a - TruncDiv(a, b) * b)
  {
  }

  lemma MagnitudeProduct(q: int, b: int)
    ensures Magnitude(q * b) == Magnitude(q) * Magnitude(b)
  {
  }

  lemma ProductAtLeast(m: nat, n: nat)
    ensures n >= 1 ==> m * n >= m
    ensures m >= 1 ==> m * n >= n
    ensures n >= 2 ==> m * n >= 2 * m
  {
  }

  lemma QuotientBound(a: int, b: int, q: int, rest: int)
    requires b != 0 && Divides(a, b, q, rest)
    ensures Magnitude(q) <= Magnitude(a) && (a != 0 && Magnitude(q) == Magnitude(a) ==> b == 1 || b == -1)
    ensures b == 1 ==> q == a
    ensures b == -1 ==> q + a == 0
  {
    MagnitudeProduct(q, b);
    ProductAtLeast(Magnitude(q), Magnitude(b));
    QuotientSizes(a, b, q, rest, q * b);
  }

  lemma QuotientSizes(a: int, b: int, q: int, rest: int, t: int)
    requires b != 0 && a == t + rest && Magnitude(rest) < Magnitude(b) && (rest == 0 || (rest < 0 <==> a < 0))
    requires Magnitude(t) >= Magnitude(q) && (q != 0 ==> Magnitude(t) >= Magnitude(b))
    requires Magnitude(b) >= 2 ==> Magnitude(t) >= 2 * Magnitude(q)
    ensures Magnitude(q) <= Magnitude(a) && (a != 0 && Magnitude(q) == Magnitude(a) ==> b == 1 || b == -1)
  {
  }

  /** DIV leaves quotient and rest, rounded toward zero, except that nothing holds the quotient of the least integer by
      -1; DIVU those of the unsigned words; and a divisor of 0 leaves zeros. */
  lemma DivisionMeans(i: Instruction, r: Regs, env: Env) returns (hi: Int32, lo: Int32)
    requires 0 <= r[LOAD_REG] < 32 && (i.op == DIV || i.op == DIVU)
    ensures GivesHiLo(Exec(i, r, env), r, hi, lo)
    ensures r[i.rt] == 0 ==> hi == lo == 0
    ensures i.op == DIV && r[i.rt] != 0 ==> (Divides(r[i.rs], r[i.rt], lo, hi) <==> r[i.rs] != -0x8000_0000 || r[i.rt] != -1)
    ensures i.op == DIVU && r[i.rt] != 0 ==> UDivides(r[i.rs], r[i.rt], lo, hi)
  {
    ExecHiLo(i, r, env);
    var e := HiLoResult(i, r);
    hi, lo := e[HI_REG], e[LO_REG];
    if i.op == DIV {
      DivValues(i, r);
    } else {
      DivuValues(i, r);
      if r[i.rt] != 0 {
        UnsignedWords(r[i.rs], r[i.rt]);
      }
    }
  }

  lemma DivValues(i: Instruction, r: Regs)
    requires i.op == DIV
    ensures var e := HiLoResult(i, r); e == r[HI_REG := e[HI_REG]][LO_REG := e[LO_REG]]
    ensures r[i.rt] == 0 ==> HiLoResult(i, r)[HI_REG] == HiLoResult(i, r)[LO_REG] == 0
    ensures r[i.rt] != 0 ==> (Divides(r[i.rs], r[i.rt], HiLoResult(i, r)[LO_REG], HiLoResult(i, r)[HI_REG])
      <==> r[i.rs] != -0x8000_0000 || r[i.rt] != -1)
  {
    var a: int, b: int := r[i.rs], r[i.rt];
    if b != 0 {
      var q := TruncDiv(a, b);
      QuotientDivides(a, b);
      QuotientBound(a, b, q, a - q * b);
      DivWraps(a, b, q, a - q * b);
    }
  }

  lemma DivWraps(a: Int32, b: Int32, q: int, rest: int)
    requires b != 0 && Divides(a, b, q, rest)
    requires Magnitude(q) <= Magnitude(a) && (a != 0 && Magnitude(q) == Magnitude(a) ==> b == 1 || b == -1)
    requires b == 1 ==> q == a
    requires b == -1 ==> q + a == 0
    ensures Wrap(rest) == rest
    ensures Divides(a, b, Wrap(q), rest) <==> a != -0x8000_0000 || b != -1
  {
    QuotientFits(a, b, q);
    if a == -0x8000_0000 && b == -1 {
      assert Wrap(q) == -0x8000_0000;
    }
  }

  lemma QuotientFits(a: Int32, b: Int32, q: int)
    requires Magnitude(q) <= Magnitude(a) && (a != 0 && Magnitude(q) == Magnitude(a) ==> b == 1 || b == -1)
    requires b == 1 ==> q == a
    requires b == -1 ==> q + a == 0
    ensures a != -0x8000_0000 || b != -1 ==> Wrap(q) == q
    ensures a == -0x8000_0000 && b == -1 ==> q == 0x8000_0000
  {
  }

  lemma DivuValues(i: Instruction, r: Regs)
    requires i.op == DIVU
    ensures HiLoResult(i, r) == if r[i.rt] == 0 then PutHiLo(r, 0, 0)
      else PutHiLo(r, Wrap(Unsigned(r[i.rs]) % Unsigned(r[i.rt])), Wrap(Unsigned(r[i.rs]) / Unsigned(r[i.rt])))
  {
  }

  // The same for unsigned words.
  predicate UDivides(a: Int32, b: Int32, quotient: Int32, rest: Int32) {
    Unsigned(a) == Unsigned(quotient) * Unsigned(b) + Unsigned(rest) && Unsigned(rest) < Unsigned(b)
  }

  lemma UnsignedWords(a: Int32, b: Int32)
    requires b != 0
    ensures UDivides(a, b, Wrap(Unsigned(a) / Unsigned(b)), Wrap(Unsigned(a) % Unsigned(b)))
  {
    var u, d := Unsigned(a), Unsigned(b);
    QuotientAtMost(u, d);
    WrapKeeps(u / d);
    WrapKeeps(u % d);
  }

  lemma QuotientAtMost(u: nat, d: nat)
    requires d > 0
    ensures u == u / d * d + u % d && 0 <= u / d <= u && u % d < d
  {
    ProductAtLeast(u / d, d);
  }

  lemma WrapKeeps(x: nat)
    requires x < W
    ensures Unsigned(Wrap(x)) == x
  {
  }

  // hi and lo are the two words of a product, of signed numbers or of unsigned words.
  predicate Multiplies(a: Int32, b: Int32, signedArith: bool, hi: Int32, lo: Int32) {
    var x: int, y: int, z: int := a, b, hi;
    if signedArith then z * W + Unsigned(lo) == x * y else Unsigned(hi) * W + Unsigned(lo) == Unsigned(a) * Unsigned(b)
  }

  /** MULT and MULTU leave the whole product, high word in HI, low word in LO. */
  lemma ProductMeans(i: Instruction, r: Regs, env: Env) returns (hi: Int32, lo: Int32)
    requires 0 <= r[LOAD_REG] < 32 && (i.op == MULT || i.op == MULTU)
    ensures GivesHiLo(Exec(i, r, env), r, hi, lo) && Multiplies(r[i.rs], r[i.rt], i.op == MULT, hi, lo)
  {
    ExecHiLo(i, r, env);
    hi, lo := Wrap(Product(r[i.rs], r[i.rt], i.op == MULT) / W), Wrap(Product(r[i.rs], r[i.rt], i.op == MULT));
    ProductWords(r[i.rs], r[i.rt], i.op == MULT);
  }

  lemma ProductWords(a: Int32, b: Int32, signedArith: bool)
    ensures var p := Product(a, b, signedArith); Multiplies(a, b, signedArith, Wrap(p / W), Wrap(p))
  {
    var x: int, y: int := a, b;
    SizeBound(x, y, 0x8000_0000);
    SizeBound(Unsigned(a), Unsigned(b), W - 1);
    WordsOf(Product(a, b, signedArith));
  }

  lemma WordsOf(p: int)
    ensures Unsigned(Wrap(p)) == p - p / W * W
    ensures -0x8000_0000 * W <= p < 0x8000_0000 * W ==> Wrap(p / W) == p / W
    ensures 0 <= p < W * W ==> Unsigned(Wrap(p / W)) == p / W
  {
  }

  lemma SizeBound(a: int, b: int, m: nat)
    requires Magnitude(a) <= m && Magnitude(b) <= m
    ensures Magnitude(a * b) <= m * m
  {
    MagnitudeProduct(a, b);
    SquareBound(Magnitude(a), Magnitude(b), m);
  }

  lemma SquareBound(x: nat, y: nat, m: nat)
    requires x <= m && y <= m
    ensures x * y <= m * m
  {
    assert x * y <= m * y;
    assert m * y <= m * m;
  }

  /** A value moved to HI or LO is read back from there and not from the other. */
  lemma HiLoMoves(i: Instruction, j: Instruction, r: Regs, env: Env) returns (r1: Regs, x: Int32)
    requires 0 <= r[LOAD_REG] < 32 && (i.op == MTHI || i.op == MTLO) && (j.op == MFHI || j.op == MFLO)
    ensures Exec(i, r, env).Next? && r1 == Exec(i, r, env).regs && r1[LOAD_REG] == r[LOAD_REG]
    ensures Gives(Exec(j, r1, env), r1, j.rd, x)
    ensures x == if (i.op == MTHI) == (j.op == MFHI) then r[i.rs] else if j.op == MFHI then r[HI_REG] else r[LO_REG]
  {
    ExecHiLo(i, r, env);
    r1 := HiLoResult(i, r);
    x := GivesReg(j, r1, env);
  }

  // ---- constants ----

  lemma {:induction false} OrZero(x: nat, n: nat)
    requires x < Pow2(n)
    ensures Bitwise(x, 0, n, OrGate) == x
    decreases n
  {
    if n > 0 {
      OrZero(x / 2, n - 1);
    }
  }

  lemma Twice(x: nat, p: nat)
    ensures x * (2 * p) == 2 * (x * p)
  {
  }

  lemma {:induction false} OrHalves(x: nat, y: nat, n: nat)
    requires n > 0
    ensures Bitwise(2 * x, y, n, OrGate) == 2 * Bitwise(x, y / 2, n - 1, OrGate) + y % 2
  {
    assert 2 * x / 2 == x && 2 * x % 2 == 0;
  }

  lemma {:induction false} OrDoubled(h: nat, h2: nat, y: nat, n: nat)
    requires n > 0 && h2 == 2 * h && Bitwise(h, y / 2, n - 1, OrGate) == h + y / 2
    ensures Bitwise(h2, y, n, OrGate) == h2 + y
  {
    OrHalves(h, y, n);
  }

  // Numbers without a bit in common are added.
  lemma {:induction false} OrAdds(high: nat, low: nat, m: nat, n: nat)
    requires high < Pow2(n) && low < Pow2(m)
    ensures Bitwise(high * Pow2(m), low, m + n, OrGate) == high * Pow2(m) + low
    decreases m
  {
    if m == 0 {
      OrZero(high, n);
    } else {
      OrAdds(high, low / 2, m - 1, n);
      Twice(high, Pow2(m - 1));
      OrDoubled(high * Pow2(m - 1), high * Pow2(m), low, m + n);
    }
  }

  function HighPart(v: Int32): (h: Int32)
    ensures Unsigned(h) == Unsigned(v) / 0x1_0000 * 0x1_0000
  {
    Signed(Unsigned(v) / 0x1_0000 * 0x1_0000)
  }

  lemma LuiValue(i: Instruction, a: Int32, v: Int32)
    requires i.op == LUI && Unsigned(i.extra) % 0x1_0000 == Unsigned(v) / 0x1_0000
    ensures ImmResult(i, a) == HighPart(v)
  {
    var e: int, high := i.extra, Unsigned(v) / 0x1_0000;
    assert e % 0x1_0000 == high;
    assert e == e / 0x1_0000 * 0x1_0000 + high;
    assert e * 0x1_0000 % W == high * 0x1_0000;
  }

  lemma OriValue(j: Instruction, v: Int32)
    requires j.op == ORI && Unsigned(j.extra) % 0x1_0000 == Unsigned(v) % 0x1_0000
    ensures ImmResult(j, HighPart(v)) == v
  {
    Pow2Half();
    OrAdds(Unsigned(v) / 0x1_0000, Unsigned(v) % 0x1_0000, 16, 16);
  }

  /** LUI and then ORI on the same register build any word from its two halves. */
  lemma ConstantBuilt(i: Instruction, j: Instruction, r: Regs, env: Env, v: Int32)
    requires 0 <= r[LOAD_REG] < 32 && i.op == LUI && j.op == ORI && j.rs == i.rt
    requires Unsigned(i.extra) % 0x1_0000 == Unsigned(v) / 0x1_0000 && Unsigned(j.extra) % 0x1_0000 == Unsigned(v) % 0x1_0000
    ensures Exec(i, r, env).Next?
    ensures var r1 := Exec(i, r, env).regs; r1[LOAD_REG] == r[LOAD_REG] && Gives(Exec(j, r1, env), r1, j.rt, v)
  {
    var x := GivesImm(i, r, env);
    LuiValue(i, r[i.rs], v);
    var y := GivesImm(j, r[i.rt := x], env);
    OriValue(j, v);
  }

  // ---- branches and calls ----

  // The branch whose condition is the opposite.
  function Opposite(op: Op): Op {
    if op == BEQ then BNE else if op == BNE then BEQ else if op == BGTZ then BLEZ else if op == BLEZ then BGTZ
    else if op == BGEZ then BLTZ else if op == BLTZ then BGEZ else if op == BGEZAL then BLTZAL else BGEZAL
  }

  predicate IsConditional(op: Op) {
    IsBranch(op) && op != J && op != JAL && op != JR && op != JALR
  }

  // Where a conditional branch ends: at its target, counted in words from the delay slot, or behind the delay slot.
  predicate Lands(e: Effect, r: Regs, extra: Int32, taken: bool) {
    var pc: int, x: int := r[NEXT_PC_REG], extra;
    e.Next? && Same32(e.pcAfter, if taken then pc + 4 * x else pc + 4)
  }

  /** A conditional branch and its opposite: one of them goes to the target and the other does not. */
  lemma OppositeBranches(i: Instruction, r: Regs, env: Env) returns (taken: bool)
    requires 0 <= r[LOAD_REG] < 32 && IsConditional(i.op)
    ensures Lands(Exec(i, r, env), r, i.extra, taken) && Lands(Exec(i.(op := Opposite(i.op)), r, env), r, i.extra, !taken)
    ensures i.op == BEQ ==> (taken <==> r[i.rs] == r[i.rt])
    ensures i.op == BGTZ ==> (taken <==> r[i.rs] > 0)
    ensures i.op == BGEZ || (i.op == BGEZAL && i.rs != 31) ==> (taken <==> r[i.rs] >= 0)
  {
    var j := i.(op := Opposite(i.op));
    var pc: int, x: int := r[NEXT_PC_REG], i.extra;
    ExecBranch(i, r, env);
    ExecBranch(j, r, env);
    taken := Taken(i, Linked(i, r));
    WrapSame(pc + 4 * x);
    WrapSame(pc + 4);
    assert Linked(i, r) == Linked(j, r);
  }

  /** A jump keeps the four upper bits of the address behind its delay slot; the rest is its target in words. */
  lemma JumpLands(i: Instruction, r: Regs, env: Env)
    requires 0 <= r[LOAD_REG] < 32 && (i.op == J || i.op == JAL) && 0 <= i.extra < 0x400_0000
    ensures Exec(i, r, env).Next?
    ensures var pc: int, to := r[NEXT_PC_REG], Unsigned(Exec(i, r, env).pcAfter);
      to / 0x1000_0000 == (pc + 4) % W / 0x1000_0000 && to % 0x1000_0000 == 4 * i.extra
  {
    ExecBranch(i, r, env);
    var pc: int := r[NEXT_PC_REG];
    JumpValue(pc + 4, i.extra);
  }

  lemma JumpValue(pc: int, extra: Int32)
    requires 0 <= extra < 0x400_0000
    ensures var to := Unsigned(JumpTo(Wrap(pc), extra));
      to / 0x1000_0000 == pc % W / 0x1000_0000 && to % 0x1000_0000 == 4 * extra
  {
    assert Unsigned(Wrap(pc)) == pc % W && Unsigned(Wrap(4 * extra)) % 0x1000_0000 == 4 * extra;
    var high := pc % W / 0x1000_0000;
    WrapKeeps(high * 0x1000_0000 + 4 * extra);
    Split(high, 4 * extra, 0x1000_0000);
  }

  predicate IsCall(op: Op) {
    op == JAL || op == JALR || op == BGEZAL || op == BLTZAL
  }

  function LinkReg(i: Instruction): Reg {
    if i.op == JALR then i.rd else 31
  }

  /** A call returns: JR on the link register, whatever ran in between, goes behind the delay slot of the call. */
  lemma CallReturns(i: Instruction, j: Instruction, r: Regs, r2: Regs, env: Env)
    requires 0 <= r[LOAD_REG] < 32 && 0 <= r2[LOAD_REG] < 32 && IsCall(i.op) && j.op == JR && j.rs == LinkReg(i)
    requires Exec(i, r, env).Next? ==> r2[LinkReg(i)] == Exec(i, r, env).regs[LinkReg(i)]
    ensures Exec(j, r2, env).Next?
    ensures var pc: int := r[NEXT_PC_REG]; Same32(Exec(j, r2, env).pcAfter, pc + 4)
  {
    var pc: int := r[NEXT_PC_REG];
    WrapSame(pc + 4);
    ExecBranch(i, r, env);
    ExecBranch(j, r2, env);
  }

  /** JALR writes the return address before it reads its target: it goes where rs says exactly when rd is another
      register, or rs already holds the return address. */
  lemma JalrRightIff(i: Instruction, r: Regs, env: Env)
    requires 0 <= r[LOAD_REG] < 32 && i.op == JALR
    ensures Exec(i, r, env).Next?
    ensures var pc: int, a: int := r[NEXT_PC_REG], r[i.rs];
      Exec(i, r, env).pcAfter == r[i.rs] <==> i.rd != i.rs || Same32(a, pc + 4)
  {
    ExecBranch(i, r, env);
  }

  /** The delay slot: the instruction behind a branch is executed, and only then the target. */
  lemma DelaySlot(r: Regs, env1: Env, env2: Env)
    requires RegsOk(r) && Fetched(r, env1).Next? && env1.fetch(r[PC_REG]).Value?
    ensures OneInstruction(r, env1).Running?
    ensures var r1 := OneInstruction(r, env1).regs;
      && r1[PC_REG] == r[NEXT_PC_REG] && r1[PREV_PC_REG] == r[PC_REG] && 0 <= r1[LOAD_REG] < 32
      && (Fetched(r1, env2).Next? && env2.fetch(r1[PC_REG]).Value? ==>
            OneInstruction(r1, env2).Running? && OneInstruction(r1, env2).regs[PC_REG] == Fetched(r, env1).pcAfter)
  {
    Advances(r, env1);
    Advances(OneInstruction(r, env1).regs, env2);
  }

  lemma Advances(r: Regs, env: Env)
    requires 0 <= r[LOAD_REG] < 32
    ensures Fetched(r, env).Next? && env.fetch(r[PC_REG]).Value? ==>
      && OneInstruction(r, env).Running?
      && var r1 := OneInstruction(r, env).regs;
         && r1[PC_REG] == r[NEXT_PC_REG] && r1[PREV_PC_REG] == r[PC_REG] && 0 <= r1[LOAD_REG] < 32
         && r1[NEXT_PC_REG] == Fetched(r, env).pcAfter
  {
    if env.fetch(r[PC_REG]).Value? {
      ExecKeepsLoad(Decode(env.fetch(r[PC_REG]).v), r, env);
    }
  }

  // ---- loads and stores ----

  lemma AddressSame(i: Instruction, r: Regs)
    ensures var base: int, x: int := r[i.rs], i.extra; Same32(Address(i, r), base + x)
  {
    var base: int, x: int := r[i.rs], i.extra;
    WrapSame(base + x);
  }

  // The number a load makes of the n bytes that memory answers with.
  predicate Extends(x: Int32, v: Int32, n: nat, signed: bool) {
    && n > 0 && (x - v) % n == 0
    && if signed then 0 <= 2 * x + n < 2 * n else 0 <= x < n
  }

  /** A byte or a half word is sign-extended by LB and LH and zero-extended by LBU and LHU; a word is loaded as it is;
      LWR puts the top byte of the word under the upper bytes of the register, a pending load of it included. */
  lemma LoadsMean(i: Instruction, r: Regs, env: Env, addr: Int32, v: Int32)
    requires 0 <= r[LOAD_REG] < 32 && IsLoad(i.op)
    requires var base: int, x: int := r[i.rs], i.extra; Same32(addr, base + x)
    requires Aligned(addr, BytesOf(i.op)) && env.load(addr, BytesOf(i.op)) == Value(v)
    ensures var e := Exec(i, r, env);
      && e.Next? && e.regs == r && e.loadReg == i.rt
      && (i.op == LB || i.op == LBU ==> Extends(e.loadValue, v, 0x100, i.op == LB))
      && (i.op == LH || i.op == LHU ==> Extends(e.loadValue, v, 0x1_0000, i.op == LH))
      && (i.op == LW || i.op == LWL ==> e.loadValue == v)
      && (i.op == LWR ==>
            && Unsigned(e.loadValue) % 0x100 == Unsigned(v) / 0x100_0000
            && Unsigned(e.loadValue) / 0x100 == Unsigned(Before(i, r)) / 0x100)
  {
    AddressSame(i, r);
    LoadGives(i, r, env, v);
    LoadedMeans(i, r, v);
  }

  lemma LoadGives(i: Instruction, r: Regs, env: Env, v: Int32)
    requires 0 <= r[LOAD_REG] < 32 && IsLoad(i.op)
    requires Aligned(Address(i, r), BytesOf(i.op)) && env.load(Address(i, r), BytesOf(i.op)) == Value(v)
    ensures var pc: int := r[NEXT_PC_REG]; Exec(i, r, env) == Next(r, Wrap(pc + 4), i.rt, Loaded(i, r, v))
  {
    assert Exec(i, r, env) == Load(i, r, env);
    assert Size(i.op) == BytesOf(i.op);
    AlignedLow(Address(i, r), BytesOf(i.op));
  }

  lemma AlignedLow(addr: Int32, n: int)
    requires Aligned(addr, n)
    ensures (n == 2 ==> Low(addr, 2) == 0) && (n == 4 ==> Low(addr, 4) == 0)
  {
  }

  lemma LoadedMeans(i: Instruction, r: Regs, v: Int32)
    requires IsLoad(i.op)
    ensures var x := Loaded(i, r, v);
      && (i.op == LB || i.op == LBU ==> Extends(x, v, 0x100, i.op == LB))
      && (i.op == LH || i.op == LHU ==> Extends(x, v, 0x1_0000, i.op == LH))
      && (i.op == LW || i.op == LWL ==> x == v)
      && (i.op == LWR ==> Unsigned(x) % 0x100 == Unsigned(v) / 0x100_0000 && Unsigned(x) / 0x100 == Unsigned(Before(i, r)) / 0x100)
  {
    LowByte(Unsigned(Before(i, r)), Unsigned(v) / 0x100_0000);
    ExtendsByte(v);
    ExtendsHalf(v);
  }

  lemma ExtendsByte(v: Int32)
    ensures Extends(Low(v, 0x100), v, 0x100, false)
    ensures var x := Low(v, 0x100); Extends(if x >= 0x80 then x - 0x100 else x, v, 0x100, true)
  {
    assert Unsigned(v) == Unsigned(v) / 0x100 * 0x100 + Low(v, 0x100);
  }

  lemma ExtendsHalf(v: Int32)
    ensures Extends(Low(v, 0x1_0000), v, 0x1_0000, false)
    ensures var x := Low(v, 0x1_0000); Extends(if x >= 0x8000 then x - 0x1_0000 else x, v, 0x1_0000, true)
  {
    assert Unsigned(v) == Unsigned(v) / 0x1_0000 * 0x1_0000 + Low(v, 0x1_0000);
  }

  // What rt holds for a load: a load of it that is pending counts.
  function Before(i: Instruction, r: Regs): Int32 {
    if r[LOAD_REG] == i.rt then r[LOAD_VALUE_REG] else r[i.rt]
  }

  lemma LowByte(u: nat, b: nat)
    requires u < W && b < 0x100
    ensures var x := Unsigned(Wrap(u / 0x100 * 0x100 + b)); x % 0x100 == b && x / 0x100 == u / 0x100
  {
  }

  predicate Aligned(addr: Int32, n: int) {
    (n == 2 ==> addr % 2 == 0) && (n == 4 ==> addr % 4 == 0)
  }

  function BytesOf(op: Op): int {
    if op == LB || op == LBU || op == SB then 1 else if op == LH || op == LHU || op == SH then 2 else 4
  }

  /** SB, SH and SW hand the register to memory, and trap exactly when memory refuses it; SWR replaces the top byte of
      the word by the low byte of the register, so that LWR brings that byte back. */
  lemma StoresMean(i: Instruction, r: Regs, env: Env, addr: Int32, v: Int32)
    requires 0 <= r[LOAD_REG] < 32 && IsStore(i.op)
    requires var base: int, x: int := r[i.rs], i.extra; Same32(addr, base + x)
    requires i.op == SWL || i.op == SWR ==> addr % 4 == 0 && env.load(addr, 4) == Value(v)
    ensures i.op != SWR ==> (Exec(i, r, env).Next? <==> env.store(addr, BytesOf(i.op), r[i.rt]))
    ensures i.op == SWR ==> exists w: Int32 ::
      && Unsigned(w) / 0x100_0000 == Unsigned(r[i.rt]) % 0x100 && Unsigned(w) % 0x100_0000 == Unsigned(v) % 0x100_0000
      && (Exec(i, r, env).Next? <==> env.store(addr, 4, w))
    ensures Exec(i, r, env).Next? ==> Exec(i, r, env).regs == r
  {
    AddressSame(i, r);
    assert Address(i, r) == addr;
    MergedWord(v, r[i.rt]);
  }

  lemma MergedWord(v: Int32, x: Int32)
    ensures Unsigned(Merged(v, x)) / 0x100_0000 == Unsigned(x) % 0x100
    ensures Unsigned(Merged(v, x)) % 0x100_0000 == Unsigned(v) % 0x100_0000
  {
    var high, low := Unsigned(x) % 0x100, Unsigned(v) % 0x100_0000;
    WrapKeeps(low + high * 0x100_0000);
    Split(high, low, 0x100_0000);
  }

  // The kernel is entered with the address reported and the pending load brought in.
  ghost predicate Reports(e: Effect, r: Regs, env: Env, addr: Int32)
    requires 0 <= r[LOAD_REG] < 32
  {
    exists r': Regs :: Brought(r, r', addr) && e == Trap(env.kernel(r'))
  }

  predicate Brought(r: Regs, r': Regs, addr: Int32)
    requires 0 <= r[LOAD_REG] < 32
  {
    && r'[BAD_VADDR_REG] == addr && r'[LOAD_REG] == 0
    && forall k :: 0 < k < 37 ==> r'[k] == if k == r[LOAD_REG] then r[LOAD_VALUE_REG] else r[k]
  }

  lemma RaiseReports(r: Regs, addr: Int32, env: Env)
    requires 0 <= r[LOAD_REG] < 32
    ensures Reports(Raise(r, addr, env), r, env, addr)
  {
    var r' := DelayedLoad(r[BAD_VADDR_REG := addr], 0, 0);
    assert Brought(r, r', addr);
  }

  /** A load or store that memory refuses, and a misaligned LH, LHU or LW, enters the kernel with its address in
      BadVAddr and every other register as the program left it, a load that was pending included. */
  lemma FaultsReport(i: Instruction, r: Regs, env: Env)
    requires 0 <= r[LOAD_REG] < 32 && (IsLoad(i.op) || IsStore(i.op))
    ensures Exec(i, r, env).Trap? ==> Reports(Exec(i, r, env), r, env, Address(i, r))
  {
    RaiseReports(r, Address(i, r), env);
  }

  // ---- encodings ----

  // How the R2000 encodes an operation: the upper six bits of the word, and for code 0 the lower six, for code 1 rt.
  datatype Encoding = Plain(code: nat) | Special(funct: nat) | Bcond(rt: Reg) | NoEncoding

  function EncodingOf(op: Op): Encoding {
    if op == J then Plain(2) else if op == JAL then Plain(3)
    else if op == BEQ then Plain(4) else if op == BNE then Plain(5)
    else if op == BLEZ then Plain(6) else if op == BGTZ then Plain(7)
    else if op == ADDI then Plain(8) else if op == ADDIU then Plain(9)
    else if op == SLTI then Plain(10) else if op == SLTIU then Plain(11)
    else if op == ANDI then Plain(12) else if op == ORI then Plain(13)
    else if op == XORI then Plain(14) else if op == LUI then Plain(15)
    else if IsLoad(op) then Plain(32 + LoadCode(op))
    else if IsStore(op) then Plain(40 + StoreCode(op))
    else if op == BLTZ then Bcond(0) else if op == BGEZ then Bcond(1)
    else if op == BLTZAL then Bcond(16) else if op == BGEZAL then Bcond(17)
    else SpecialOf(op)
  }

  // Byte, half word, left, word; plus four for unsigned, and six for right.
  function LoadCode(op: Op): nat {
    if op == LB then 0 else if op == LH then 1 else if op == LWL then 2 else if op == LW then 3
    else if op == LBU then 4 else if op == LHU then 5 else 6
  }

  function StoreCode(op: Op): nat {
    if op == SB then 0 else if op == SH then 1 else if op == SWL then 2 else if op == SW then 3 else 6
  }

  function SpecialOf(op: Op): Encoding {
    if op == SLL then Special(0) else if op == SRL then Special(2) else if op == SRA then Special(3)
    else if op == SLLV then Special(4) else if op == SRLV then Special(6) else if op == SRAV then Special(7)
    else if op == JR then Special(8) else if op == JALR then Special(9) else if op == SYSCALL then Special(12)
    else if op == MFHI then Special(16) else if op == MTHI then Special(17)
    else if op == MFLO then Special(18) else if op == MTLO then Special(19)
    else if op == MULT then Special(24) else if op == MULTU then Special(25)
    else if op == DIV then Special(26) else if op == DIVU then Special(27)
    else if op == ADD then Special(32) else if op == ADDU then Special(33)
    else if op == SUB then Special(34) else if op == SUBU then Special(35)
    else if op == AND then Special(36) else if op == OR then Special(37)
    else if op == XOR then Special(38) else if op == NOR then Special(39)
    else if op == SLT then Special(42) else if op == SLTU then Special(43)
    else NoEncoding
  }

  // The word holds the encoding, in its code, its funct and its rt.
  predicate Encodes(code: nat, rt: Reg, funct: nat, e: Encoding) {
    match e
    case Plain(c) => code == c
    case Special(f) => code == 0 && funct == f
    case Bcond(t) => code == 1 && rt == t
    case NoEncoding => false
  }

  lemma PlainDecodes(code: nat, op: Op)
    requires EncodingOf(op) == Plain(code)
    ensures code < 64 && OpTable(code) == op && code > 1
  {
  }

  lemma SpecialDecodes(funct: nat, op: Op)
    requires EncodingOf(op) == Special(funct)
    ensures SpecialTable(funct) == op
  {
  }

  lemma BcondDecodes(rt: Reg, op: Op)
    requires EncodingOf(op) == Bcond(rt)
    ensures BcondOp(rt) == op
  {
  }

  /** Every word that encodes an operation is decoded to that operation. */
  lemma AssembledDecodes(op: Op, code: nat, rs: Reg, rt: Reg, rd: Reg, shamt: nat, funct: nat)
    requires code < 64 && shamt < 32 && funct < 64 && Encodes(code, rt, funct, EncodingOf(op))
    ensures Decode(Signed(Word(code, rs, rt, rd, shamt, funct))).op == op
  {
    DecodeFields(code, rs, rt, rd, shamt, funct);
    match EncodingOf(op)
    case Plain(_) => PlainDecodes(code, op);
    case Special(_) => SpecialDecodes(funct, op);
    case Bcond(_) => BcondDecodes(rt, op);
    case NoEncoding =>
  }
}
