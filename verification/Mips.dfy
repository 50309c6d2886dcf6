/** The MIPS interpreter (machine/mipssim.cc, mipssim.h, machine.cc): Decode, OneInstruction and
    DelayedLoad over the forty simulated registers.

    Memory and the kernel are the environment: what a fetch or a load answers, whether a store
    succeeds, and what the exception handler does to the registers. */
module Mips {
  import opened Basics
  import opened Bytes
  import opened Multiply

  type Regs = r: seq<Int32> | |r| == 40 witness seq(40, _ => 0)
  type Reg = k: int | 0 <= k < 32

  const HI_REG := 32
  const LO_REG := 33
  const PC_REG := 34
  const NEXT_PC_REG := 35
  const PREV_PC_REG := 36
  const LOAD_REG := 37
  const LOAD_VALUE_REG := 38
  const BAD_VADDR_REG := 39

  // ---- decoding ----

  // The opcodes as mipssim.h numbers them.
  type Op = int

  const ADD := 1
  const ADDI := 2
  const ADDIU := 3
  const ADDU := 4
  const AND := 5
  const ANDI := 6
  const BEQ := 7
  const BGEZ := 8
  const BGEZAL := 9
  const BGTZ := 10
  const BLEZ := 11
  const BLTZ := 12
  const BLTZAL := 13
  const BNE := 14
  const DIV := 16
  const DIVU := 17
  const J := 18
  const JAL := 19
  const JALR := 20
  const JR := 21
  const LB := 22
  const LBU := 23
  const LH := 24
  const LHU := 25
  const LUI := 26
  const LW := 27
  const LWL := 28
  const LWR := 29
  const MFHI := 31
  const MFLO := 32
  const MTHI := 34
  const MTLO := 35
  const MULT := 36
  const MULTU := 37
  const NOR := 38
  const OR := 39
  const ORI := 40
  const RFE := 41
  const SB := 42
  const SH := 43
  const SLL := 44
  const SLLV := 45
  const SLT := 46
  const SLTI := 47
  const SLTIU := 48
  const SLTU := 49
  const SRA := 50
  const SRAV := 51
  const SRL := 52
  const SRLV := 53
  const SUB := 54
  const SUBU := 55
  const SW := 56
  const SWL := 57
  const SWR := 58
  const XOR := 59
  const XORI := 60
  const SYSCALL := 61
  const UNIMP := 62
  const RES := 63
  const SPECIAL := 100
  const BCOND := 101

  datatype Format = IFMT | JFMT | RFMT

  datatype Instruction = Instruction(op: Op, rs: Reg, rt: Reg, rd: Reg, extra: Int32)

  // The opcode table, by bits 31 to 26 of the word.
  function OpTable(i: nat): Op {
    match i
    case 0 => SPECIAL case 1 => BCOND case 2 => J case 3 => JAL
    case 4 => BEQ case 5 => BNE case 6 => BLEZ case 7 => BGTZ
    case 8 => ADDI case 9 => ADDIU case 10 => SLTI case 11 => SLTIU
    case 12 => ANDI case 13 => ORI case 14 => XORI case 15 => LUI
    case 32 => LB case 33 => LH case 34 => LWL case 35 => LW
    case 36 => LBU case 37 => LHU case 38 => LWR
    case 40 => SB case 41 => SH case 42 => SWL case 43 => SW case 46 => SWR
    case _ => if 16 <= i < 20 || 48 <= i < 52 || 56 <= i < 60 then UNIMP else RES
  }

  function FormatOf(op: Op): Format {
    if op == SPECIAL then RFMT else if op == J || op == JAL then JFMT else IFMT
  }

  // The table for SPECIAL words, by bits 5 to 0.
  function SpecialTable(i: nat): Op {
    match i
    case 0 => SLL case 2 => SRL case 3 => SRA case 4 => SLLV case 6 => SRLV case 7 => SRAV
    case 8 => JR case 9 => JALR case 12 => SYSCALL case 13 => UNIMP
    case 16 => MFHI case 17 => MTHI case 18 => MFLO case 19 => MTLO
    case 24 => MULT case 25 => MULTU case 26 => DIV case 27 => DIVU
    case 32 => ADD case 33 => ADDU case 34 => SUB case 35 => SUBU
    case 36 => AND case 37 => OR case 38 => XOR case 39 => NOR case 42 => SLT case 43 => SLTU
    case _ => RES
  }

  function BcondOp(rt: Reg): Op {
    if rt == 0 then BLTZ else if rt == 1 then BGEZ else if rt == 16 then BLTZAL else if rt == 17 then BGEZAL else UNIMP
  }

  function Decode(raw: Int32): Instruction {
    var u := Unsigned(raw);
    var rs, rt, rd := u / 0x20_0000 % 32, u / 0x1_0000 % 32, u / 0x800 % 32;
    var code := OpTable(u / 0x400_0000);
    var extra := Extra(u, FormatOf(code));
    var op := if code == SPECIAL then SpecialTable(u % 64) else if code == BCOND then BcondOp(rt) else code;
    Instruction(op, rs, rt, rd, extra)
  }

  function Extra(u: nat, format: Format): Int32
    requires u < W
  {
    match format
    case IFMT => if u % 0x1_0000 < 0x8000 then u % 0x1_0000 else u % 0x1_0000 - 0x1_0000
    case RFMT => u / 64 % 32
    case JFMT => u % 0x400_0000
  }

  // The opcodes that have a case in OneInstruction's switch.
  predicate Handled(op: Op) {
    1 <= op <= 14 || 16 <= op <= 29 || op == 31 || op == 32 || 34 <= op <= 40 || 42 <= op <= 63
  }

  /** Every word decodes to an opcode the switch handles. */
  lemma DecodeHandled(raw: Int32)
    ensures Handled(Decode(raw).op)
  {
  }

  /** Decode takes a word apart where the formats put it together: whatever the fields, they come back. */
  lemma DecodeFields(code: nat, rs: Reg, rt: Reg, rd: Reg, shamt: nat, funct: nat)
    requires code < 64 && shamt < 32 && funct < 64
    ensures var i := Decode(Signed(Word(code, rs, rt, rd, shamt, funct)));
      && i.rs == rs && i.rt == rt && i.rd == rd
      && i.op == (if code == 0 then SpecialTable(funct) else if code == 1 then BcondOp(rt) else OpTable(code))
  {
    WordFields(code, rs, rt, rd, shamt, funct);
  }

  /** The extra is the shift amount of a register word, the target of a jump, or else the signed low half. */
  lemma DecodeExtra(code: nat, rs: Reg, rt: Reg, rd: Reg, shamt: nat, funct: nat)
    requires code < 64 && shamt < 32 && funct < 64
    ensures var extra := Decode(Signed(Word(code, rs, rt, rd, shamt, funct))).extra;
      if code == 0 then extra == shamt
      else if code == 2 || code == 3 then extra == rs * 0x20_0000 + rt * 0x1_0000 + rd * 0x800 + shamt * 64 + funct
      else -0x8000 <= extra < 0x8000 && extra == rd * 0x800 + shamt * 64 + funct - (if rd >= 16 then 0x1_0000 else 0)
  {
    WordFields(code, rs, rt, rd, shamt, funct);
  }

  // The word with these fields.
  function Word(code: nat, rs: Reg, rt: Reg, rd: Reg, shamt: nat, funct: nat): (u: nat)
    requires code < 64 && shamt < 32 && funct < 64
    ensures u < W
  {
    code * 0x400_0000 + rs * 0x20_0000 + rt * 0x1_0000 + rd * 0x800 + shamt * 64 + funct
  }

  lemma WordFields(code: nat, rs: Reg, rt: Reg, rd: Reg, shamt: nat, funct: nat)
    requires code < 64 && shamt < 32 && funct < 64
    ensures var u := Word(code, rs, rt, rd, shamt, funct);
      && u / 0x400_0000 == code && u / 0x20_0000 % 32 == rs && u / 0x1_0000 % 32 == rt && u / 0x800 % 32 == rd
      && u / 64 % 32 == shamt && u % 64 == funct
      && u % 0x1_0000 == rd * 0x800 + shamt * 64 + funct
      && u % 0x400_0000 == rs * 0x20_0000 + rt * 0x1_0000 + rd * 0x800 + shamt * 64 + funct
  {
    Split(code, rs * 0x20_0000 + rt * 0x1_0000 + rd * 0x800 + shamt * 64 + funct, 0x400_0000);
    Split(code * 32 + rs, rt * 0x1_0000 + rd * 0x800 + shamt * 64 + funct, 0x20_0000);
    Split((code * 32 + rs) * 32 + rt, rd * 0x800 + shamt * 64 + funct, 0x1_0000);
    Split(((code * 32 + rs) * 32 + rt) * 32 + rd, shamt * 64 + funct, 0x800);
    Split((((code * 32 + rs) * 32 + rt) * 32 + rd) * 32 + shamt, funct, 64);
    Split(code, rs, 32);
    Split(code * 32 + rs, rt, 32);
    Split((code * 32 + rs) * 32 + rt, rd, 32);
    Split(((code * 32 + rs) * 32 + rt) * 32 + rd, shamt, 32);
  }

  lemma Split(high: nat, low: nat, m: nat)
    requires low < m
    ensures (high * m + low) / m == high && (high * m + low) % m == low
  {
    var u := high * m + low;
    var x := u / m - high;
    assert x * m == low - u % m by {
      assert u == u / m * m + u % m;
      assert x * m == u / m * m - high * m;
    }
    assert x >= 1 ==> x * m >= m;
    assert x <= -1 ==> x * m + m <= 0;
  }

  // ---- arithmetic on 32 bits ----

  function Wrap(x: int): Int32 {
    Signed(x % W)
  }

  datatype Gate = AndGate | OrGate | XorGate | NorGate

  predicate Out(f: Gate, x: bool, y: bool) {
    match f
    case AndGate => x && y
    case OrGate => x || y
    case XorGate => x != y
    case NorGate => !(x || y)
  }

  // A bitwise operation on the low n bits.
  function Bitwise(x: nat, y: nat, n: nat, f: Gate): (r: nat)
    ensures r < Pow2(n)
    decreases n, x
  {
    if n == 0 then 0
    else 2 * Bitwise(x / 2, y / 2, n - 1, f) + (if Out(f, x % 2 == 1, y % 2 == 1) then 1 else 0)
  }

  function BitOp(a: Int32, b: Int32, f: Gate): Int32 {
    Pow2Word();
    Signed(Bitwise(Unsigned(a), Unsigned(b), 32, f))
  }

  function Low(x: Int32, n: nat): int
    requires n > 0
  {
    Unsigned(x) % n
  }

  // The overflow checks of ADD, ADDI and SUB look at sign bits.
  predicate AddOverflows(a: Int32, b: Int32) {
    (a < 0) == (b < 0) && (b < 0) != (Wrap(a + b) < 0)
  }

  predicate SubOverflows(a: Int32, b: Int32) {
    (a < 0) != (b < 0) && (a < 0) != (Wrap(a - b) < 0)
  }

  /** They find exactly the sums and differences that do not fit in 32 bits. */
  lemma OverflowIff(a: Int32, b: Int32)
    ensures AddOverflows(a, b) <==> !(-0x8000_0000 <= a + b < 0x8000_0000)
    ensures SubOverflows(a, b) <==> !(-0x8000_0000 <= a - b < 0x8000_0000)
    ensures !AddOverflows(a, b) ==> Wrap(a + b) == a + b
    ensures !SubOverflows(a, b) ==> Wrap(a - b) == a - b
  {
  }

  // C division by any divisor.
  function TruncDiv(a: int, b: int): int
    requires b != 0
  {
    if b > 0 then Quotient(a, b) else -Quotient(a, -b)
  }

  // What Multiply.Mult computes.
  function Product(a: Int32, b: Int32, signedArith: bool): int {
    if signedArith then a * b else Unsigned(a) * Unsigned(b)
  }

  // ---- one instruction ----

  datatype Answer = Value(v: Int32) | Fault

  // What memory answers to a fetch at an address, to a load at an address of so many bytes and to
  // a store of a value there, and what the kernel does to the registers when it handles an
  // exception.
  datatype Env = Env(
    fetch: Int32 -> Answer, load: (Int32, int) -> Answer, store: (Int32, int, Int32) -> bool, kernel: Regs -> Regs)

  // Next: the switch is left normally.  Trap: an exception was raised.  Abort: an assertion failed.
  datatype Effect = Next(regs: Regs, pcAfter: Int32, loadReg: Reg, loadValue: Int32) | Trap(regs: Regs) | Abort

  function DelayedLoad(r: Regs, nextReg: Reg, nextValue: Int32): Regs
    requires 0 <= r[LOAD_REG] < 32
  {
    r[r[LOAD_REG] := r[LOAD_VALUE_REG]][LOAD_REG := nextReg][LOAD_VALUE_REG := nextValue][0 := 0]
  }

  // The new value of rd, for the operations that put one there and cannot fail.
  function RegResult(i: Instruction, r: Regs): Int32 {
    var a: int, b: int := r[i.rs], r[i.rt];
    if i.op == ADDU then Wrap(a + b)
    else if i.op == SUBU then Wrap(a - b)
    else if i.op == AND then BitOp(a, b, AndGate)
    else if i.op == OR then BitOp(a, a, OrGate)
    else if i.op == XOR then BitOp(a, b, XorGate)
    else if i.op == NOR then BitOp(a, b, NorGate)
    else if i.op == SLT then (if a < b then 1 else 0)
    else if i.op == SLTU then (if Unsigned(a) < Unsigned(b) then 1 else 0)
    else if i.op == MFHI then r[HI_REG]
    else if i.op == MFLO then r[LO_REG]
    else ShiftResult(i, b, ShiftAmount(i, a))
  }

  function ShiftAmount(i: Instruction, a: Int32): (k: nat)
    ensures k < 32
  {
    if i.op == SLL || i.op == SRA || i.op == SRL then i.extra % 32 else Low(a, 32)
  }

  // The right shifts are all arithmetic.
  function ShiftResult(i: Instruction, b: Int32, k: nat): Int32
    requires k < 32
  {
    if i.op == SLL || i.op == SLLV then Wrap(b * Pow2(k)) else ShiftRight(b, k)
  }

  function ShiftRight(b: Int32, k: nat): Int32
    decreases k, b
  {
    if k == 0 then b else ShiftRight(b / 2, k - 1)
  }

  // The new value of rt, likewise.
  function ImmResult(i: Instruction, a: Int32): Int32 {
    var low: Int32 := Low(i.extra, 0x1_0000);
    if i.op == ADDIU then Wrap(a + i.extra)
    else if i.op == ANDI then BitOp(a, low, AndGate)
    else if i.op == ORI then BitOp(a, low, OrGate)
    else if i.op == XORI then BitOp(a, low, XorGate)
    else if i.op == SLTI then (if a < i.extra then 1 else 0)
    else if i.op == SLTIU then (if Unsigned(a) < Unsigned(i.extra) then 1 else 0)
    else Wrap(i.extra * 0x1_0000)
  }

  function PutHiLo(r: Regs, hi: Int32, lo: Int32): Regs {
    r[HI_REG := hi][LO_REG := lo]
  }

  function HiLoResult(i: Instruction, r: Regs): Regs {
    var a: int, b: int := r[i.rs], r[i.rt];
    if i.op == MTHI then r[HI_REG := a]
    else if i.op == MTLO then r[LO_REG := a]
    else if i.op == DIV then (if b == 0 then PutHiLo(r, 0, 0) else PutHiLo(r, Wrap(a - TruncDiv(a, b) * b), Wrap(TruncDiv(a, b))))
    else if i.op == DIVU then (if b == 0 then PutHiLo(r, 0, 0)
      else PutHiLo(r, Wrap(Unsigned(a) % Unsigned(b)), Wrap(Unsigned(a) / Unsigned(b))))
    else PutHiLo(r, Wrap(Product(a, b, i.op == MULT) / W), Wrap(Product(a, b, i.op == MULT)))
  }

  /** MULT and MULTU give what the shift-and-add loop computes. */
  lemma MultMatches(a: Int32, b: Int32, signedArith: bool, hi: Int32, lo: Int32)
    requires signedArith ==> hi * W + Unsigned(lo) == a * b
    requires !signedArith ==> Unsigned(hi) * W + Unsigned(lo) == Unsigned(a) * Unsigned(b)
    ensures hi == Wrap(Product(a, b, signedArith) / W) && lo == Wrap(Product(a, b, signedArith))
  {
    var p: int, h: int := Product(a, b, signedArith), if signedArith then hi else Unsigned(hi);
    assert p == h * W + Unsigned(lo);
    assert p / W == h && p % W == Unsigned(lo);
    assert h % W == Unsigned(hi);
  }

  // RaiseException: the pending load is finished before the kernel sees the registers.
  function Raise(r: Regs, badVAddr: Int32, env: Env): Effect
    requires 0 <= r[LOAD_REG] < 32
  {
    Trap(env.kernel(DelayedLoad(r[BAD_VADDR_REG := badVAddr], 0, 0)))
  }

  // The return address goes into its register before the condition or the target is read.
  function Linked(i: Instruction, r: Regs): Regs {
    var pc: int := r[NEXT_PC_REG];
    if i.op == BGEZAL || i.op == BLTZAL || i.op == JAL then r[31 := Wrap(pc + 4)]
    else if i.op == JALR then r[i.rd := Wrap(pc + 4)]
    else r
  }

  predicate Taken(i: Instruction, r: Regs) {
    var a, b := r[i.rs], r[i.rt];
    if i.op == BEQ then a == b
    else if i.op == BNE then a != b
    else if i.op == BGTZ then a > 0
    else if i.op == BLEZ then a <= 0
    else if i.op == BGEZ || i.op == BGEZAL then a >= 0
    else a < 0
  }

  function Target(i: Instruction, r: Regs): Int32 {
    var pc: int := r[NEXT_PC_REG];
    if i.op == J || i.op == JAL then JumpTo(Wrap(pc + 4), i.extra)
    else if i.op == JR || i.op == JALR then r[i.rs]
    else if Taken(i, r) then Wrap(pc + 4 * i.extra)
    else Wrap(pc + 4)
  }

  function Branch(i: Instruction, r: Regs): Effect {
    Next(Linked(i, r), Target(i, Linked(i, r)), 0, 0)
  }

  // The upper four bits of the address stay.
  function JumpTo(pc: Int32, extra: Int32): Int32 {
    Wrap(Unsigned(pc) / 0x1000_0000 * 0x1000_0000 + Unsigned(Wrap(4 * extra)) % 0x1000_0000)
  }

  function Address(i: Instruction, r: Regs): Int32 {
    var base: int := r[i.rs];
    Wrap(base + i.extra)
  }

  function Load(i: Instruction, r: Regs, env: Env): Effect
    requires 0 <= r[LOAD_REG] < 32
  {
    var addr, pc: int := Address(i, r), r[NEXT_PC_REG];
    if ((i.op == LH || i.op == LHU) && Low(addr, 2) != 0) || (i.op == LW && Low(addr, 4) != 0) then Raise(r, addr, env)
    else if (i.op == LWL || i.op == LWR) && Low(addr, 4) != 0 then Abort
    else
      match env.load(addr, Size(i.op))
      case Fault => Raise(r, addr, env)
      case Value(v) => Next(r, Wrap(pc + 4), i.rt, Loaded(i, r, v))
  }

  function Size(op: Op): int {
    if op == LB || op == LBU || op == SB then 1 else if op == LH || op == LHU || op == SH then 2 else 4
  }

  function Loaded(i: Instruction, r: Regs, v: Int32): Int32 {
    if i.op == LB then (var b := Low(v, 0x100); if b >= 0x80 then b - 0x100 else b)
    else if i.op == LBU then Low(v, 0x100)
    else if i.op == LH then (var b := Low(v, 0x1_0000); if b >= 0x8000 then b - 0x1_0000 else b)
    else if i.op == LHU then Low(v, 0x1_0000)
    else if i.op == LWR then (var old_ := if r[LOAD_REG] == i.rt then r[LOAD_VALUE_REG] else r[i.rt];
      Wrap(Unsigned(old_) / 0x100 * 0x100 + Unsigned(v) / 0x100_0000))
    else v
  }

  function Store(i: Instruction, r: Regs, env: Env): Effect
    requires 0 <= r[LOAD_REG] < 32
  {
    var addr := Address(i, r);
    if i.op == SWL || i.op == SWR then
      if Low(addr, 4) != 0 then Abort
      else
        match env.load(addr, 4)
        case Fault => Raise(r, addr, env)
        case Value(v) => StoreValue(r, addr, 4, if i.op == SWL then r[i.rt] else Merged(v, r[i.rt]), env)
    else StoreValue(r, addr, Size(i.op), r[i.rt], env)
  }

  // The top byte of the word in memory is replaced.
  function Merged(v: Int32, x: Int32): Int32 {
    Wrap(Low(v, 0x100_0000) + Low(x, 0x100) * 0x100_0000)
  }

  function StoreValue(r: Regs, addr: Int32, size: int, value: Int32, env: Env): Effect
    requires 0 <= r[LOAD_REG] < 32
  {
    var pc: int := r[NEXT_PC_REG];
    if env.store(addr, size, value) then Next(r, Wrap(pc + 4), 0, 0) else Raise(r, addr, env)
  }

  // The switch without its loads and stores; Abort is the default case.
  function ExecSimple(i: Instruction, r: Regs, env: Env): (e: Effect)
    requires 0 <= r[LOAD_REG] < 32
    ensures Handled(i.op) ==> !e.Abort?
  {
    var a: int, b: int, pc: int := r[i.rs], r[i.rt], r[NEXT_PC_REG];
    var pcAfter := Wrap(pc + 4);
    if i.op == ADD then ResultOrTrap(r, AddOverflows(a, b), i.rd, Wrap(a + b), env)
    else if i.op == SUB then ResultOrTrap(r, SubOverflows(a, b), i.rd, Wrap(a - b), env)
    else if i.op == ADDI then ResultOrTrap(r, AddOverflows(a, i.extra), i.rt, Wrap(a + i.extra), env)
    else if IsRegOp(i.op) then Next(r[i.rd := RegResult(i, r)], pcAfter, 0, 0)
    else if IsImmOp(i.op) then Next(r[i.rt := ImmResult(i, a)], pcAfter, 0, 0)
    else if IsHiLoOp(i.op) then Next(HiLoResult(i, r), pcAfter, 0, 0)
    else if IsBranch(i.op) then Branch(i, r)
    else if Handled(i.op) then Raise(r, 0, env)
    else Abort
  }

  // A sum or difference goes to its register unless it overflows.
  function ResultOrTrap(r: Regs, overflow: bool, reg: Reg, x: Int32, env: Env): Effect
    requires 0 <= r[LOAD_REG] < 32
  {
    var pc: int := r[NEXT_PC_REG];
    if overflow then Raise(r, 0, env) else Next(r[reg := x], Wrap(pc + 4), 0, 0)
  }

  predicate IsRegOp(op: Op) {
    || op == ADDU || op == SUBU || op == AND || op == OR || op == XOR || op == NOR || op == SLT || op == SLTU
    || op == MFHI || op == MFLO || op == SLL || op == SLLV || op == SRA || op == SRAV || op == SRL || op == SRLV
  }

  predicate IsImmOp(op: Op) {
    op == ADDIU || op == ANDI || op == ORI || op == XORI || op == SLTI || op == SLTIU || op == LUI
  }

  predicate IsHiLoOp(op: Op) {
    op == DIV || op == DIVU || op == MULT || op == MULTU || op == MTHI || op == MTLO
  }

  predicate IsBranch(op: Op) {
    || op == BEQ || op == BNE || op == BGTZ || op == BLEZ || op == BGEZ || op == BLTZ
    || op == BGEZAL || op == BLTZAL || op == J || op == JAL || op == JR || op == JALR
  }

  function Exec(i: Instruction, r: Regs, env: Env): Effect
    requires 0 <= r[LOAD_REG] < 32
  {
    if IsLoad(i.op) then Load(i, r, env) else if IsStore(i.op) then Store(i, r, env) else ExecSimple(i, r, env)
  }

  predicate IsLoad(op: Op) {
    op == LB || op == LBU || op == LH || op == LHU || op == LW || op == LWL || op == LWR
  }

  predicate IsStore(op: Op) {
    op == SB || op == SH || op == SW || op == SWL || op == SWR
  }

  // ---- what the switch amounts to, by kind of instruction ----

  // It puts x into a register, changes no other and goes on.
  predicate Gives(e: Effect, r: Regs, reg: Reg, x: Int32) {
    var pc: int := r[NEXT_PC_REG];
    e == Next(r[reg := x], Wrap(pc + 4), 0, 0)
  }

  lemma GivesReg(i: Instruction, r: Regs, env: Env) returns (x: Int32)
    requires 0 <= r[LOAD_REG] < 32 && IsRegOp(i.op)
    ensures x == RegResult(i, r) && Gives(Exec(i, r, env), r, i.rd, x)
  {
    assert !IsLoad(i.op) && !IsStore(i.op) && i.op != ADD && i.op != SUB && i.op != ADDI;
    x := RegResult(i, r);
  }

  lemma GivesImm(i: Instruction, r: Regs, env: Env) returns (x: Int32)
    requires 0 <= r[LOAD_REG] < 32 && IsImmOp(i.op)
    ensures x == ImmResult(i, r[i.rs]) && Gives(Exec(i, r, env), r, i.rt, x)
  {
    assert !IsRegOp(i.op) && i.op != ADD && i.op != SUB && i.op != ADDI && !IsLoad(i.op) && !IsStore(i.op);
    x := ImmResult(i, r[i.rs]);
  }

  // It changes HI and LO only and goes on.
  predicate GivesHiLo(e: Effect, r: Regs, hi: Int32, lo: Int32) {
    var pc: int := r[NEXT_PC_REG];
    e == Next(r[HI_REG := hi][LO_REG := lo], Wrap(pc + 4), 0, 0)
  }

  lemma ExecHiLo(i: Instruction, r: Regs, env: Env)
    requires 0 <= r[LOAD_REG] < 32 && IsHiLoOp(i.op)
    ensures var pc: int := r[NEXT_PC_REG]; Exec(i, r, env) == Next(HiLoResult(i, r), Wrap(pc + 4), 0, 0)
  {
    assert !IsRegOp(i.op) && !IsImmOp(i.op) && i.op != ADD && i.op != SUB && i.op != ADDI && !IsLoad(i.op) && !IsStore(i.op);
  }

  lemma ExecBranch(i: Instruction, r: Regs, env: Env)
    requires 0 <= r[LOAD_REG] < 32 && IsBranch(i.op)
    ensures Exec(i, r, env) == Branch(i, r)
  {
    assert !IsRegOp(i.op) && !IsImmOp(i.op) && !IsHiLoOp(i.op) && !IsLoad(i.op) && !IsStore(i.op);
    assert i.op != ADD && i.op != SUB && i.op != ADDI;
  }

  // The rest of OneInstruction after the switch.
  function Retire(e: Effect): Regs
    requires e.Next? && 0 <= e.regs[LOAD_REG] < 32
  {
    AdvancedPc(DelayedLoad(e.regs, e.loadReg, e.loadValue), e.pcAfter)
  }

  function AdvancedPc(r: Regs, pcAfter: Int32): Regs {
    r[PREV_PC_REG := r[PC_REG]][PC_REG := r[NEXT_PC_REG]][NEXT_PC_REG := pcAfter]
  }

  datatype Outcome = Running(regs: Regs) | Stopped

  function OneInstruction(r: Regs, env: Env): Outcome
    requires 0 <= r[LOAD_REG] < 32
  {
    match env.fetch(r[PC_REG])
    case Fault => Running(Raise(r, r[PC_REG], env).regs)
    case Value(raw) =>
      var e := Exec(Decode(raw), r, env);
      ExecKeepsLoad(Decode(raw), r, env);
      match e
      case Next(_, _, _, _) => Running(Retire(e))
      case Trap(regs) => Running(regs)
      case Abort => Stopped
  }

  ghost predicate SameSpecial(r: Regs, r': Regs) {
    forall k :: 34 <= k < 40 ==> r'[k] == r[k]
  }

  lemma HiLoKeeps(i: Instruction, r: Regs)
    ensures SameSpecial(r, HiLoResult(i, r))
  {
  }

  lemma SimpleKeeps(i: Instruction, r: Regs, env: Env)
    requires 0 <= r[LOAD_REG] < 32
    ensures ExecSimple(i, r, env).Next? ==> SameSpecial(r, ExecSimple(i, r, env).regs)
  {
    HiLoKeeps(i, r);
    assert SameSpecial(r, Linked(i, r));
  }

  // The switch writes general registers, HI and LO only.
  lemma ExecKeepsLoad(i: Instruction, r: Regs, env: Env)
    requires 0 <= r[LOAD_REG] < 32
    ensures Exec(i, r, env).Next? ==> SameSpecial(r, Exec(i, r, env).regs)
  {
    SimpleKeeps(i, r, env);
  }

  // ---- every run ----

  ghost predicate RegsOk(r: Regs) {
    r[0] == 0 && 0 <= r[LOAD_REG] < 32
  }

  const RESULT_REG := 2

  // The exception handler writes the result register and, through PCAdvance, the program counters.
  predicate KernelWrites(k: int) {
    k == RESULT_REG || k == PC_REG || k == NEXT_PC_REG || k == PREV_PC_REG
  }

  ghost predicate KernelOk(kernel: Regs -> Regs) {
    forall r: Regs, k :: 0 <= k < 40 && !KernelWrites(k) ==> kernel(r)[k] == r[k]
  }

  // Between instructions an interrupt may come, which finishes the pending load.
  datatype Step = Instr(env: Env) | Interrupt

  function Apply(r: Regs, step: Step): Outcome
    requires 0 <= r[LOAD_REG] < 32
  {
    match step
    case Instr(env) => OneInstruction(r, env)
    case Interrupt => Running(DelayedLoad(r, 0, 0))
  }

  /** After every instruction, whether it trapped or not, register 0 is zero and the pending load
      names a general register. */
  lemma ApplyOk(r: Regs, step: Step)
    requires RegsOk(r) && (step.Instr? ==> KernelOk(step.env.kernel))
    ensures Apply(r, step).Running? ==> RegsOk(Apply(r, step).regs)
  {
    if step.Instr? {
      match step.env.fetch(r[PC_REG])
      case Fault => RaiseOk(r, r[PC_REG], step.env);
      case Value(raw) => ExecOk(Decode(raw), r, step.env);
    }
  }

  lemma RaiseOk(r: Regs, badVAddr: Int32, env: Env)
    requires 0 <= r[LOAD_REG] < 32 && KernelOk(env.kernel)
    ensures RegsOk(Raise(r, badVAddr, env).regs)
  {
    assert !KernelWrites(0) && !KernelWrites(LOAD_REG);
  }

  lemma ExecOk(i: Instruction, r: Regs, env: Env)
    requires 0 <= r[LOAD_REG] < 32 && KernelOk(env.kernel)
    ensures var e := Exec(i, r, env);
      && (e.Next? ==> 0 <= e.regs[LOAD_REG] < 32 && RegsOk(Retire(e)))
      && (e.Trap? ==> RegsOk(e.regs))
  {
    ExecKeepsLoad(i, r, env);
    RaiseOk(r, 0, env);
    RaiseOk(r, Address(i, r), env);
  }

  ghost predicate Goes(r: Regs, step: Step, r': Regs) {
    && (step.Instr? ==> KernelOk(step.env.kernel))
    && 0 <= r[LOAD_REG] < 32 && Apply(r, step) == Running(r')
  }

  ghost predicate StepsFrom(r: Regs, steps: seq<Step>, states: seq<Regs>) {
    && |states| == |steps| + 1 && states[0] == r
    && forall i :: 0 <= i < |steps| ==> Goes(states[i], steps[i], states[i + 1])
  }

  lemma {:induction false} RunOk(r: Regs, steps: seq<Step>, states: seq<Regs>, t: nat)
    requires RegsOk(r) && StepsFrom(r, steps, states) && t < |states|
    ensures RegsOk(states[t])
  {
    if t > 0 {
      RunOk(r, steps, states, t - 1);
      assert Goes(states[t - 1], steps[t - 1], states[t - 1 + 1]);
      GoesOk(states[t - 1], steps[t - 1], states[t]);
    }
  }

  lemma GoesOk(r: Regs, step: Step, r': Regs)
    requires RegsOk(r) && Goes(r, step, r')
    ensures RegsOk(r')
  {
    ApplyOk(r, step);
  }

  ghost predicate Misaligned(i: Instruction, r: Regs) {
    (i.op == LWL || i.op == LWR || i.op == SWL || i.op == SWR) && Low(Address(i, r), 4) != 0
  }

  lemma AbortIff(i: Instruction, r: Regs, env: Env)
    requires 0 <= r[LOAD_REG] < 32 && Handled(i.op)
    ensures Exec(i, r, env).Abort? <==> Misaligned(i, r)
  {
  }

  /** The interpreter stops only in LWL, LWR, SWL and SWR on an address that is no multiple of four:
      the switch's default is never reached. */
  lemma StopsIff(r: Regs, env: Env)
    requires RegsOk(r)
    ensures OneInstruction(r, env).Stopped? <==>
      env.fetch(r[PC_REG]).Value? && Misaligned(Decode(env.fetch(r[PC_REG]).v), r)
  {
    if env.fetch(r[PC_REG]).Value? {
      DecodeHandled(env.fetch(r[PC_REG]).v);
      AbortIff(Decode(env.fetch(r[PC_REG]).v), r, env);
    }
  }

  // ---- delay slots ----

  // How the switch ends for the instruction at the program counter.
  function Fetched(r: Regs, env: Env): Effect
    requires 0 <= r[LOAD_REG] < 32
  {
    match env.fetch(r[PC_REG])
    case Fault => Raise(r, r[PC_REG], env)
    case Value(raw) => Exec(Decode(raw), r, env)
  }

  /** A load leaves its register alone, but for a load that was pending on it. */
  lemma LoadWaits(r: Regs, env: Env, reg: Reg, v: Int32)
    requires RegsOk(r) && reg != 0
    requires var e := Fetched(r, env); e.Next? && e.loadReg == reg && e.loadValue == v
    ensures var o := OneInstruction(r, env);
      && o.Running? && RegsOk(o.regs) && o.regs[LOAD_REG] == reg && o.regs[LOAD_VALUE_REG] == v
      && (o.regs[reg] == if r[LOAD_REG] == reg then r[LOAD_VALUE_REG] else r[reg])
  {
    LoadsAre(Decode(env.fetch(r[PC_REG]).v), r, env);
  }

  // Only loads leave something pending, and they change no register themselves.
  lemma LoadsAre(i: Instruction, r: Regs, env: Env)
    requires 0 <= r[LOAD_REG] < 32
    ensures var e := Exec(i, r, env); e.Next? && e.loadReg != 0 ==> e.regs == r
  {
  }

  /** After the next instruction the value is there, whatever that instruction does, also if it
      traps or writes the register itself; only a trap into the kernel may put a result over it.
      An interrupt in between brings it in at once. */
  lemma LoadArrives(r: Regs, reg: Reg, v: Int32, next: Step)
    requires RegsOk(r) && r[LOAD_REG] == reg && r[LOAD_VALUE_REG] == v && reg != 0
    requires next.Instr? ==> KernelOk(next.env.kernel)
    ensures Apply(r, next).Running? && !(next.Instr? && reg == RESULT_REG && Fetched(r, next.env).Trap?) ==>
      Apply(r, next).regs[reg] == v
  {
    if next.Instr? {
      if reg != RESULT_REG {
        RaiseBringsIn(r, r[PC_REG], next.env, reg, v);
      }
      if next.env.fetch(r[PC_REG]).Value? {
        var i := Decode(next.env.fetch(r[PC_REG]).v);
        ExecKeepsLoad(i, r, next.env);
        TrapsBringIn(i, r, next.env, reg, v);
      }
    }
  }

  lemma TrapsBringIn(i: Instruction, r: Regs, env: Env, reg: Reg, v: Int32)
    requires RegsOk(r) && r[LOAD_REG] == reg && r[LOAD_VALUE_REG] == v && reg != 0 && KernelOk(env.kernel)
    ensures Exec(i, r, env).Trap? && reg != RESULT_REG ==> Exec(i, r, env).regs[reg] == v
  {
    if reg != RESULT_REG {
      RaiseBringsIn(r, 0, env, reg, v);
      RaiseBringsIn(r, Address(i, r), env, reg, v);
    }
  }

  lemma RaiseBringsIn(r: Regs, badVAddr: Int32, env: Env, reg: Reg, v: Int32)
    requires RegsOk(r) && r[LOAD_REG] == reg && r[LOAD_VALUE_REG] == v && reg != 0 && reg != RESULT_REG
    requires KernelOk(env.kernel)
    ensures Raise(r, badVAddr, env).regs[reg] == v
  {
    assert !KernelWrites(reg);
  }

  // ---- the code, on the register array ----

  class Cpu {
    const registers: array<Int32>

    ghost predicate Valid()
      reads registers
    {
      registers.Length == 40 && 0 <= registers[LOAD_REG] < 32
    }

    constructor ()
      ensures fresh(registers) && Valid() && registers[..] == seq(40, _ => 0) && RegsOk(registers[..])
    {
      registers := new Int32[40](_ => 0);
    }

    method ApplyLoad(nextReg: Reg, nextValue: Int32)
      requires Valid()
      modifies registers
      ensures Valid() && registers[..] == DelayedLoad(old(registers[..]), nextReg, nextValue)
    {
      registers[registers[LOAD_REG]] := registers[LOAD_VALUE_REG];
      registers[LOAD_REG] := nextReg;
      registers[LOAD_VALUE_REG] := nextValue;
      registers[0] := 0;
    }

    // MULT and MULTU run the shift-and-add loop.
    method SetProduct(i: Instruction)
      requires Valid() && (i.op == MULT || i.op == MULTU)
      modifies registers
      ensures Valid() && registers[..] == HiLoResult(i, old(registers[..]))
    {
      var a, b := registers[i.rs], registers[i.rt];
      var hi, lo := Mult(a, b, i.op == MULT);
      MultMatches(a, b, i.op == MULT, hi, lo);
      registers[HI_REG], registers[LO_REG] := hi, lo;
    }

    // The switch.  Multiplication is in place; of the other cases the effect is put back.
    method Switch(i: Instruction, env: Env) returns (e: Effect)
      requires Valid()
      modifies registers
      ensures e == Exec(i, old(registers[..]), env) && (e.Next? || e.Trap? ==> registers[..] == e.regs)
    {
      if i.op == MULT || i.op == MULTU {
        SetProduct(i);
        var pc: int := registers[NEXT_PC_REG];
        e := Next(registers[..], Wrap(pc + 4), 0, 0);
      } else {
        e := Exec(i, registers[..], env);
        if !e.Abort? {
          forall k | 0 <= k < 40 {
            registers[k] := e.regs[k];
          }
        }
      }
    }

    /** The registers end as OneInstruction on values says, so what is proved of runs holds here. */
    method Execute(env: Env) returns (running: bool)
      requires Valid()
      modifies registers
      ensures running == OneInstruction(old(registers[..]), env).Running?
      ensures running ==> registers[..] == OneInstruction(old(registers[..]), env).regs
      ensures running && old(RegsOk(registers[..])) && KernelOk(env.kernel) ==> Valid() && RegsOk(registers[..])
    {
      ghost var r := registers[..];
      if RegsOk(r) && KernelOk(env.kernel) {
        ApplyOk(r, Instr(env));
      }
      var fetched := env.fetch(registers[PC_REG]);
      if fetched.Fault? {
        RaiseException(registers[PC_REG], env);
        return true;
      }
      var i := Decode(fetched.v);
      ExecKeepsLoad(i, r, env);
      var e := Switch(i, env);
      if e.Next? {
        ApplyLoad(e.loadReg, e.loadValue);
        Advance(e.pcAfter);
      }
      running := !e.Abort?;
    }

    method RaiseException(badVAddr: Int32, env: Env)
      requires Valid()
      modifies registers
      ensures registers[..] == Raise(old(registers[..]), badVAddr, env).regs
    {
      registers[BAD_VADDR_REG] := badVAddr;
      ApplyLoad(0, 0);
      var handled := env.kernel(registers[..]);
      forall k | 0 <= k < 40 {
        registers[k] := handled[k];
      }
    }

    method Advance(pcAfter: Int32)
      requires registers.Length == 40
      modifies registers
      ensures registers[..] == AdvancedPc(old(registers[..]), pcAfter)
    {
      registers[PREV_PC_REG] := registers[PC_REG];
      registers[PC_REG] := registers[NEXT_PC_REG];
      registers[NEXT_PC_REG] := pcAfter;
    }
  }
}
