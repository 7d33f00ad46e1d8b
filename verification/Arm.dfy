/** The Thumb instructions that have a translator, and the machine that executes them one at a
    time. Results and flags follow the pseudocode of ARM DDI 0406C, except where the translator
    emits something else: the carry of ADD, LSL and LSR, and the slot order of PUSH, which are
    stated as emitted. */
module Arm {
  import opened Words
  import opened Ir

  datatype Cond = EQ | NE | HS | LO | MI | PL | VS | VC | HI | LS | GE | LT | GT | LE | AL

  /** LSL by 0 is decoded as a register move, which has no translator. */
  type ShiftAmount = k: nat | 1 <= k < 32 witness 1

  /** An LSR amount of 0 stands for 32. */
  type LsrAmount = k: nat | k < 32

  /** A decoded instruction that has a translator. */
  datatype Insn =
    | Push(regs: seq<Reg>)
    | LdrLiteral(rd: Reg, literal: Word)
    | LdrHalf(rd: Reg, rn: Reg, imm: Word)
    | Ldr(rd: Reg, rn: Reg, imm: Word)
    | StrHalf(rd: Reg, rn: Reg, imm: Word)
    | Str(rd: Reg, rn: Reg, imm: Word)
    | CmpReg(rn: Reg, rm: Reg)
    | CmpImm(rn: Reg, imm: Word)
    | AddImm(rd: Reg, rn: Reg, imm: Word)
    | AddReg(rd: Reg, rn: Reg, rm: Reg)
    | SubImm(rd: Reg, rn: Reg, imm: Word)
    | MovImm(rd: Reg, imm: Word)
    | LslImm(rd: Reg, rm: Reg, amount: ShiftAmount)
    | LsrImm(rd: Reg, rm: Reg, lsr: LsrAmount)
    | AndReg(rd: Reg, rn: Reg, rm: Reg)
    | OrrReg(rd: Reg, rn: Reg, rm: Reg)
    | BicReg(rd: Reg, rn: Reg, rm: Reg)
    | B(offset: int)
    | Bcc(cond: Cond, offset: int)

  datatype Decoded = Success(ins: Insn, size: nat) | UnknownOpcode | SoftFail | Fail

  /** Code memory is constant: what decodes at each address, and the word that reading code
      memory returns. */
  datatype Program = Program(decode: Pc -> Decoded, codeWord: nat -> Word)

  datatype Flags = Flags(n: bool, z: bool, c: bool, v: bool)

  type RegFile = s: seq<Word> | |s| == 15 witness seq(15, _ => 0)

  datatype Machine = Machine(pc: Pc, regs: RegFile, cpsr: Word, f: Flags, mem: Memory) {
    function Get(id: Id): Datum {
      match id
      case Gpr(r) => Num(regs[r])
      case Cpsr => Num(cpsr)
      case FlagZ => Bool(f.z)
      case FlagN => Bool(f.n)
      case FlagC => Bool(f.c)
      case FlagV => Bool(f.v)
    }

    function Set(r: Reg, v: Word): Machine {
      this.(regs := regs[r := v])
    }

    function SetNZ(result: Word): Machine {
      this.(f := f.(n := Bit31(result), z := result == 0))
    }
  }

  function PcPlus(pc: Pc, d: int): Pc {
    (pc + d) % 0x1_0000_0000_0000_0000
  }

  function LiteralAddress(pc: Pc, offset: Word): nat {
    var base := Wrap(pc + 4);
    base - base % 4 + offset
  }

  /** Section A8.3 of ARM DDI 0406C. */
  predicate ConditionHolds(cond: Cond, f: Flags) {
    match cond
    case EQ => f.z
    case NE => !f.z
    case HS => f.c
    case LO => !f.c
    case MI => f.n
    case PL => !f.n
    case VS => f.v
    case VC => !f.v
    case HI => f.c && !f.z
    case LS => !(f.c && !f.z)
    case GE => f.n == f.v
    case LT => f.n != f.v
    case GT => !f.z && f.n == f.v
    case LE => !(!f.z && f.n == f.v)
    case AL => true
  }

  /** Memory after the first `k` registers are pushed; each goes below the one before. */
  function PushedMem(regs: seq<Reg>, k: nat, s: Machine): Memory
    requires k <= |regs|
  {
    if k == 0 then s.mem
    else WriteMem(PushedMem(regs, k - 1, s), Wrap(s.regs[SP] - 4 * k), 4, s.regs[regs[k - 1]])
  }

  function AfterPush(regs: seq<Reg>, s: Machine): Memory {
    PushedMem(regs, |regs|, s)
  }

  function Subtract(s: Machine, x: Word, y: Word): (Word, Machine) {
    var sum := AddWithCarry(x, NotWord(y), true);
    (sum.result, s.(f := Flags(Bit31(sum.result), sum.result == 0, sum.carry, sum.overflow)))
  }

  /** As emitted, the carry of ADD is also set whenever the second operand is the larger one. */
  function AddAsEmitted(s: Machine, rd: Reg, x: Word, y: Word): Machine {
    var sum := AddWithCarry(x, y, false);
    s.(f := Flags(Bit31(sum.result), sum.result == 0, y > x || sum.result < x, sum.overflow)).Set(rd, sum.result)
  }

  function Logical(ins: Insn, x: Word, y: Word): Word
    requires ins.AndReg? || ins.OrrReg? || ins.BicReg?
  {
    if ins.AndReg? then And(x, y) else if ins.OrrReg? then OrWord(x, y) else And(x, NotWord(y))
  }

  /** AND, ORR and BIC, bit by bit. */
  lemma LogicalBits(ins: Insn, x: Word, y: Word, k: nat)
    requires k < 32 && (ins.AndReg? || ins.OrrReg? || ins.BicReg?)
    ensures var r := Logical(ins, x, y);
            && (ins.AndReg? ==> (Bit(r, k) <==> Bit(x, k) && Bit(y, k)))
            && (ins.OrrReg? ==> (Bit(r, k) <==> Bit(x, k) || Bit(y, k)))
            && (ins.BicReg? ==> (Bit(r, k) <==> Bit(x, k) && !Bit(y, k)))
  {
    hide Bit, Words.And, Or, NotWord;
    AndBits(x, y, k);
    OrBits(x, y, k);
    AndBits(x, NotWord(y), k);
    NotBits(y, k);
  }

  /** Result and carry of a shift. As emitted, the carry is a bit of the result. */
  function ShiftAsEmitted(ins: Insn, x: Word): (Word, bool)
    requires ins.LslImm? || ins.LsrImm?
  {
    if ins.LslImm? then var r := Shl(x, ins.amount); (r, Bit(r, 32 - ins.amount))
    else if ins.lsr == 0 then (0, Bit31(x))
    else var r := Lshr(x, ins.lsr); (r, Bit(r, ins.lsr - 1))
  }

  function SetShifted(s: Machine, rd: Reg, rc: (Word, bool)): Machine {
    var s' := s.Set(rd, rc.0).SetNZ(rc.0);
    s'.(f := s'.f.(c := rc.1))
  }

  /** Registers, flags and memory after one instruction; the program counter is left alone. */
  function Execute(ins: Insn, s: Machine): Machine {
    match ins
    case Push(regs) => s.(mem := AfterPush(regs, s)).Set(SP, Wrap(s.regs[SP] - 4 * |regs|))
    case LdrLiteral(rd, literal) => s.Set(rd, ReadMem(s.mem, Wrap(LiteralAddress(s.pc, literal)), 4))
    case LdrHalf(rd, rn, imm) => s.Set(rd, ReadMem(s.mem, Wrap(s.regs[rn] + 2 * imm), 2))
    case Ldr(rd, rn, imm) => s.Set(rd, ReadMem(s.mem, Wrap(s.regs[rn] + 4 * imm), 4))
    case StrHalf(rd, rn, imm) => s.(mem := WriteMem(s.mem, Wrap(s.regs[rn] + 2 * imm), 2, Narrow(s.regs[rd], 2)))
    case Str(rd, rn, imm) => s.(mem := WriteMem(s.mem, Wrap(s.regs[rn] + 4 * imm), 4, s.regs[rd]))
    case CmpReg(rn, rm) => Subtract(s, s.regs[rn], s.regs[rm]).1
    case CmpImm(rn, imm) => Subtract(s, s.regs[rn], imm).1
    case AddImm(rd, rn, imm) => AddAsEmitted(s, rd, s.regs[rn], imm)
    case AddReg(rd, rn, rm) => AddAsEmitted(s, rd, s.regs[rn], s.regs[rm])
    case SubImm(rd, rn, imm) => var (r, s') := Subtract(s, s.regs[rn], imm); s'.Set(rd, r)
    case MovImm(rd, imm) => s.Set(rd, imm).SetNZ(imm)
    case LslImm(rd, rm, _) => SetShifted(s, rd, ShiftAsEmitted(ins, s.regs[rm]))
    case LsrImm(rd, rm, _) => SetShifted(s, rd, ShiftAsEmitted(ins, s.regs[rm]))
    case AndReg(rd, rn, rm) => var r := Logical(ins, s.regs[rn], s.regs[rm]); s.Set(rd, r).SetNZ(r)
    case OrrReg(rd, rn, rm) => var r := Logical(ins, s.regs[rn], s.regs[rm]); s.Set(rd, r).SetNZ(r)
    case BicReg(rd, rn, rm) => var r := Logical(ins, s.regs[rn], s.regs[rm]); s.Set(rd, r).SetNZ(r)
    case B(_) => s
    case Bcc(_, _) => s
  }

  function NextPc(ins: Insn, size: nat, s: Machine): Pc {
    match ins
    case B(offset) => PcPlus(s.pc, 4 + offset)
    case Bcc(cond, offset) =>
      if ConditionHolds(cond, s.f) then PcPlus(s.pc, 4 + offset) else PcPlus(s.pc, size)
    case _ => PcPlus(s.pc, size)
  }

  function StepInsn(ins: Insn, size: nat, s: Machine): Machine {
    Execute(ins, s).(pc := NextPc(ins, size, s))
  }

  // Data accesses.

  /** The accesses that the instrumentation handlers are meant to see. */
  function Accesses(ins: Insn, s: Machine): seq<Access> {
    match ins
    case LdrHalf(_, rn, imm) => var a := Wrap(s.regs[rn] + 2 * imm); [Read(a, 2, ReadMem(s.mem, a, 2))]
    case Ldr(_, rn, imm) => var a := Wrap(s.regs[rn] + 4 * imm); [Read(a, 4, ReadMem(s.mem, a, 4))]
    case StrHalf(rd, rn, imm) => [Write(Wrap(s.regs[rn] + 2 * imm), 2, Narrow(s.regs[rd], 2))]
    case Str(rd, rn, imm) => [Write(Wrap(s.regs[rn] + 4 * imm), 4, s.regs[rd])]
    case _ => []
  }

  /** The stores of PUSH, in order. */
  function PushAccesses(regs: seq<Reg>, k: nat, s: Machine): (r: seq<Access>)
    requires k <= |regs|
    ensures |r| == k
  {
    if k == 0 then []
    else PushAccesses(regs, k - 1, s) + [Write(Wrap(s.regs[SP] - 4 * k), 4, s.regs[regs[k - 1]])]
  }

  /** Every access to data that the instruction makes. */
  function DataAccesses(ins: Insn, s: Machine): seq<Access> {
    match ins
    case Push(regs) => PushAccesses(regs, |regs|, s)
    case LdrLiteral(_, literal) =>
      var a := Wrap(LiteralAddress(s.pc, literal)); [Read(a, 4, ReadMem(s.mem, a, 4))]
    case _ => Accesses(ins, s)
  }

  /** The word a PC-relative load reads is still the one found in code memory. */
  predicate LiteralIntact(prog: Program, ins: Insn, s: Machine) {
    ins.LdrLiteral? ==>
      var a := LiteralAddress(s.pc, ins.literal);
      ReadMem(s.mem, Wrap(a), 4) == prog.codeWord(a)
  }

  // The condition flags live in the top four bits of CPSR.

  function UnpackFlags(cpsr: Word): Flags {
    Flags(Bit(cpsr, 31), Bit(cpsr, 30), Bit(cpsr, 29), Bit(cpsr, 28))
  }

  function PackCpsr(cpsr: Word, f: Flags): Word {
    cpsr % 0x1000_0000
    + (if f.v then 0x1000_0000 else 0) + (if f.c then 0x2000_0000 else 0)
    + (if f.z then 0x4000_0000 else 0) + (if f.n then 0x8000_0000 else 0)
  }

  /** The flags read off the top four bits as a number. */
  function NibbleFlags(t: nat): Flags {
    Flags(t / 8 % 2 == 1, t / 4 % 2 == 1, t / 2 % 2 == 1, t % 2 == 1)
  }

  function FlagsNibble(f: Flags): (t: nat)
    ensures t < 16 && NibbleFlags(t) == f
  {
    (if f.n then 8 else 0) + (if f.z then 4 else 0) + (if f.c then 2 else 0) + (if f.v then 1 else 0)
  }

  lemma TopNibble(low: nat, t: nat)
    requires low < 0x1000_0000 && t < 16
    ensures UnpackFlags(0x1000_0000 * t + low) == NibbleFlags(t)
  {
    Pow2Values();
    var x := 0x1000_0000 * t + low;
    assert x / 0x1000_0000 == t;
    assert x / 0x2000_0000 == t / 2;
    assert x / 0x4000_0000 == t / 4;
    assert x / 0x8000_0000 == t / 8;
  }

  lemma PackNibble(cpsr: Word, t: nat)
    requires t < 16
    ensures PackCpsr(cpsr, NibbleFlags(t)) == 0x1000_0000 * t + cpsr % 0x1000_0000
  {
  }

  lemma PackUnpack(cpsr: Word)
    ensures PackCpsr(cpsr, UnpackFlags(cpsr)) == cpsr
  {
    var t := cpsr / 0x1000_0000;
    TopNibble(cpsr % 0x1000_0000, t);
    PackNibble(cpsr, t);
  }

  lemma UnpackPack(cpsr: Word, f: Flags)
    ensures UnpackFlags(PackCpsr(cpsr, f)) == f
    ensures PackCpsr(cpsr, f) % 0x1000_0000 == cpsr % 0x1000_0000
  {
    var t, low := FlagsNibble(f), cpsr % 0x1000_0000;
    PackNibble(cpsr, t);
    TopNibble(low, t);
    RemainderUnique(0x1000_0000 * t + low, 0x1000_0000, t, low);
  }

  function FlagWord(b: bool, weight: Word): Word {
    if b then weight else 0
  }

  lemma ShiftedFlag(b: bool, k: nat, weight: Word)
    requires k < 32 && Pow2(k) == weight
    ensures Shl(if b then 1 else 0, k) == FlagWord(b, weight)
  {
  }

  lemma OrHigh(high: Word, low: Word, k: nat)
    requires low < Pow2(k) && high % Pow2(k) == 0 && high + low < 0x1_0000_0000
    ensures OrWord(high, low) == OrWord(low, high) == high + low
  {
    OrDisjoint(high, low, k);
  }

  lemma OrFlags(f: Flags)
    ensures var zn := OrWord(FlagWord(f.z, 0x4000_0000), FlagWord(f.n, 0x8000_0000));
            var cv := OrWord(FlagWord(f.c, 0x2000_0000), FlagWord(f.v, 0x1000_0000));
            OrWord(zn, cv) == PackCpsr(0, f)
  {
    var z, n := FlagWord(f.z, 0x4000_0000), FlagWord(f.n, 0x8000_0000);
    var c, v := FlagWord(f.c, 0x2000_0000), FlagWord(f.v, 0x1000_0000);
    Pow2Values();
    OrHigh(n, z, 31);
    OrHigh(c, v, 29);
    OrHigh(z + n, c + v, 30);
  }

  lemma PackParts(cpsr: Word, f: Flags)
    ensures PackCpsr(cpsr, f) == PackCpsr(0, f) + cpsr % 0x1000_0000
    ensures PackCpsr(0, f) % 0x1000_0000 == 0
  {
    UnpackPack(0, f);
  }

  /** The masking of the exit code replaces the flags and keeps the other 28 bits. */
  lemma MaskedOr(cpsr: Word, f: Flags)
    ensures OrWord(And(cpsr, 0x0FFF_FFFF), PackCpsr(0, f)) == PackCpsr(cpsr, f)
  {
    hide PackCpsr, Words.And, OrWord;
    Pow2Values();
    AndLowMask(cpsr, 28);
    PackParts(cpsr, f);
    OrHigh(PackCpsr(0, f), cpsr % 0x1000_0000, 28);
  }

  // The processor structure that execution starts from and returns to.

  function SlotAt(slots: map<Id, Word>, id: Id): Word {
    if id in slots then slots[id] else 0
  }

  /** The machine that the processor structure describes. */
  function EntryMachine(pc: Pc, h: Heap): Machine {
    var cpsr := SlotAt(h.slots, Cpsr);
    Machine(pc, seq(15, i requires 0 <= i < 15 => SlotAt(h.slots, Gpr(i))), cpsr, UnpackFlags(cpsr), h.mem)
  }

  /** The first `k` slots overwritten with registers of the machine. */
  function StoredSlots(s: Machine, k: nat, slots: map<Id, Word>): map<Id, Word>
    requires k <= |REGISTER_DESCRIPTION|
  {
    if k == 0 then slots
    else
      var id := REGISTER_DESCRIPTION[k - 1];
      StoredSlots(s, k - 1, slots)[id := match s.Get(id) case Num(w) => w case _ => 0]
  }

  /** All 16 slots, with the flags packed into CPSR. */
  function ExitSlots(s: Machine, slots: map<Id, Word>): map<Id, Word> {
    StoredSlots(s.(cpsr := PackCpsr(s.cpsr, s.f)), |REGISTER_DESCRIPTION|, slots)
  }

  lemma {:induction false} StoredSlot(s: Machine, k: nat, slots: map<Id, Word>, j: nat)
    requires j < k <= |REGISTER_DESCRIPTION|
    ensures var id := if j < 15 then Gpr(j) else Cpsr;
            && id in StoredSlots(s, k, slots)
            && StoredSlots(s, k, slots)[id] == if j < 15 then s.regs[j] else s.cpsr
  {
    if j < k - 1 {
      StoredSlot(s, k - 1, slots, j);
    }
  }
}
