/** What the emitted effects mean in terms of the manual: after CMP or SUB each condition code is
    the comparison it is named after; the carry of ADD and of the shifts and the slots of PUSH
    are what the manual says only under the conditions stated here. */
module Conditions {
  import opened Words
  import opened Ir
  import opened Arm
  import opened Emitters
  import opened Cfg
  import opened Simulation

  /** What each condition says about the operands of a subtraction. */
  predicate Compares(cond: Cond, x: Word, y: Word)
    requires cond != AL
  {
    match cond
    case EQ => x == y
    case NE => x != y
    case HS => x >= y
    case LO => x < y
    case MI => (x - y) % 0x1_0000_0000 >= 0x8000_0000
    case PL => (x - y) % 0x1_0000_0000 < 0x8000_0000
    case VS => !(-0x8000_0000 <= SInt(x) - SInt(y) < 0x8000_0000)
    case VC => -0x8000_0000 <= SInt(x) - SInt(y) < 0x8000_0000
    case HI => x > y
    case LS => x <= y
    case GE => SInt(x) >= SInt(y)
    case LT => SInt(x) < SInt(y)
    case GT => SInt(x) > SInt(y)
    case LE => SInt(x) <= SInt(y)
  }

  lemma SubtractionSign(x: Word, y: Word)
    ensures var sum := AddWithCarry(x, NotWord(y), true);
            (Bit31(sum.result) == sum.overflow) == (SInt(x) >= SInt(y))
  {
    SubtractionFlags(x, y);
  }

  lemma SignedOverflow(s: Machine, x: Word, y: Word)
    ensures var (r, s') := Subtract(s, x, y);
            && (s'.f.v <==> !(-0x8000_0000 <= SInt(x) - SInt(y) < 0x8000_0000))
            && (!s'.f.v ==> SInt(r) == SInt(x) - SInt(y))
  {
    assert SInt(NotWord(y)) == -SInt(y) - 1;
  }

  lemma ComparisonFlags(s: Machine, x: Word, y: Word, cond: Cond)
    requires cond != AL
    ensures ConditionHolds(cond, Subtract(s, x, y).1.f) <==> Compares(cond, x, y)
  {
    hide AddWithCarry;
    SubtractionFlags(x, y);
    SubtractionSign(x, y);
    SignedOverflow(s, x, y);
    assert SInt(x) == SInt(y) <==> x == y;
  }

  /** As emitted, the carry of an addition is the carry out of bit 31 exactly when the second
      operand is not the larger one or the sum does not fit. */
  lemma AdditionCarry(s: Machine, rd: Reg, x: Word, y: Word)
    ensures AddAsEmitted(s, rd, x, y).f.c == AddWithCarry(x, y, false).carry <==> y <= x || x + y > 0xFFFF_FFFF
  {
    AdditionFlags(x, y);
  }

  lemma AdditionCarryTooOften(s: Machine, rd: Reg)
    ensures AddAsEmitted(s, rd, 0, 1).f.c && !AddWithCarry(0, 1, false).carry
  {
  }

  /** The last bit that a shift moves out, which the manual makes the carry. */
  predicate ShiftedOut(ins: Insn, x: Word)
    requires ins.LslImm? || ins.LsrImm?
  {
    if ins.LslImm? then Bit(x, 32 - ins.amount) else if ins.lsr == 0 then Bit31(x) else Bit(x, ins.lsr - 1)
  }

  lemma {:induction false} Pow2Sum(a: nat, b: nat)
    ensures Pow2(a + b) == Pow2(a) * Pow2(b)
  {
    if a > 0 {
      Pow2Sum(a - 1, b);
      assert Pow2(a) * Pow2(b) == 2 * (Pow2(a - 1) * Pow2(b));
    }
  }

  lemma RightShiftedBit(x: Word, k: nat, j: nat)
    requires k < 32
    ensures Bit(Lshr(x, k), j) == Bit(x, k + j)
  {
    hide Pow2;
    Pow2Sum(k, j);
    DivideTwice(x, Pow2(k), Pow2(j));
  }

  /** As emitted, the carry of a right shift by `k` is read one shift too late: it is the bit
      shifted out exactly when bits k - 1 and 2k - 1 of the operand agree. */
  lemma RightShiftCarry(ins: Insn, x: Word)
    requires ins.LsrImm?
    ensures ShiftAsEmitted(ins, x).1 == ShiftedOut(ins, x)
            <==> ins.lsr == 0 || Bit(x, ins.lsr - 1) == Bit(x, 2 * ins.lsr - 1)
  {
    hide Bit, Lshr;
    if ins.lsr > 0 {
      RightShiftedBit(x, ins.lsr, ins.lsr - 1);
    }
  }

  lemma RightShiftCarryLost(rd: Reg, rm: Reg)
    ensures ShiftedOut(LsrImm(rd, rm, 1), 1) && !ShiftAsEmitted(LsrImm(rd, rm, 1), 1).1
  {
    Pow2Values();
    assert Pow2(0) == 1 && Pow2(1) == 2;
  }

  lemma HalvedRemainder(x: nat, n: nat)
    requires n > 0
    ensures x % Pow2(n) / 2 == x / 2 % Pow2(n - 1)
    ensures x % Pow2(n) % 2 == x % 2
  {
    HalveRemainder(x, Pow2(n - 1));
  }

  lemma {:induction false} RemainderBit(x: nat, n: nat, j: nat)
    requires j < n
    ensures Bit(x % Pow2(n), j) == Bit(x, j)
  {
    hide Bit, Pow2;
    var r := x % Pow2(n);
    HalvedRemainder(x, n);
    BitOfHalf(x, if j > 0 then j - 1 else 0);
    BitOfHalf(r, if j > 0 then j - 1 else 0);
    if j > 0 {
      RemainderBit(x / 2, n - 1, j - 1);
    }
  }

  lemma HalvedProduct(x: nat, k: nat)
    requires k > 0
    ensures x * Pow2(k) / 2 == x * Pow2(k - 1) && x * Pow2(k) % 2 == 0
  {
    assert x * Pow2(k) == 2 * (x * Pow2(k - 1));
  }

  lemma {:induction false} LeftShiftedBit(x: nat, k: nat, j: nat)
    ensures Bit(x * Pow2(k), j) == (j >= k && Bit(x, j - k))
  {
    if k == 0 {
      assert x * Pow2(0) == x;
    } else {
      hide Bit, Pow2;
      HalvedProduct(x, k);
      BitOfHalf(x * Pow2(k), if j > 0 then j - 1 else 0);
      if j > 0 {
        LeftShiftedBit(x, k - 1, j - 1);
      }
    }
  }

  /** The same for a left shift: bits 32 - k and 32 - 2k of the operand have to agree, where a
      bit below bit 0 reads as 0. */
  lemma LeftShiftCarry(ins: Insn, x: Word)
    requires ins.LslImm?
    ensures ShiftAsEmitted(ins, x).1 == ShiftedOut(ins, x)
            <==> Bit(x, 32 - ins.amount) == (ins.amount <= 16 && Bit(x, 32 - 2 * ins.amount))
  {
    hide Bit;
    Pow2Values();
    RemainderBit(x * Pow2(ins.amount), 32, 32 - ins.amount);
    LeftShiftedBit(x, ins.amount, 32 - ins.amount);
  }

  lemma LeftShiftCarryLost(rd: Reg, rm: Reg)
    ensures ShiftedOut(LslImm(rd, rm, 1), 0x8000_0000) && !ShiftAsEmitted(LslImm(rd, rm, 1), 0x8000_0000).1
  {
    hide Pow2;
    Pow2Values();
    LeftShiftCarry(LslImm(rd, rm, 1), 0x8000_0000);
  }

  // PUSH. The manual stores the first register of the list at the lowest address.

  lemma DistinctAddresses(x: int, y: int)
    requires x != y && -0x1_0000_0000 < x - y < 0x1_0000_0000
    ensures Wrap(x) != Wrap(y)
  {
    var d := x / 0x1_0000_0000 - y / 0x1_0000_0000;
    assert Wrap(x) - Wrap(y) == x - y - 0x1_0000_0000 * d;
  }

  lemma WrittenBytes(m: Memory, a: Word, v: Word)
    ensures var m' := WriteMem(m, a, 4, v);
            && ByteAt(m', a) == v % 0x100 && ByteAt(m', a + 1) == v / 0x100 % 0x100
            && ByteAt(m', a + 2) == v / 0x1_0000 % 0x100 && ByteAt(m', a + 3) == v / 0x100_0000
  {
    DistinctAddresses(a, a + 1);
    DistinctAddresses(a, a + 2);
    DistinctAddresses(a, a + 3);
    DistinctAddresses(a + 1, a + 2);
    DistinctAddresses(a + 1, a + 3);
    DistinctAddresses(a + 2, a + 3);
    WrapWord(a);
    hide Wrap;
  }

  lemma WrapWord(a: Word)
    ensures Wrap(a) == a
  {
  }

  lemma ReadWritten(m: Memory, a: Word, v: Word)
    ensures ReadMem(WriteMem(m, a, 4, v), a, 4) == v
  {
    hide WriteMem, ByteAt;
    WrittenBytes(m, a, v);
    SplitWord(v);
  }

  lemma OtherByte(m: Memory, base: int, i: nat, j: nat, v: Word, p: nat)
    requires 1 <= i < j <= 0x4000_0000 && p < 4
    ensures ByteAt(WriteMem(m, Wrap(base - 4 * j), 4, v), Wrap(base - 4 * i) + p) == ByteAt(m, Wrap(base - 4 * i) + p)
  {
    var x, y := base - 4 * i + p, base - 4 * j;
    DistinctAddresses(x, y);
    DistinctAddresses(x, y + 1);
    DistinctAddresses(x, y + 2);
    DistinctAddresses(x, y + 3);
    WrapTwice(base - 4 * i, p);
    WrapTwice(y, 1);
    WrapTwice(y, 2);
    WrapTwice(y, 3);
    hide Wrap;
  }

  lemma WriteElsewhere(m: Memory, base: int, i: nat, j: nat, v: Word)
    requires 1 <= i < j <= 0x4000_0000
    ensures ReadMem(WriteMem(m, Wrap(base - 4 * j), 4, v), Wrap(base - 4 * i), 4) == ReadMem(m, Wrap(base - 4 * i), 4)
  {
    hide WriteMem, ByteAt, Wrap;
    OtherByte(m, base, i, j, v, 0);
    OtherByte(m, base, i, j, v, 1);
    OtherByte(m, base, i, j, v, 2);
    OtherByte(m, base, i, j, v, 3);
  }

  lemma WrapTwice(x: int, p: nat)
    ensures Wrap(Wrap(x) + p) == Wrap(x + p)
  {
  }

  /** As emitted, the register at position `j` of the list ends up 4 (j + 1) below the old stack
      pointer: the first one at the highest address. */
  lemma {:induction false} PushSlots(regs: seq<Reg>, k: nat, s: Machine, j: nat)
    requires j < k <= |regs| <= 0x4000_0000
    ensures ReadMem(PushedMem(regs, k, s), Wrap(s.regs[SP] - 4 * (j + 1)), 4) == s.regs[regs[j]]
  {
    hide ReadMem, WriteMem, Wrap;
    if j == k - 1 {
      ReadWritten(PushedMem(regs, k - 1, s), Wrap(s.regs[SP] - 4 * k), s.regs[regs[j]]);
    } else {
      PushSlots(regs, k - 1, s, j);
      WriteElsewhere(PushedMem(regs, k - 1, s), s.regs[SP], j + 1, k, s.regs[regs[k - 1]]);
    }
  }

  /** No byte outside the pushed words changes. */
  lemma {:induction false} PushFrame(regs: seq<Reg>, k: nat, s: Machine, b: Word)
    requires k <= |regs| <= 0x4000_0000
    requires (b - (s.regs[SP] - 4 * k)) % 0x1_0000_0000 >= 4 * k
    ensures ByteAt(PushedMem(regs, k, s), b) == ByteAt(s.mem, b)
  {
    if k > 0 {
      hide WriteMem, ByteAt;
      Outside(b, s.regs[SP], k);
      PushFrame(regs, k - 1, s, b);
      StoredBytes(PushedMem(regs, k - 1, s), Wrap(s.regs[SP] - 4 * k), 4, s.regs[regs[k - 1]], b);
    }
  }

  /** A byte outside the first `k` words is outside the first `k - 1` and not in the last. */
  lemma Outside(b: Word, sp: Word, k: nat)
    requires 0 < k <= 0x4000_0000 && (b - (sp - 4 * k)) % 0x1_0000_0000 >= 4 * k
    ensures (b - (sp - 4 * (k - 1))) % 0x1_0000_0000 >= 4 * (k - 1)
    ensures (b - Wrap(sp - 4 * k)) % 0x1_0000_0000 >= 4
  {
    var d := (b - (sp - 4 * k)) % 0x1_0000_0000;
    RemainderUnique(b - (sp - 4 * (k - 1)), 0x1_0000_0000, (b - (sp - 4 * k)) / 0x1_0000_0000, d - 4);
  }

  /** The slot in which the manual expects the register at position `j`. */
  function ManualSlot(regs: seq<Reg>, s: Machine, j: nat): Word
    requires j < |regs|
  {
    Wrap(s.regs[SP] - 4 * (|regs| - j))
  }

  /** The emitted PUSH leaves the stack as the manual says exactly when the pushed values read
      the same in both directions. */
  lemma PushOrder(regs: seq<Reg>, s: Machine)
    requires |regs| <= 0x4000_0000
    ensures (forall j :: 0 <= j < |regs| ==>
               ReadMem(Execute(Push(regs), s).mem, ManualSlot(regs, s, j), 4) == s.regs[regs[j]])
            <==> forall j :: 0 <= j < |regs| ==> s.regs[regs[|regs| - 1 - j]] == s.regs[regs[j]]
  {
    hide ReadMem, WriteMem, Wrap, PushedMem;
    forall j | 0 <= j < |regs|
      ensures ReadMem(Execute(Push(regs), s).mem, ManualSlot(regs, s, j), 4) == s.regs[regs[|regs| - 1 - j]]
    {
      PushSlots(regs, |regs|, s, |regs| - 1 - j);
    }
  }

  /** Two registers with different values: each is found where the other should be. */
  lemma PushSwapped(r: Reg, q: Reg, s: Machine)
    requires s.regs[r] != s.regs[q]
    ensures var after := Execute(Push([r, q]), s).mem;
            && ReadMem(after, ManualSlot([r, q], s, 0), 4) == s.regs[q] != s.regs[r]
            && ReadMem(after, ManualSlot([r, q], s, 1), 4) == s.regs[r] != s.regs[q]
  {
    hide ReadMem, PushedMem;
    PushSlots([r, q], 2, s, 0);
    PushSlots([r, q], 2, s, 1);
  }

  // The flags travel through phi nodes from a CMP to the branch that tests them.

  /** What CMP subtracts from what. */
  function CmpOperands(ins: Insn, s: Machine): (Word, Word)
    requires ins.CmpReg? || ins.CmpImm?
  {
    (s.regs[ins.rn], if ins.CmpReg? then s.regs[ins.rm] else ins.imm)
  }

  lemma TwoSteps(prog: Program, s: Machine)
    ensures MachineRun(prog, s, 2) == MachineRun(prog, MachineRun(prog, s, 1), 1)
  {
    OneMore(prog, s, 1);
  }

  lemma CmpBranchTarget(ins: Insn, size: nat, cond: Cond, offset: int, size': nat, s: Machine)
    requires (ins.CmpReg? || ins.CmpImm?) && cond != AL
    ensures var (x, y) := CmpOperands(ins, s);
            var pc := PcPlus(s.pc, size);
            StepInsn(Bcc(cond, offset), size', StepInsn(ins, size, s)).pc
              == (if Compares(cond, x, y) then PcPlus(pc, 4 + offset) else PcPlus(pc, size'))
  {
    hide ConditionHolds, Subtract, Compares, PcPlus;
    var (x, y) := CmpOperands(ins, s);
    ComparisonFlags(s, x, y, cond);
    assert StepInsn(ins, size, s).pc == PcPlus(s.pc, size);
    assert StepInsn(ins, size, s).f == Subtract(s, x, y).1.f;
  }

  /** In the emitted function, a CMP followed by a conditional branch goes where the comparison
      of the two operands says. */
  lemma CompareAndBranch(prog: Program, ranges: seq<Range>, entry: Pc, g: Graph, c: Conf, s: Machine,
                         ins: Insn, size: nat, cond: Cond, offset: int, size': nat)
    requires Closed(prog, ranges, entry, g) && Matches(g.blocks, c, s) && StepsInside(prog, ranges, s, 2)
    requires (ins.CmpReg? || ins.CmpImm?) && cond != AL
    requires prog.decode(s.pc) == Success(ins, size)
    requires prog.decode(PcPlus(s.pc, size)) == Success(Bcc(cond, offset), size')
    ensures var (x, y) := CmpOperands(ins, s);
            var pc := PcPlus(s.pc, size);
            var d := RunBlocks(g.blocks, c, 2);
            d.Running? && d.at == Head(if Compares(cond, x, y) then PcPlus(pc, 4 + offset) else PcPlus(pc, size'))
  {
    hide Closed, RunBlock, CanStep, Shows, Compares, PcPlus, Execute, ConditionHolds;
    var s1 := MachineRun(prog, s, 1);
    assert MachineRun(prog, s, 0) == s && s1 == StepInsn(ins, size, s);
    UnitStep(prog, ranges, entry, g, c, s);
    TwoSteps(prog, s);
    UnitStep(prog, ranges, entry, g, RunBlock(g.blocks, c), s1);
    assert RunBlocks(g.blocks, c, 1) == RunBlock(g.blocks, c) by {
      assert RunBlocks(g.blocks, c, 0) == c;
    }
    CmpBranchTarget(ins, size, cond, offset, size', s);
  }
}
