/** What the instructions and the IR operations do, said in numbers and bits: results, flags,
    bytes and addresses, without the functions that the machine and the emitted code share. */
module Manual {
  import opened Words
  import opened Ir
  import opened Arm
  import opened Emitters
  import opened Cfg
  import opened Simulation
  import opened Conditions

  // Words.

  /** The sum of the powers of two whose bit is set, below bit `n`. */
  function SetBits(x: nat, n: nat): nat {
    if n == 0 then 0 else SetBits(x, n - 1) + if Bit(x, n - 1) then Pow2(n - 1) else 0
  }

  lemma Halved(p: nat, d: nat)
    ensures p * d == (2 * p) * (d / 2) + p * (d % 2)
  {
    assert p * d == p * (2 * (d / 2) + d % 2);
  }

  lemma NextRemainder(x: nat, p: nat)
    requires p >= 1
    ensures x % (2 * p) == x % p + if x / p % 2 == 1 then p else 0
  {
    var d := x / p;
    assert x == p * d + x % p;
    Halved(p, d);
    RemainderUnique(x, 2 * p, d / 2, p * (d % 2) + x % p);
  }

  lemma NextBit(x: nat, n: nat)
    ensures x % Pow2(n + 1) == x % Pow2(n) + if Bit(x, n) then Pow2(n) else 0
  {
    NextRemainder(x, Pow2(n));
  }

  lemma {:induction false} LowBits(x: nat, n: nat)
    ensures SetBits(x, n) == x % Pow2(n)
  {
    if n > 0 {
      LowBits(x, n - 1);
      NextBit(x, n - 1);
    }
  }

  /** A word is what its bits say. */
  lemma WordOfBits(x: Word)
    ensures SetBits(x, 32) == x
  {
    Pow2Values();
    LowBits(x, 32);
  }

  // The IR operations.

  lemma ArithmeticMeaning(a: Word, b: Word)
    ensures ApplyBinary(BinaryOp.Add, a, b) == (a + b) % 0x1_0000_0000
    ensures ApplyBinary(BinaryOp.Sub, a, b) == (a - b) % 0x1_0000_0000
    ensures b < 32 ==> ApplyBinary(ShlOp, a, b) == a * Pow2(b) % 0x1_0000_0000
    ensures b < 32 ==> ApplyBinary(LshrOp, a, b) == a / Pow2(b)
  {
  }

  lemma BitwiseMeaning(a: Word, b: Word, k: nat)
    requires k < 32
    ensures Bit(ApplyBinary(AndOp, a, b), k) <==> Bit(a, k) && Bit(b, k)
    ensures Bit(ApplyBinary(OrOp, a, b), k) <==> Bit(a, k) || Bit(b, k)
    ensures Bit(NotWord(a), k) <==> !Bit(a, k)
  {
    hide Bit;
    AndBits(a, b, k);
    OrBits(a, b, k);
    NotBits(a, k);
  }

  lemma ComparisonMeaning(a: Word, b: Word, p: bool, q: bool)
    ensures ApplyComparison(Eq, a, b) == (a == b) && ApplyComparison(Ne, a, b) == (a != b)
    ensures ApplyComparison(Ugt, a, b) == (a > b) && ApplyComparison(Ult, a, b) == (a < b)
    ensures ApplyComparison(Uge, a, b) == (a >= b)
    ensures ApplyFlag(FAnd, p, q) == (p && q) && ApplyFlag(FOr, p, q) == (p || q)
    ensures ApplyFlag(FXor, p, q) == ApplyFlag(FNe, p, q) == (p != q) && ApplyFlag(FEq, p, q) == (p == q)
  {
  }

  /** Addresses are scaled by the size of what they point to, casts keep the low bytes, and a flag
      becomes 0 or 1. */
  lemma ConversionMeaning(env: Env, h: Heap, a: Operand, b: Operand, size: nat)
    ensures Result(Gep(a, b, size), env, h) == Num((Number(a, env) + size * Number(b, env)) % 0x1_0000_0000)
    ensures Result(Cast(a, 1), env, h) == Num(Number(a, env) % 0x100)
    ensures Result(Cast(a, 2), env, h) == Num(Number(a, env) % 0x1_0000)
    ensures Result(Cast(a, 4), env, h) == Num(Number(a, env))
    ensures Result(ZextFlag(a), env, h) == Num(if Eval(a, env) == Bool(true) then 1 else 0)
    ensures Result(FlagNot(a), env, h) == Bool(Eval(a, env) != Bool(true))
  {
  }

  /** A marked access and a call of its handler do the same to memory and are logged alike, once. */
  lemma AccessMeaning(env: Env, h: Heap, ptr: Operand, val: Operand, size: nat, marked: bool)
    requires size == 1 || size == 2 || size == 4
    ensures var a, v := Number(ptr, env), ReadMem(h.mem, Number(ptr, env), size);
            && Result(Load(ptr, size, marked), env, h) == Result(CallRead(ptr, size), env, h) == Num(v)
            && Effect(CallRead(ptr, size), env, h) == h.(log := h.log + [Read(a, size, v)])
            && Effect(Load(ptr, size, marked), env, h) == if marked then h.(log := h.log + [Read(a, size, v)]) else h
    ensures var a, w := Number(ptr, env), Number(val, env);
            var v := if size == 1 then w % 0x100 else if size == 2 then w % 0x1_0000 else w;
            var mem := WriteMem(h.mem, a, size, v);
            && Effect(CallWrite(ptr, size, val), env, h) == Heap(mem, h.slots, h.log + [Write(a, size, v)])
            && Effect(Store(val, ptr, size, marked), env, h)
                 == Heap(mem, h.slots, if marked then h.log + [Write(a, size, v)] else h.log)
  {
    hide ReadMem, WriteMem;
  }

  // The instructions.

  /** All registers but `rd`, CPSR and memory are as before. */
  predicate Keeps(s: Machine, s': Machine, rd: Reg) {
    (forall r: Reg :: r != rd ==> s'.regs[r] == s.regs[r]) && s'.cpsr == s.cpsr && s'.mem == s.mem
  }

  lemma MoveMeaning(ins: Insn, s: Machine)
    requires ins.MovImm?
    ensures var s' := Execute(ins, s);
            && s'.regs[ins.rd] == ins.imm && Keeps(s, s', ins.rd)
            && (s'.f.z <==> ins.imm == 0) && (s'.f.n <==> ins.imm >= 0x8000_0000)
            && s'.f.c == s.f.c && s'.f.v == s.f.v
  {
  }

  /** AND, ORR and BIC, bit by bit. */
  lemma LogicalMeaning(ins: Insn, s: Machine, k: nat)
    requires k < 32 && (ins.AndReg? || ins.OrrReg? || ins.BicReg?)
    ensures var s' := Execute(ins, s);
            var x, y, r := s.regs[ins.rn], s.regs[ins.rm], s'.regs[ins.rd];
            && (ins.AndReg? ==> (Bit(r, k) <==> Bit(x, k) && Bit(y, k)))
            && (ins.OrrReg? ==> (Bit(r, k) <==> Bit(x, k) || Bit(y, k)))
            && (ins.BicReg? ==> (Bit(r, k) <==> Bit(x, k) && !Bit(y, k)))
            && (s'.f.z <==> r == 0) && (s'.f.n <==> r >= 0x8000_0000)
            && s'.f.c == s.f.c && s'.f.v == s.f.v && Keeps(s, s', ins.rd)
  {
    hide Bit, Execute, Logical;
    LogicalEffect(ins, s);
    LogicalBits(ins, s.regs[ins.rn], s.regs[ins.rm], k);
  }

  function AddedTo(ins: Insn, s: Machine): Word
    requires ins.AddImm? || ins.AddReg?
  {
    if ins.AddReg? then s.regs[ins.rm] else ins.imm
  }

  lemma AdditionMeaning(ins: Insn, s: Machine)
    requires ins.AddImm? || ins.AddReg?
    ensures var s' := Execute(ins, s);
            var x, y, r := s.regs[ins.rn], AddedTo(ins, s), s'.regs[ins.rd];
            && r == (x + y) % 0x1_0000_0000 && Keeps(s, s', ins.rd)
            && (s'.f.z <==> r == 0) && (s'.f.n <==> r >= 0x8000_0000)
            && (s'.f.c <==> y > x || x + y > 0xFFFF_FFFF)
            && (s'.f.v <==> !(-0x8000_0000 <= SInt(x) + SInt(y) < 0x8000_0000))
  {
    hide Execute;
    AddEffect(ins, s);
  }

  /** SUB, and CMP, which sets the same flags and no register. */
  lemma SubtractionMeaning(ins: Insn, s: Machine)
    requires ins.SubImm? || ins.CmpReg? || ins.CmpImm?
    ensures var s' := Execute(ins, s);
            var x, y := s.regs[ins.rn], if ins.CmpReg? then s.regs[ins.rm] else ins.imm;
            && (if ins.SubImm? then s'.regs[ins.rd] == (x - y) % 0x1_0000_0000 && Keeps(s, s', ins.rd)
                else s'.regs == s.regs && s'.cpsr == s.cpsr && s'.mem == s.mem)
            && (s'.f.z <==> x == y) && (s'.f.n <==> (x - y) % 0x1_0000_0000 >= 0x8000_0000)
            && (s'.f.c <==> x >= y)
            && (s'.f.v <==> !(-0x8000_0000 <= SInt(x) - SInt(y) < 0x8000_0000))
  {
    hide AddWithCarry, Wrap, SInt;
    var x, y := s.regs[ins.rn], if ins.CmpReg? then s.regs[ins.rm] else ins.imm;
    SubtractionFlags(x, y);
    SignedOverflow(s, x, y);
    Remainder(x - y);
  }

  lemma Remainder(d: int)
    ensures Wrap(d) == d % 0x1_0000_0000
  {
  }

  /** LSL and LSR, where LSR by 0 is LSR by 32. The carry is a bit of the result, except then. */
  lemma ShiftMeaning(ins: Insn, s: Machine)
    requires ins.LslImm? || ins.LsrImm?
    ensures var s' := Execute(ins, s);
            var x, r := s.regs[ins.rm], s'.regs[ins.rd];
            && (ins.LslImm? ==> r == x * Pow2(ins.amount) % 0x1_0000_0000 && (s'.f.c <==> Bit(r, 32 - ins.amount)))
            && (ins.LsrImm? && ins.lsr == 0 ==> r == 0 && (s'.f.c <==> x >= 0x8000_0000))
            && (ins.LsrImm? && ins.lsr > 0 ==> r == x / Pow2(ins.lsr) && (s'.f.c <==> Bit(r, ins.lsr - 1)))
            && (s'.f.z <==> r == 0) && (s'.f.n <==> r >= 0x8000_0000)
            && s'.f.v == s.f.v && Keeps(s, s', ins.rd)
  {
    hide Execute, Bit, Pow2;
    ShiftEffect(ins, s);
  }

  /** LDR and LDRH: the bytes at the scaled address, least significant first, and one mark. */
  lemma LoadMeaning(ins: Insn, s: Machine)
    requires ins.Ldr? || ins.LdrHalf?
    ensures var s' := Execute(ins, s);
            var a, r := (s.regs[ins.rn] + (if ins.Ldr? then 4 else 2) * ins.imm) % 0x1_0000_0000, s'.regs[ins.rd];
            && (ins.LdrHalf? ==> r == ByteAt(s.mem, a) + 0x100 * ByteAt(s.mem, a + 1))
            && (ins.Ldr? ==> r == ByteAt(s.mem, a) + 0x100 * ByteAt(s.mem, a + 1)
                                  + 0x1_0000 * ByteAt(s.mem, a + 2) + 0x100_0000 * ByteAt(s.mem, a + 3))
            && Keeps(s, s', ins.rd) && s'.f == s.f
            && Accesses(ins, s) == [Read(a, if ins.Ldr? then 4 else 2, r)]
  {
    hide Execute, Accesses, ReadMem, ByteAt, Wrap;
    LoadEffect(ins, s);
    Remainder(s.regs[ins.rn] + (if ins.Ldr? then 4 else 2) * ins.imm);
    LoadedBytes(s.mem, Wrap(s.regs[ins.rn] + (if ins.Ldr? then 4 else 2) * ins.imm));
  }

  /** STR and STRH: the low bytes of the register at the scaled address, no other byte, and one mark. */
  lemma StoreMeaning(ins: Insn, s: Machine, b: Word)
    requires ins.Str? || ins.StrHalf?
    ensures var s' := Execute(ins, s);
            var size, v := if ins.Str? then 4 else 2, s.regs[ins.rd];
            var a := (s.regs[ins.rn] + size * ins.imm) % 0x1_0000_0000;
            var i := (b - a) % 0x1_0000_0000;
            && ByteAt(s'.mem, b) == (if i >= size then ByteAt(s.mem, b)
                                     else if i == 0 then v % 0x100
                                     else if i == 1 then v / 0x100 % 0x100
                                     else if i == 2 then v / 0x1_0000 % 0x100
                                     else v / 0x100_0000)
            && s'.regs == s.regs && s'.cpsr == s.cpsr && s'.f == s.f
            && Accesses(ins, s) == [Write(a, size, if ins.Str? then v else v % 0x1_0000)]
  {
    hide Execute, Accesses, WriteMem, ByteAt, Narrow, Wrap;
    var size, v := if ins.Str? then 4 else 2, s.regs[ins.rd];
    StoreEffect(ins, s);
    Remainder(s.regs[ins.rn] + size * ins.imm);
    NarrowedValue(v);
    LowDigits(v);
    StoredBytes(s.mem, Wrap(s.regs[ins.rn] + size * ins.imm), size, Narrow(v, size), b);
  }

  lemma LowDigits(v: Word)
    ensures v % 0x1_0000 % 0x100 == v % 0x100 && v % 0x1_0000 / 0x100 % 0x100 == v / 0x100 % 0x100
  {
  }

  /** A PC-relative load: the word at the offset from the address of the instruction plus 4, rounded
      down to a multiple of 4. */
  lemma LiteralMeaning(ins: Insn, s: Machine)
    requires ins.LdrLiteral?
    ensures var s' := Execute(ins, s);
            var base := (s.pc + 4) % 0x1_0000_0000;
            var a := (base / 4 * 4 + ins.literal) % 0x1_0000_0000;
            && s'.regs[ins.rd] == ByteAt(s.mem, a) + 0x100 * ByteAt(s.mem, a + 1)
                                  + 0x1_0000 * ByteAt(s.mem, a + 2) + 0x100_0000 * ByteAt(s.mem, a + 3)
            && Keeps(s, s', ins.rd) && s'.f == s.f && Accesses(ins, s) == []
  {
    hide Execute, Accesses, ReadMem, ByteAt, LiteralAddress, Wrap;
    LiteralEffect(ins, s);
    Rounded(s.pc, ins.literal);
    Remainder(LiteralAddress(s.pc, ins.literal));
    LoadedBytes(s.mem, Wrap(LiteralAddress(s.pc, ins.literal)));
  }

  lemma Rounded(pc: Pc, offset: Word)
    ensures LiteralAddress(pc, offset) == (pc + 4) % 0x1_0000_0000 / 4 * 4 + offset
  {
  }

  /** PUSH: the stack pointer and nothing else among the registers, and no mark. The slots are
      those of PushSlots and PushFrame. */
  lemma PushMeaning(ins: Insn, s: Machine)
    requires ins.Push?
    ensures var s' := Execute(ins, s);
            && s'.regs[SP] == (s.regs[SP] - 4 * |ins.regs|) % 0x1_0000_0000
            && (forall r: Reg :: r != SP ==> s'.regs[r] == s.regs[r])
            && s'.cpsr == s.cpsr && s'.f == s.f && Accesses(ins, s) == []
  {
    hide Execute, Accesses, AfterPush;
    PushEffect(ins, s);
  }

  /** Where control goes: offsets of branches count from the address of the instruction plus 4. */
  lemma BranchMeaning(ins: Insn, size: nat, s: Machine)
    ensures var s' := StepInsn(ins, size, s);
            && (ins.B? ==> s'.pc == (s.pc + 4 + ins.offset) % 0x1_0000_0000_0000_0000)
            && (ins.Bcc? && ConditionHolds(ins.cond, s.f) ==> s'.pc == (s.pc + 4 + ins.offset) % 0x1_0000_0000_0000_0000)
            && (!ins.B? && !(ins.Bcc? && ConditionHolds(ins.cond, s.f)) ==>
                  s'.pc == (s.pc + size) % 0x1_0000_0000_0000_0000)
            && (ins.B? || ins.Bcc? ==> s' == s.(pc := s'.pc) && Accesses(ins, s) == [])
  {
    hide ConditionHolds, AfterPush, LiteralAddress, ReadMem, WriteMem, Subtract, AddAsEmitted, ShiftAsEmitted, Logical;
  }

  /** The conditions in pairs, each the opposite of the other. */
  lemma ConditionMeaning(f: Flags)
    ensures (ConditionHolds(EQ, f) <==> f.z) && (ConditionHolds(NE, f) <==> !f.z)
    ensures (ConditionHolds(HS, f) <==> f.c) && (ConditionHolds(LO, f) <==> !f.c)
    ensures (ConditionHolds(MI, f) <==> f.n) && (ConditionHolds(PL, f) <==> !f.n)
    ensures (ConditionHolds(VS, f) <==> f.v) && (ConditionHolds(VC, f) <==> !f.v)
    ensures (ConditionHolds(HI, f) <==> f.c && !f.z) && (ConditionHolds(LS, f) <==> !f.c || f.z)
    ensures (ConditionHolds(GE, f) <==> f.n == f.v) && (ConditionHolds(LT, f) <==> f.n != f.v)
    ensures (ConditionHolds(GT, f) <==> !f.z && f.n == f.v) && (ConditionHolds(LE, f) <==> f.z || f.n != f.v)
    ensures ConditionHolds(AL, f)
  {
  }

  // What the emitted code does, in the same terms.

  /** The code of a unit, run from any state that shows the machine: each register, each flag, the
      memory, the marks, and where it leaves for. */
  lemma EmittedState(prog: Program, pc: Pc, ins: Insn, size: nat, code: seq<Line>, values: Values, leave: Leave,
                     env: Env, h: Heap, s: Machine, r: Reg)
    requires Implements(prog, pc, ins, size, code, values, leave)
    requires Solves(code, env, h) && Shows(env, PhiValues(Head(pc)), s) && s.pc == pc && s.mem == h.mem
    requires LiteralIntact(prog, ins, s)
    ensures var s' := StepInsn(ins, size, s);
            && Gpr(r) in values && FlagN in values && FlagZ in values && FlagC in values && FlagV in values
            && Number(values[Gpr(r)], env) == s'.regs[r]
            && Truth(values[FlagN], env) == s'.f.n && Truth(values[FlagZ], env) == s'.f.z
            && Truth(values[FlagC], env) == s'.f.c && Truth(values[FlagV], env) == s'.f.v
            && End(code, env, h) == Heap(s'.mem, h.slots, h.log + Accesses(ins, s)) && Target(leave, env) == s'.pc
  {
    hide StepInsn, Shows, Solves, PhiValues, Accesses, LiteralIntact;
    ShownRegister(env, values, StepInsn(ins, size, s), r);
    ShownFlags(env, values, StepInsn(ins, size, s));
  }

  /** The code emitted for AND, ORR and BIC computes each bit of the destination from the bits of
      the operands. */
  lemma EmittedLogical(prog: Program, pc: Pc, ins: Insn, size: nat, code: seq<Line>, values: Values, leave: Leave,
                       env: Env, h: Heap, s: Machine, k: nat)
    requires Implements(prog, pc, ins, size, code, values, leave)
    requires Solves(code, env, h) && Shows(env, PhiValues(Head(pc)), s) && s.pc == pc && s.mem == h.mem
    requires k < 32 && (ins.AndReg? || ins.OrrReg? || ins.BicReg?)
    ensures Gpr(ins.rd) in values && FlagN in values && FlagZ in values
    ensures var x, y, r := s.regs[ins.rn], s.regs[ins.rm], Number(values[Gpr(ins.rd)], env);
            && (ins.AndReg? ==> (Bit(r, k) <==> Bit(x, k) && Bit(y, k)))
            && (ins.OrrReg? ==> (Bit(r, k) <==> Bit(x, k) || Bit(y, k)))
            && (ins.BicReg? ==> (Bit(r, k) <==> Bit(x, k) && !Bit(y, k)))
            && (Truth(values[FlagZ], env) <==> r == 0) && (Truth(values[FlagN], env) <==> r >= 0x8000_0000)
  {
    hide Implements, Shows, Solves, PhiValues, Bit, Execute, Accesses, End;
    EmittedState(prog, pc, ins, size, code, values, leave, env, h, s, ins.rd);
    LogicalMeaning(ins, s, k);
  }

  /** A conditional branch of the graph is taken if its operand is true. */
  lemma TerminatorMeaning(blocks: Blocks, at: Label, env: Env, h: Heap, cond: Operand, yes: Pc, no: Pc)
    requires at in blocks && blocks[at].terms == [CondBr(cond, yes, no)]
    ensures var s := Exec(blocks[at].code, State(env, h));
            && (Eval(cond, s.env) == Bool(true) ==> RunBlock(blocks, Running(at, env, h)) == Enter(blocks, at, yes, s))
            && (Eval(cond, s.env) != Bool(true) ==> RunBlock(blocks, Running(at, env, h)) == Enter(blocks, at, no, s))
  {
    hide Exec, Enter, Eval;
  }

  /** When the machine can go on: at an address of some range, not at an encoding that may be
      invalid, and at no literal that has changed since translation. */
  lemma StepCondition(prog: Program, ranges: seq<Range>, s: Machine)
    ensures CanStep(prog, ranges, s) <==>
            && (exists i :: 0 <= i < |ranges| && ranges[i].0 <= s.pc < ranges[i].1)
            && !prog.decode(s.pc).SoftFail?
            && (prog.decode(s.pc).Success? && prog.decode(s.pc).ins.LdrLiteral? ==>
                  var a := (s.pc + 4) % 0x1_0000_0000 / 4 * 4 + prog.decode(s.pc).ins.literal;
                  ReadMem(s.mem, a % 0x1_0000_0000, 4) == prog.codeWord(a))
  {
    hide ReadMem;
    if InRange(ranges, s.pc) {
      var i :| 0 <= i < |ranges| && Within(ranges[i], s.pc);
      assert ranges[i].0 <= s.pc < ranges[i].1;
    }
    if i :| 0 <= i < |ranges| && ranges[i].0 <= s.pc < ranges[i].1 {
      assert Within(ranges[i], s.pc);
    }
  }

  // The data accesses of a run are what its memory is made of.

  /** Memory after the stores of a log. */
  function Replay(m: Memory, log: seq<Access>): Memory {
    if log == [] then m
    else
      var before := Replay(m, log[..|log| - 1]);
      match log[|log| - 1]
      case Write(a, size, v) => WriteMem(before, a, size, v)
      case Read(_, _, _) => before
  }

  lemma {:induction false} ReplayAppend(m: Memory, a: seq<Access>, b: seq<Access>)
    ensures Replay(m, a + b) == Replay(Replay(m, a), b)
  {
    hide WriteMem;
    if b == [] {
      assert a + b == a;
    } else {
      assert (a + b)[..|a + b| - 1] == a + b[..|b| - 1];
      ReplayAppend(m, a, b[..|b| - 1]);
    }
  }

  lemma {:induction false} PushReplays(regs: seq<Reg>, k: nat, s: Machine)
    requires k <= |regs|
    ensures Replay(s.mem, PushAccesses(regs, k, s)) == PushedMem(regs, k, s)
  {
    hide WriteMem, Wrap;
    if k > 0 {
      PushReplays(regs, k - 1, s);
    }
  }

  lemma ReplayOne(m: Memory, x: Access)
    ensures Replay(m, [x]) == if x.Write? then WriteMem(m, x.addr, x.size, x.value) else m
  {
    hide WriteMem;
    assert [x][..0] == [];
    assert Replay(m, []) == m;
  }

  lemma StepReplays(ins: Insn, s: Machine)
    ensures Replay(s.mem, DataAccesses(ins, s)) == Execute(ins, s).mem
    ensures forall i :: 0 <= i < |DataAccesses(ins, s)| && DataAccesses(ins, s)[i].Read? ==>
              var x := DataAccesses(ins, s)[i];
              x.value == ReadMem(s.mem, x.addr, x.size)
  {
    hide WriteMem, ReadMem, Replay, LiteralAddress, Wrap, AddWithCarry, ShiftAsEmitted, Logical;
    if ins.Push? {
      PushReplays(ins.regs, |ins.regs|, s);
      PushEffect(ins, s);
      PushOnlyWrites(ins.regs, |ins.regs|, s);
    } else if DataAccesses(ins, s) != [] {
      ReplayOne(s.mem, DataAccesses(ins, s)[0]);
      if ins.Str? || ins.StrHalf? {
        StoreEffect(ins, s);
        NarrowTwice(s.regs[ins.rd], 4);
      }
    } else {
      ReplayNothing(s.mem);
    }
  }

  lemma ReplayNothing(m: Memory)
    ensures Replay(m, []) == m
  {
  }

  lemma {:induction false} PushOnlyWrites(regs: seq<Reg>, k: nat, s: Machine)
    requires k <= |regs|
    ensures forall i :: 0 <= i < k ==> PushAccesses(regs, k, s)[i].Write?
  {
    if k > 0 {
      PushOnlyWrites(regs, k - 1, s);
    }
  }

  /** Replaying the stores among the data accesses of a run gives the memory at its end. */
  lemma {:induction false} RunReplays(prog: Program, s: Machine, n: nat)
    ensures Replay(s.mem, DataTrace(prog, s, n)) == MachineRun(prog, s, n).mem
  {
    if n == 0 {
      ReplayNothing(s.mem);
    } else {
      hide Replay, Execute, DataAccesses;
      var s' := MachineRun(prog, s, n - 1);
      RunReplays(prog, s, n - 1);
      ReplayAppend(s.mem, DataTrace(prog, s, n - 1), StepData(prog, s'));
      match prog.decode(s'.pc)
      case Success(ins, _) => StepReplays(ins, s');
      case _ => ReplayNothing(s'.mem);
    }
  }

  // The processor structure.

  /** The machine on entry: every register from its slot, the flags from bits 31, 30, 29 and 28 of CPSR. */
  lemma EntryMeaning(pc: Pc, h: Heap, r: Reg)
    ensures var s := EntryMachine(pc, h);
            var cpsr := if Cpsr in h.slots then h.slots[Cpsr] else 0;
            && s.pc == pc && s.mem == h.mem && s.cpsr == cpsr
            && s.regs[r] == (if Gpr(r) in h.slots then h.slots[Gpr(r)] else 0)
            && (s.f.n <==> Bit(cpsr, 31)) && (s.f.z <==> Bit(cpsr, 30))
            && (s.f.c <==> Bit(cpsr, 29)) && (s.f.v <==> Bit(cpsr, 28))
  {
    hide Bit;
  }

  /** The structure on return: every register in its slot, the flags in those bits, and the low 28
      bits of CPSR untouched. */
  lemma ExitMeaning(s: Machine, slots: map<Id, Word>, r: Reg)
    ensures var after := ExitSlots(s, slots);
            && Gpr(r) in after && after[Gpr(r)] == s.regs[r] && Cpsr in after
            && (Bit(after[Cpsr], 31) <==> s.f.n) && (Bit(after[Cpsr], 30) <==> s.f.z)
            && (Bit(after[Cpsr], 29) <==> s.f.c) && (Bit(after[Cpsr], 28) <==> s.f.v)
            && after[Cpsr] % 0x1000_0000 == s.cpsr % 0x1000_0000
  {
    hide Bit, PackCpsr;
    var packed := s.(cpsr := PackCpsr(s.cpsr, s.f));
    StoredSlot(packed, 16, slots, r);
    StoredSlot(packed, 16, slots, 15);
    UnpackPack(s.cpsr, s.f);
  }

  /** A machine that leaves at once gives back every slot as it was. */
  lemma NothingRun(pc: Pc, h: Heap, id: Id)
    requires forall j :: 0 <= j < 16 ==> REGISTER_DESCRIPTION[j] in h.slots
    requires id in REGISTER_DESCRIPTION
    ensures id in h.slots && id in ExitSlots(EntryMachine(pc, h), h.slots)
    ensures ExitSlots(EntryMachine(pc, h), h.slots)[id] == h.slots[id]
  {
    hide ExitSlots, PackCpsr, UnpackFlags;
    var s := EntryMachine(pc, h);
    PackUnpack(s.cpsr);
    var j :| 0 <= j < 16 && REGISTER_DESCRIPTION[j] == id;
    SlotsAtExit(s, h.slots, j);
  }

  lemma SlotsAtExit(s: Machine, slots: map<Id, Word>, j: nat)
    requires j < 16
    ensures var id := REGISTER_DESCRIPTION[j];
            id in ExitSlots(s, slots)
            && ExitSlots(s, slots)[id] == if j < 15 then s.regs[j] else PackCpsr(s.cpsr, s.f)
  {
    hide PackCpsr;
    StoredSlot(s.(cpsr := PackCpsr(s.cpsr, s.f)), 16, slots, j);
  }
}
