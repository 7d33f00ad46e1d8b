/** The per-instruction translators: code appended to the head block of a unit, and value ids
    rebound to what the new code computes. */
module Emitters {
  import opened Words
  import opened Ir
  import opened Arm

  type Values = map<Id, Operand>

  function PhiValues(l: Label): Values {
    map id: Id | id in VALUE_INFORMATION :: Use(Phi(l, id))
  }

  function Position(id: Id): nat {
    match id
    case Gpr(r) => r
    case Cpsr => 15
    case FlagZ => 16
    case FlagN => 17
    case FlagC => 18
    case FlagV => 19
  }

  lemma AllIds(id: Id)
    ensures Position(id) < |VALUE_INFORMATION| && VALUE_INFORMATION[Position(id)] == id
    ensures id in VALUE_INFORMATION
  {
  }

  lemma DistinctIds(i: nat, j: nat)
    requires i < j < |VALUE_INFORMATION|
    ensures VALUE_INFORMATION[i] != VALUE_INFORMATION[j]
  {
    assert Position(VALUE_INFORMATION[i]) == i;
    assert Position(VALUE_INFORMATION[j]) == j;
  }

  lemma EveryIdOnce()
    ensures forall i, j :: 0 <= i < j < |VALUE_INFORMATION| ==> VALUE_INFORMATION[i] != VALUE_INFORMATION[j]
    ensures forall id: Id :: id in VALUE_INFORMATION
  {
    forall i, j | 0 <= i < j < |VALUE_INFORMATION|
      ensures VALUE_INFORMATION[i] != VALUE_INFORMATION[j]
    {
      DistinctIds(i, j);
    }
    forall id: Id {
      AllIds(id);
    }
  }

  /** `values` has exactly the declared ids and each is a constant or defined in block `l`. */
  ghost predicate LocalValues(values: Values, l: Label, n: nat) {
    forall id: Id :: id in values && InScope(values[id], l, n)
  }

  lemma EveryId(values: Values, l: Label, n: nat)
    requires LocalValues(values, l, n)
    ensures forall id: Id :: id in values
  {
  }

  /** The bindings before anything is known: no id holds a datum. */
  function UnsetValues(): (values: Values)
    ensures forall l: Label :: LocalValues(values, l, 0)
  {
    EveryIdOnce();
    map id | id in VALUE_INFORMATION :: Lit(Void)
  }

  /** Under `env`, the value ids hold the registers and flags of the machine. */
  ghost predicate Shows(env: Env, values: Values, s: Machine) {
    forall id: Id :: id in values && Eval(values[id], env) == s.Get(id)
  }

  /** How control leaves a translated instruction. */
  datatype Leave = Goto(next: Pc) | Choose(cond: Operand, yes: Pc, no: Pc)

  function Target(leave: Leave, env: Env): Pc {
    match leave
    case Goto(next) => next
    case Choose(cond, yes, no) => if Truth(cond, env) then yes else no
  }

  /** The code does to the value ids and the memory what the instruction does to the machine,
      marks the instruction's accesses, and leaves for the machine's next program counter. */
  ghost predicate Implements(prog: Program, pc: Pc, ins: Insn, size: nat, code: seq<Line>, values: Values, leave: Leave) {
    forall env: Env, h: Heap, s: Machine ::
      Solves(code, env, h) && Shows(env, PhiValues(Head(pc)), s) && s.pc == pc && s.mem == h.mem
      && LiteralIntact(prog, ins, s) ==>
        var s' := StepInsn(ins, size, s);
        Shows(env, values, s') && End(code, env, h).mem == s'.mem && End(code, env, h).slots == h.slots
        && End(code, env, h).log == h.log + Accesses(ins, s) && Target(leave, env) == s'.pc
  }

  /** The same for the value ids, the memory and the marks alone, from any binding of the ids. */
  ghost predicate Does(prog: Program, pc: Pc, ins: Insn, before: Values, code: seq<Line>, after: Values) {
    forall env: Env, h: Heap, s: Machine ::
      Solves(code, env, h) && Shows(env, before, s) && s.pc == pc && s.mem == h.mem && LiteralIntact(prog, ins, s) ==>
        Shows(env, after, Execute(ins, s))
        && End(code, env, h).mem == Execute(ins, s).mem && End(code, env, h).slots == h.slots
        && End(code, env, h).log == h.log + Accesses(ins, s)
  }

  ghost predicate LeavesFor(pc: Pc, ins: Insn, size: nat, before: Values, code: seq<Line>, leave: Leave) {
    forall env: Env, h: Heap, s: Machine :: Solves(code, env, h) && Shows(env, before, s) && s.pc == pc ==>
      Target(leave, env) == NextPc(ins, size, s)
  }

  lemma DoesAndLeaves(prog: Program, pc: Pc, ins: Insn, size: nat, code: seq<Line>, values: Values, leave: Leave)
    requires Does(prog, pc, ins, PhiValues(Head(pc)), code, values)
    requires LeavesFor(pc, ins, size, PhiValues(Head(pc)), code, leave)
    ensures Implements(prog, pc, ins, size, code, values, leave)
  {
    hide Execute, NextPc, Solves, End, Shows;
    forall env, h, s | Solves(code, env, h) && Shows(env, PhiValues(Head(pc)), s) && s.pc == pc && s.mem == h.mem
      && LiteralIntact(prog, ins, s)
      ensures Shows(env, values, StepInsn(ins, size, s))
    {
      ShowElsewhere(env, values, Execute(ins, s), StepInsn(ins, size, s));
    }
  }

  ghost predicate EntryShows(pc: Pc, code: seq<Line>, values: Values) {
    forall env: Env, h: Heap :: Solves(code, env, h) ==>
      Shows(env, values, EntryMachine(pc, h)) && End(code, env, h) == h
  }

  ghost predicate ExitStores(code: seq<Line>, values: Values) {
    forall env: Env, h: Heap, s: Machine :: Solves(code, env, h) && Shows(env, values, s) ==>
      End(code, env, h).mem == h.mem && End(code, env, h).slots == ExitSlots(s, h.slots)
      && End(code, env, h).log == h.log
  }

  lemma ShowFlags(env: Env, values: Values, s: Machine, z: Operand, n: Operand, c: Operand, v: Operand, f: Flags)
    requires Shows(env, values, s)
    requires Eval(z, env) == Bool(f.z) && Eval(n, env) == Bool(f.n)
    requires Eval(c, env) == Bool(f.c) && Eval(v, env) == Bool(f.v)
    ensures Shows(env, values[FlagZ := z][FlagN := n][FlagC := c][FlagV := v], s.(f := f))
  {
    hide Eval;
  }

  lemma ShowRegister(env: Env, values: Values, s: Machine, r: Reg, o: Operand, w: Word)
    requires Shows(env, values, s) && Eval(o, env) == Num(w)
    ensures Shows(env, values[Gpr(r) := o], s.Set(r, w))
  {
    hide Eval;
  }

  lemma ShowNZ(env: Env, values: Values, s: Machine, z: Operand, n: Operand, result: Word)
    requires Shows(env, values, s)
    requires Eval(z, env) == Bool(result == 0) && Eval(n, env) == Bool(Bit31(result))
    ensures Shows(env, values[FlagZ := z][FlagN := n], s.SetNZ(result))
  {
    hide Eval, Bit31;
  }

  lemma ShowCarry(env: Env, values: Values, s: Machine, c: Operand, carry: bool)
    requires Shows(env, values, s) && Eval(c, env) == Bool(carry)
    ensures Shows(env, values[FlagC := c], s.(f := s.f.(c := carry)))
  {
    hide Eval;
  }

  /** The value ids say nothing about the memory or the program counter. */
  lemma ShowElsewhere(env: Env, values: Values, s: Machine, s': Machine)
    requires Shows(env, values, s)
    requires s'.regs == s.regs && s'.cpsr == s.cpsr && s'.f == s.f
    ensures Shows(env, values, s')
  {
    assert forall id: Id :: s'.Get(id) == s.Get(id);
  }

  lemma ShowCpsr(env: Env, values: Values, s: Machine, o: Operand, w: Word)
    requires Shows(env, values, s) && Eval(o, env) == Num(w)
    ensures Shows(env, values[Cpsr := o], s.(cpsr := w))
    ensures Eval(values[Cpsr], env) == Num(s.cpsr)
  {
    hide Eval;
    assert s.Get(Cpsr) == Num(s.cpsr);
  }

  lemma ShownValue(env: Env, values: Values, s: Machine, id: Id)
    requires Shows(env, values, s)
    ensures id in values && Eval(values[id], env) == s.Get(id)
  {
  }

  lemma ShowEntry(pc: Pc, env: Env, h: Heap, loaded: Values, values: Values)
    requires forall id: Id :: id in loaded && id in values
    requires forall j | 0 <= j < |REGISTER_DESCRIPTION| ::
               Eval(loaded[REGISTER_DESCRIPTION[j]], env) == Num(SlotAt(h.slots, REGISTER_DESCRIPTION[j]))
    requires forall id :: id !in {FlagZ, FlagN, FlagC, FlagV} ==> values[id] == loaded[id]
    requires var f := UnpackFlags(Number(values[Cpsr], env));
             && Eval(values[FlagZ], env) == Bool(f.z) && Eval(values[FlagN], env) == Bool(f.n)
             && Eval(values[FlagC], env) == Bool(f.c) && Eval(values[FlagV], env) == Bool(f.v)
    ensures Shows(env, values, EntryMachine(pc, h))
  {
    hide Eval, UnpackFlags;
    assert REGISTER_DESCRIPTION[15] == Cpsr;
    forall id: Id
      ensures Eval(values[id], env) == EntryMachine(pc, h).Get(id)
    {
      if id.Gpr? {
        assert REGISTER_DESCRIPTION[id.r] == id;
      }
    }
  }

  // What the instructions with an address, a list or a destination do, without the dispatch.

  lemma LoadEffect(ins: Insn, s: Machine)
    requires ins.LdrHalf? || ins.Ldr?
    ensures var size := if ins.Ldr? then 4 else 2;
            var a := Wrap(s.regs[ins.rn] + size * ins.imm);
            && Execute(ins, s) == s.Set(ins.rd, ReadMem(s.mem, a, size))
            && Accesses(ins, s) == [Read(a, size, ReadMem(s.mem, a, size))]
  {
    hide Wrap, ReadMem;
  }

  lemma StoreEffect(ins: Insn, s: Machine)
    requires ins.StrHalf? || ins.Str?
    ensures var size := if ins.Str? then 4 else 2;
            var a, v := Wrap(s.regs[ins.rn] + size * ins.imm), Narrow(s.regs[ins.rd], size);
            && Execute(ins, s) == s.(mem := WriteMem(s.mem, a, size, v))
            && Accesses(ins, s) == [Write(a, size, v)]
  {
    hide Wrap, WriteMem;
  }

  lemma PushEffect(ins: Insn, s: Machine)
    requires ins.Push?
    ensures Execute(ins, s) == s.(mem := AfterPush(ins.regs, s)).Set(SP, Wrap(s.regs[SP] - 4 * |ins.regs|))
    ensures Accesses(ins, s) == []
  {
    hide Wrap, AfterPush, LiteralAddress, ReadMem, WriteMem, Subtract, AddAsEmitted, ShiftAsEmitted, Logical, Narrow, Bit31;
  }

  lemma LogicalEffect(ins: Insn, s: Machine)
    requires ins.AndReg? || ins.OrrReg? || ins.BicReg?
    ensures var r := Logical(ins, s.regs[ins.rn], s.regs[ins.rm]);
            Execute(ins, s) == s.Set(ins.rd, r).SetNZ(r)
    ensures Accesses(ins, s) == []
  {
    hide Wrap, Logical, Bit31;
  }

  lemma ShiftEffect(ins: Insn, s: Machine)
    requires ins.LslImm? || ins.LsrImm?
    ensures var (r, carry) := ShiftAsEmitted(ins, s.regs[ins.rm]);
            var s' := s.Set(ins.rd, r).SetNZ(r);
            Execute(ins, s) == s'.(f := s'.f.(c := carry))
    ensures Accesses(ins, s) == []
  {
    hide Wrap, ShiftAsEmitted, Bit31;
  }

  lemma MovEffect(ins: Insn, s: Machine)
    requires ins.MovImm?
    ensures Execute(ins, s) == s.Set(ins.rd, ins.imm).SetNZ(ins.imm)
    ensures Accesses(ins, s) == []
  {
    hide Wrap, Bit31;
  }

  lemma AddEffect(ins: Insn, s: Machine)
    requires ins.AddImm? || ins.AddReg?
    ensures Execute(ins, s) == AddAsEmitted(s, ins.rd, s.regs[ins.rn], if ins.AddReg? then s.regs[ins.rm] else ins.imm)
    ensures Accesses(ins, s) == []
  {
    hide Wrap, AddAsEmitted;
  }

  lemma LiteralEffect(ins: Insn, s: Machine)
    requires ins.LdrLiteral?
    ensures Execute(ins, s) == s.Set(ins.rd, ReadMem(s.mem, Wrap(LiteralAddress(s.pc, ins.literal)), 4))
    ensures Accesses(ins, s) == []
  {
    hide Wrap, ReadMem, LiteralAddress;
  }

  lemma LiteralShown(prog: Program, pc: Pc, ins: Insn, env: Env, values: Values, s: Machine)
    requires ins.LdrLiteral? && Shows(env, values, s) && s.pc == pc
    ensures var word := Lit(Num(prog.codeWord(LiteralAddress(pc, ins.literal))));
            Shows(env, values[Gpr(ins.rd) := word], Execute(ins, s)) <==> LiteralIntact(prog, ins, s)
    ensures Execute(ins, s).mem == s.mem && Accesses(ins, s) == []
  {
    hide Wrap, ReadMem, LiteralAddress, Shows, Eval, Execute, Accesses;
    var w := prog.codeWord(LiteralAddress(pc, ins.literal));
    var after := values[Gpr(ins.rd) := Lit(Num(w))];
    LiteralEffect(ins, s);
    ConstantValue(w);
    ShowRegister(env, values, s, ins.rd, Lit(Num(w)), w);
    if Shows(env, after, Execute(ins, s)) {
      ShownRegister(env, after, Execute(ins, s), ins.rd);
    }
  }

  lemma ConstantValue(w: Word)
    ensures forall env :: Eval(Lit(Num(w)), env) == Num(w) && Number(Lit(Num(w)), env) == w
  {
  }

  lemma MovDoes(prog: Program, pc: Pc, ins: Insn, before: Values, code: seq<Line>, after: Values)
    requires ins.MovImm?
    requires forall env, h :: Solves(code, env, h) ==> End(code, env, h) == h
    requires forall env, h, s :: Solves(code, env, h) && Shows(env, before, s) ==>
               Shows(env, after, s.Set(ins.rd, ins.imm).SetNZ(ins.imm))
    ensures Does(prog, pc, ins, before, code, after)
  {
    hide Solves, End, Bit31, Shows, Execute, Accesses, LiteralIntact;
    forall env, h, s | Solves(code, env, h) && Shows(env, before, s)
      ensures Shows(env, after, Execute(ins, s)) && End(code, env, h) == h
      ensures Execute(ins, s).mem == s.mem && Accesses(ins, s) == []
    {
      MovEffect(ins, s);
    }
  }

  lemma NextPush(regs: seq<Reg>, k: nat, s: Machine)
    requires k < |regs|
    ensures Wrap(Wrap(s.regs[SP] - 4 * k) - 4) == Wrap(s.regs[SP] - 4 * (k + 1))
    ensures PushedMem(regs, k + 1, s) == WriteMem(PushedMem(regs, k, s), Wrap(s.regs[SP] - 4 * (k + 1)), 4, s.regs[regs[k]])
  {
    hide WriteMem;
  }

  lemma NarrowTwice(v: Word, size: nat)
    ensures Narrow(Narrow(v, size), size) == Narrow(v, size)
    ensures size == 4 ==> Narrow(v, size) == v
  {
  }

  lemma NoCode(prog: Program, pc: Pc, ins: Insn, values: Values)
    requires ins.B?
    ensures Does(prog, pc, ins, values, [], values)
  {
  }

  lemma ShownFlags(env: Env, values: Values, s: Machine)
    requires Shows(env, values, s)
    ensures FlagZ in values && FlagN in values && FlagC in values && FlagV in values
    ensures Truth(values[FlagZ], env) == s.f.z && Truth(values[FlagN], env) == s.f.n
    ensures Truth(values[FlagC], env) == s.f.c && Truth(values[FlagV], env) == s.f.v
  {
    assert s.Get(FlagZ) == Bool(s.f.z) && s.Get(FlagN) == Bool(s.f.n);
    assert s.Get(FlagC) == Bool(s.f.c) && s.Get(FlagV) == Bool(s.f.v);
  }

  predicate LeaveInScope(leave: Leave, l: Label, n: nat) {
    leave.Choose? ==> InScope(leave.cond, l, n)
  }

  lemma ShownRegister(env: Env, values: Values, s: Machine, r: Reg)
    requires Shows(env, values, s)
    ensures Gpr(r) in values && Eval(values[Gpr(r)], env) == Num(s.regs[r])
  {
    assert s.Get(Gpr(r)) == Num(s.regs[r]);
  }

  class UnitBuilder {
    const block: Label
    var code: seq<Line>
    var values: Values

    ghost predicate Valid()
      reads this
    {
      Scoped(code, block) && LocalValues(values, block, |code|)
    }

    constructor (l: Label, values: Values)
      requires LocalValues(values, l, 0)
      ensures Valid() && block == l && code == [] && this.values == values
    {
      block := l;
      code := [];
      this.values := values;
    }

    method Append(ins: Instr) returns (v: Operand)
      requires Valid() && OperandsInScope(ins, block, |code|)
      modifies this`code
      ensures Valid() && |code| > |old(code)| && InScope(v, block, |code|)
      ensures forall env, h :: Solves(code, env, h) ==>
                && Solves(old(code), env, h)
                && Eval(v, env) == Result(ins, env, End(old(code), env, h))
                && End(code, env, h) == Effect(ins, env, End(old(code), env, h))
    {
      v := Use(Res(block, |code|));
      code := code + [Line(Res(block, |code|), ins)];
      assert code[..|code| - 1] == old(code);
    }

    method SetValue(id: Id, v: Operand)
      requires Valid() && InScope(v, block, |code|)
      modifies this`values
      ensures Valid() && values == old(values)[id := v]
    {
      values := values[id := v];
    }

    method AppendFlag(fop: FlagOp, a: Operand, b: Operand) returns (v: Operand)
      requires Valid() && InScope(a, block, |code|) && InScope(b, block, |code|)
      modifies this`code
      ensures Valid() && |code| > |old(code)| && InScope(v, block, |code|)
      ensures forall env, h :: Solves(code, env, h) ==>
                && Solves(old(code), env, h)
                && End(code, env, h) == End(old(code), env, h)
                && Eval(v, env) == Bool(ApplyFlag(fop, Truth(a, env), Truth(b, env)))
    {
      v := Append(Flag(fop, a, b));
    }

    method AppendCompare(cmp: Comparison, a: Operand, b: Operand) returns (v: Operand)
      requires Valid() && InScope(a, block, |code|) && InScope(b, block, |code|)
      modifies this`code
      ensures Valid() && |code| > |old(code)| && InScope(v, block, |code|)
      ensures forall env, h :: Solves(code, env, h) ==>
                && Solves(old(code), env, h)
                && End(code, env, h) == End(old(code), env, h)
                && Eval(v, env) == Bool(ApplyComparison(cmp, Number(a, env), Number(b, env)))
    {
      v := Append(ICmp(cmp, a, b));
    }

    method AppendBinary(op: BinaryOp, a: Operand, b: Operand) returns (v: Operand)
      requires Valid() && InScope(a, block, |code|) && InScope(b, block, |code|)
      modifies this`code
      ensures Valid() && |code| > |old(code)| && InScope(v, block, |code|)
      ensures forall env, h :: Solves(code, env, h) ==>
                && Solves(old(code), env, h)
                && End(code, env, h) == End(old(code), env, h)
                && Eval(v, env) == Num(ApplyBinary(op, Number(a, env), Number(b, env)))
    {
      v := Append(Binary(op, a, b));
    }

    method AppendSign(x: Operand) returns (v: Operand)
      requires Valid() && InScope(x, block, |code|)
      modifies this`code
      ensures Valid() && |code| > |old(code)| && InScope(v, block, |code|)
      ensures forall env, h :: Solves(code, env, h) ==>
                && Solves(old(code), env, h)
                && End(code, env, h) == End(old(code), env, h)
                && Eval(v, env) == Bool(Bit31(Number(x, env)))
    {
      hide Solves, End;
      var top := AppendBinary(LshrOp, x, Lit(Num(31)));
      v := AppendCompare(Ne, top, Lit(Num(0)));
      forall env, h | Solves(code, env, h)
        ensures Eval(v, env) == Bool(Bit31(Number(x, env)))
      {
        TopBit(Number(x, env));
      }
    }

    method AppendNot(a: Operand) returns (v: Operand)
      requires Valid() && InScope(a, block, |code|)
      modifies this`code
      ensures Valid() && |code| > |old(code)| && InScope(v, block, |code|)
      ensures forall env, h :: Solves(code, env, h) ==>
                && Solves(old(code), env, h)
                && End(code, env, h) == End(old(code), env, h)
                && Eval(v, env) == Bool(!Truth(a, env))
    {
      v := Append(FlagNot(a));
    }

    method AppendIsZero(x: Operand) returns (v: Operand)
      requires Valid() && InScope(x, block, |code|)
      modifies this`code
      ensures Valid() && |code| > |old(code)| && InScope(v, block, |code|)
      ensures forall env, h :: Solves(code, env, h) ==>
                && Solves(old(code), env, h)
                && End(code, env, h) == End(old(code), env, h)
                && Eval(v, env) == Bool(Number(x, env) == 0)
    {
      v := AppendCompare(Eq, x, Lit(Num(0)));
    }

    /** Whether bit `k` is set, as the shift translators compute it. */
    method AppendBitTest(x: Operand, k: nat) returns (v: Operand)
      requires Valid() && InScope(x, block, |code|) && k < 32
      modifies this`code
      ensures Valid() && |code| > |old(code)| && InScope(v, block, |code|)
      ensures forall env, h :: Solves(code, env, h) ==>
                && Solves(old(code), env, h)
                && End(code, env, h) == End(old(code), env, h)
                && Eval(v, env) == Bool(Bit(Number(x, env), k))
    {
      hide Solves, End, Bit, Words.And, Words.Lshr;
      var shifted := AppendBinary(LshrOp, x, Lit(Num(k)));
      var bit := AppendBinary(AndOp, shifted, Lit(Num(1)));
      v := AppendCompare(Ne, bit, Lit(Num(0)));
      forall env, h | Solves(code, env, h)
        ensures Eval(v, env) == Bool(Bit(Number(x, env), k))
      {
        TestBit(Number(x, env), k);
      }
    }

    /** The overflow flag, from the signs of the operands and of the result. */
    method AppendOverflow(subtract: bool, lhs: Operand, rhs: Operand, result: Operand) returns (v: Operand)
      requires Valid() && InScope(lhs, block, |code|) && InScope(rhs, block, |code|) && InScope(result, block, |code|)
      modifies this`code
      ensures Valid() && |code| > |old(code)| && InScope(v, block, |code|)
      ensures forall env, h :: Solves(code, env, h) ==>
                && Solves(old(code), env, h)
                && End(code, env, h) == End(old(code), env, h)
                && var x, y, r := Number(lhs, env), Number(rhs, env), Number(result, env);
                   Eval(v, env) == Bool((Bit31(x) != Bit31(y)) == subtract && Bit31(x) != Bit31(r))
    {
      hide Solves, End, Valid, Number, Bit31, Eval;
      var lhsSign := AppendSign(lhs);
      var rhsSign := AppendSign(rhs);
      var resultSign := AppendSign(result);
      var signs := AppendFlag(FXor, lhsSign, rhsSign);
      if !subtract {
        signs := AppendNot(signs);
      }
      var changed := AppendFlag(FXor, lhsSign, resultSign);
      v := AppendFlag(FAnd, signs, changed);
    }

    method SetFlags(z: Operand, n: Operand, c: Operand, v: Operand)
      requires Valid() && InScope(z, block, |code|) && InScope(n, block, |code|)
      requires InScope(c, block, |code|) && InScope(v, block, |code|)
      modifies this`values
      ensures Valid() && values == old(values)[FlagZ := z][FlagN := n][FlagC := c][FlagV := v]
    {
      SetValue(FlagZ, z);
      SetValue(FlagN, n);
      SetValue(FlagC, c);
      SetValue(FlagV, v);
    }

    /** The flags of `lhs - rhs`, given the difference (CMP computes it twice). */
    method SetSubtractionFlags(lhs: Operand, rhs: Operand, diff: Operand, diff2: Operand)
      requires Valid() && InScope(lhs, block, |code|) && InScope(rhs, block, |code|)
      requires InScope(diff, block, |code|) && InScope(diff2, block, |code|)
      requires forall env, h :: Solves(code, env, h) ==>
                 Number(diff, env) == Number(diff2, env) == Wrap(Number(lhs, env) - Number(rhs, env))
      modifies this
      ensures Valid()
      ensures forall env, h :: Solves(code, env, h) ==>
                Solves(old(code), env, h) && End(code, env, h) == End(old(code), env, h)
      ensures forall env, h, s :: Solves(code, env, h) && Shows(env, old(values), s) ==>
                Shows(env, values, Subtract(s, Number(lhs, env), Number(rhs, env)).1)
    {
      hide Solves, End, Bit31, AddWithCarry, Eval, Shows;
      var z := AppendCompare(Eq, lhs, rhs);
      var c := AppendCompare(Uge, lhs, rhs);
      var n := AppendSign(diff);
      var v := AppendOverflow(true, lhs, rhs, diff2);
      SetFlags(z, n, c, v);
      forall env, h, s | Solves(code, env, h) && Shows(env, old(values), s)
        ensures Shows(env, values, Subtract(s, Number(lhs, env), Number(rhs, env)).1)
      {
        var x, y := Number(lhs, env), Number(rhs, env);
        SubtractionFlags(x, y);
        ShowFlags(env, old(values), s, z, n, c, v, Subtract(s, x, y).1.f);
      }
    }

    /** tCMPr, tCMPi8 */
    method TranslateCmp(prog: Program, pc: Pc, ins: Insn)
      requires Valid() && code == []
      requires ins.CmpReg? || ins.CmpImm?
      modifies this
      ensures Valid() && Does(prog, pc, ins, old(values), code, values)
    {
      hide Solves, Bit31, AddWithCarry, Shows;
      var lhs := values[Gpr(ins.rn)];
      var rhs := if ins.CmpReg? then values[Gpr(ins.rm)] else Lit(Num(ins.imm));
      var diff := AppendBinary(Sub, lhs, rhs);
      var diff2 := AppendBinary(Sub, lhs, rhs);
      SetSubtractionFlags(lhs, rhs, diff, diff2);
      forall env, h, s | Solves(code, env, h) && Shows(env, old(values), s)
        ensures Shows(env, values, Execute(ins, s)) && End(code, env, h) == h
      {
        ShownRegister(env, old(values), s, ins.rn);
        if ins.CmpReg? {
          ShownRegister(env, old(values), s, ins.rm);
        }
      }
    }

    /** tSUBi8 */
    method TranslateSub(prog: Program, pc: Pc, ins: Insn)
      requires Valid() && code == [] && ins.SubImm?
      modifies this
      ensures Valid() && Does(prog, pc, ins, old(values), code, values)
    {
      hide Solves, Bit31, AddWithCarry, Shows;
      var lhs := values[Gpr(ins.rn)];
      var rhs := Lit(Num(ins.imm));
      var result := AppendBinary(Sub, lhs, rhs);
      SetValue(Gpr(ins.rd), result);
      SetSubtractionFlags(lhs, rhs, result, result);
      forall env, h, s | Solves(code, env, h) && Shows(env, old(values), s)
        ensures Shows(env, values, Execute(ins, s)) && End(code, env, h) == h
      {
        ShownRegister(env, old(values), s, ins.rn);
        var x: int, y: int := s.regs[ins.rn], ins.imm;
        SubtractionFlags(x, y);
        ShowRegister(env, old(values), s, ins.rd, result, Wrap(x - y));
        assert Execute(ins, s) == Subtract(s.Set(ins.rd, Wrap(x - y)), x, y).1;
      }
    }

    /** tADDi8, tADDi3, tADDrr */
    method TranslateAdd(prog: Program, pc: Pc, ins: Insn)
      requires Valid() && code == []
      requires ins.AddImm? || ins.AddReg?
      modifies this
      ensures Valid() && Does(prog, pc, ins, old(values), code, values)
    {
      hide Solves, Bit31, AddWithCarry, Shows, Execute, Accesses;
      var lhs := values[Gpr(ins.rn)];
      var rhs := if ins.AddReg? then values[Gpr(ins.rm)] else Lit(Num(ins.imm));
      var result := AppendBinary(Add, lhs, rhs);
      SetValue(Gpr(ins.rd), result);
      SetAdditionFlags(lhs, rhs, result);
      forall env, h, s | Solves(code, env, h) && Shows(env, old(values), s)
        ensures Shows(env, values, Execute(ins, s)) && End(code, env, h) == h
        ensures Execute(ins, s).mem == s.mem && Accesses(ins, s) == []
      {
        AddEffect(ins, s);
        ShownRegister(env, old(values), s, ins.rn);
        if ins.AddReg? {
          ShownRegister(env, old(values), s, ins.rm);
        }
        var x: int, y: int := s.regs[ins.rn], if ins.AddReg? then s.regs[ins.rm] else ins.imm;
        AdditionFlags(x, y);
        ShowRegister(env, old(values), s, ins.rd, result, Wrap(x + y));
      }
    }

    method SetAdditionFlags(lhs: Operand, rhs: Operand, sum: Operand)
      requires Valid() && InScope(lhs, block, |code|) && InScope(rhs, block, |code|) && InScope(sum, block, |code|)
      requires forall env, h :: Solves(code, env, h) ==> Number(sum, env) == Wrap(Number(lhs, env) + Number(rhs, env))
      modifies this
      ensures Valid()
      ensures forall env, h :: Solves(code, env, h) ==>
                Solves(old(code), env, h) && End(code, env, h) == End(old(code), env, h)
      ensures forall env, h, s :: Solves(code, env, h) && Shows(env, old(values), s) ==>
                var x, y, r := Number(lhs, env), Number(rhs, env), Number(sum, env);
                Shows(env, values, s.(f := Flags(Bit31(r), r == 0, y > x || r < x, AddWithCarry(x, y, false).overflow)))
    {
      hide Solves, End, Bit31, AddWithCarry, Eval, Shows;
      var z := AppendIsZero(sum);
      var n := AppendSign(sum);
      var larger := AppendCompare(Ugt, rhs, lhs);
      var wrapped := AppendCompare(Ult, sum, lhs);
      var c := AppendFlag(FOr, larger, wrapped);
      var v := AppendOverflow(false, lhs, rhs, sum);
      SetFlags(z, n, c, v);
      forall env, h, s | Solves(code, env, h) && Shows(env, old(values), s)
        ensures var x, y, r := Number(lhs, env), Number(rhs, env), Number(sum, env);
                Shows(env, values, s.(f := Flags(Bit31(r), r == 0, y > x || r < x, AddWithCarry(x, y, false).overflow)))
      {
        var x, y, r := Number(lhs, env), Number(rhs, env), Number(sum, env);
        AdditionFlags(x, y);
        ShowFlags(env, old(values), s, z, n, c, v, Flags(Bit31(r), r == 0, y > x || r < x, AddWithCarry(x, y, false).overflow));
      }
    }

    /** Binds a register to a result and N and Z to its sign and zeroness. */
    method SetResult(rd: Reg, result: Operand)
      requires Valid() && InScope(result, block, |code|)
      requires forall env, h :: Solves(code, env, h) ==> Eval(result, env).Num?
      modifies this
      ensures Valid() && |code| >= |old(code)|
      ensures Gpr(rd) in values && values[Gpr(rd)] == result
      ensures forall env, h :: Solves(code, env, h) ==>
                Solves(old(code), env, h) && End(code, env, h) == End(old(code), env, h)
      ensures forall env, h, s :: Solves(code, env, h) && Shows(env, old(values), s) ==>
                var r := Number(result, env);
                Shows(env, values, s.Set(rd, r).SetNZ(r))
    {
      hide Solves, End, Bit31, Shows;
      SetValue(Gpr(rd), result);
      var z := AppendIsZero(result);
      SetValue(FlagZ, z);
      var n := AppendSign(result);
      SetValue(FlagN, n);
      forall env, h, s | Solves(code, env, h) && Shows(env, old(values), s)
        ensures var r := Number(result, env);
                Shows(env, values, s.Set(rd, r).SetNZ(r))
      {
        var r := Number(result, env);
        ShowRegister(env, old(values), s, rd, result, r);
        ShowNZ(env, old(values)[Gpr(rd) := result], s.Set(rd, r), z, n, r);
      }
    }

    /** tMOVi8 */
    method TranslateMov(prog: Program, pc: Pc, ins: Insn)
      requires Valid() && code == [] && ins.MovImm?
      modifies this
      ensures Valid() && Does(prog, pc, ins, old(values), code, values)
    {
      hide Solves, Shows, Does, Eval, Number, Bit31;
      var constant := Lit(Num(ins.imm));
      ConstantValue(ins.imm);
      SetResult(ins.rd, constant);
      MovDoes(prog, pc, ins, old(values), code, values);
    }

    method AppendComplement(a: Operand) returns (v: Operand)
      requires Valid() && InScope(a, block, |code|)
      modifies this`code
      ensures Valid() && |code| > |old(code)| && InScope(v, block, |code|)
      ensures forall env, h :: Solves(code, env, h) ==>
                && Solves(old(code), env, h)
                && End(code, env, h) == End(old(code), env, h)
                && Eval(v, env) == Num(NotWord(Number(a, env)))
    {
      v := Append(Not(a));
    }

    method AppendLogical(ins: Insn, lhs: Operand, rhs: Operand) returns (result: Operand)
      requires Valid() && InScope(lhs, block, |code|) && InScope(rhs, block, |code|)
      requires ins.AndReg? || ins.OrrReg? || ins.BicReg?
      modifies this`code
      ensures Valid() && |code| > |old(code)| && InScope(result, block, |code|)
      ensures forall env, h :: Solves(code, env, h) ==>
                && Solves(old(code), env, h)
                && End(code, env, h) == End(old(code), env, h)
                && Eval(result, env) == Num(Logical(ins, Number(lhs, env), Number(rhs, env)))
    {
      hide Solves, End, Words.And, OrWord;
      var mask := rhs;
      if ins.BicReg? {
        mask := AppendComplement(rhs);
      }
      result := AppendBinary(if ins.OrrReg? then OrOp else AndOp, lhs, mask);
    }

    /** tAND, tORR, tBIC */
    method TranslateLogical(prog: Program, pc: Pc, ins: Insn)
      requires Valid() && code == []
      requires ins.AndReg? || ins.OrrReg? || ins.BicReg?
      modifies this
      ensures Valid() && Does(prog, pc, ins, old(values), code, values)
      ensures forall env, h, k :: Solves(code, env, h) && 0 <= k < 32 ==>
                var x, y := Number(old(values)[Gpr(ins.rn)], env), Number(old(values)[Gpr(ins.rm)], env);
                var r := Number(values[Gpr(ins.rd)], env);
                && (ins.AndReg? ==> (Bit(r, k) <==> Bit(x, k) && Bit(y, k)))
                && (ins.OrrReg? ==> (Bit(r, k) <==> Bit(x, k) || Bit(y, k)))
                && (ins.BicReg? ==> (Bit(r, k) <==> Bit(x, k) && !Bit(y, k)))
    {
      hide Solves, Bit31, Bit, Shows, Logical, Eval, Execute, Accesses;
      var lhs, rhs := values[Gpr(ins.rn)], values[Gpr(ins.rm)];
      var result := AppendLogical(ins, lhs, rhs);
      forall env, k | 0 <= k < 32
        ensures var x, y := Number(lhs, env), Number(rhs, env);
                var r := Logical(ins, x, y);
                && (ins.AndReg? ==> (Bit(r, k) <==> Bit(x, k) && Bit(y, k)))
                && (ins.OrrReg? ==> (Bit(r, k) <==> Bit(x, k) || Bit(y, k)))
                && (ins.BicReg? ==> (Bit(r, k) <==> Bit(x, k) && !Bit(y, k)))
      {
        LogicalBits(ins, Number(lhs, env), Number(rhs, env), k);
      }
      SetResult(ins.rd, result);
      forall env, h, s | Solves(code, env, h) && Shows(env, old(values), s)
        ensures Shows(env, values, Execute(ins, s)) && End(code, env, h) == h
        ensures Execute(ins, s).mem == s.mem && Accesses(ins, s) == []
      {
        LogicalEffect(ins, s);
        ShownRegister(env, old(values), s, ins.rn);
        ShownRegister(env, old(values), s, ins.rm);
      }
    }

    method AppendShift(ins: Insn, rm: Operand) returns (result: Operand, c: Operand)
      requires Valid() && InScope(rm, block, |code|)
      requires ins.LslImm? || ins.LsrImm?
      modifies this`code
      ensures Valid() && |code| > |old(code)| && InScope(result, block, |code|) && InScope(c, block, |code|)
      ensures forall env, h :: Solves(code, env, h) ==>
                && Solves(old(code), env, h)
                && End(code, env, h) == End(old(code), env, h)
                && var (r, carry) := ShiftAsEmitted(ins, Number(rm, env));
                   Eval(result, env) == Num(r) && Eval(c, env) == Bool(carry)
    {
      hide Solves, End, Bit31, Bit, Words.Lshr, Words.Shl;
      if ins.LslImm? {
        result := AppendBinary(ShlOp, rm, Lit(Num(ins.amount)));
        c := AppendBitTest(result, 32 - ins.amount);
      } else if ins.lsr == 0 {
        result := Lit(Num(0));
        c := AppendSign(rm);
      } else {
        result := AppendBinary(LshrOp, rm, Lit(Num(ins.lsr)));
        c := AppendBitTest(result, ins.lsr - 1);
      }
    }

    /** tLSLri, tLSRri */
    method TranslateShift(prog: Program, pc: Pc, ins: Insn)
      requires Valid() && code == []
      requires ins.LslImm? || ins.LsrImm?
      modifies this
      ensures Valid() && Does(prog, pc, ins, old(values), code, values)
    {
      hide Solves, Bit31, Shows, ShiftAsEmitted, Eval, Execute, Accesses;
      var rm := values[Gpr(ins.rm)];
      var result, c := AppendShift(ins, rm);
      SetResult(ins.rd, result);
      ghost var shown := values;
      SetValue(FlagC, c);
      forall env, h, s | Solves(code, env, h) && Shows(env, old(values), s)
        ensures Shows(env, values, Execute(ins, s)) && End(code, env, h) == h
        ensures Execute(ins, s).mem == s.mem && Accesses(ins, s) == []
      {
        ShiftEffect(ins, s);
        ShownRegister(env, old(values), s, ins.rm);
        var (r, carry) := ShiftAsEmitted(ins, s.regs[ins.rm]);
        ShowCarry(env, shown, s.Set(ins.rd, r).SetNZ(r), c, carry);
      }
    }

    /** The address `rn + size * imm`, as the memory translators compute it. */
    method AppendAddress(rn: Operand, imm: Word, size: nat) returns (addr: Operand)
      requires Valid() && InScope(rn, block, |code|)
      modifies this`code
      ensures Valid() && |code| > |old(code)| && InScope(addr, block, |code|)
      ensures forall env, h :: Solves(code, env, h) ==>
                && Solves(old(code), env, h)
                && End(code, env, h) == End(old(code), env, h)
                && Eval(addr, env) == Num(Wrap(Number(rn, env) + size * imm))
    {
      hide Solves, End;
      var base := Append(Cast(rn, 4));
      addr := Append(Gep(base, Lit(Num(imm)), size));
    }

    /** A marked load, widened to a register. */
    method AppendLoad(addr: Operand, size: nat) returns (value: Operand)
      requires Valid() && InScope(addr, block, |code|) && (size == 2 || size == 4)
      modifies this`code
      ensures Valid() && |code| > |old(code)| && InScope(value, block, |code|)
      ensures forall env, h :: Solves(code, env, h) ==>
                && Solves(old(code), env, h)
                && var before, a := End(old(code), env, h), Number(addr, env);
                   && Eval(value, env) == Num(ReadMem(before.mem, a, size))
                   && End(code, env, h) == before.(log := before.log + [Read(a, size, ReadMem(before.mem, a, size))])
    {
      hide Solves, End, ReadMem;
      var load := Append(Load(addr, size, true));
      value := Append(Cast(load, 4));
    }

    /** tLDRHi, tLDRi */
    method TranslateLoad(prog: Program, pc: Pc, ins: Insn)
      requires Valid() && code == []
      requires ins.LdrHalf? || ins.Ldr?
      modifies this
      ensures Valid() && Does(prog, pc, ins, old(values), code, values)
    {
      hide Solves, Shows, ReadMem, Eval, Execute, Accesses, Wrap;
      var size := if ins.Ldr? then 4 else 2;
      var addr := AppendAddress(values[Gpr(ins.rn)], ins.imm, size);
      var value := AppendLoad(addr, size);
      SetValue(Gpr(ins.rd), value);
      forall env, h, s | Solves(code, env, h) && Shows(env, old(values), s) && s.mem == h.mem
        ensures Shows(env, values, Execute(ins, s))
        ensures End(code, env, h) == h.(log := h.log + Accesses(ins, s)) && Execute(ins, s).mem == s.mem
      {
        LoadEffect(ins, s);
        ShownRegister(env, old(values), s, ins.rn);
        ShowRegister(env, old(values), s, ins.rd, value, ReadMem(s.mem, Wrap(s.regs[ins.rn] + size * ins.imm), size));
      }
    }

    /** A marked store of the low bytes of a register. */
    method AppendStore(value: Operand, addr: Operand, size: nat)
      requires Valid() && InScope(value, block, |code|) && InScope(addr, block, |code|) && (size == 2 || size == 4)
      modifies this`code
      ensures Valid() && |code| > |old(code)|
      ensures forall env, h :: Solves(code, env, h) ==>
                && Solves(old(code), env, h)
                && var before, a, v := End(old(code), env, h), Number(addr, env), Narrow(Number(value, env), size);
                   End(code, env, h) == Heap(WriteMem(before.mem, a, size, v), before.slots, before.log + [Write(a, size, v)])
    {
      hide Solves, End, WriteMem;
      var _ := Append(Store(value, addr, size, true));
    }

    /** The value that a store of a register writes; a halfword is cast first. */
    method AppendNarrow(value: Operand, size: nat) returns (v: Operand)
      requires Valid() && InScope(value, block, |code|) && (size == 2 || size == 4)
      modifies this`code
      ensures Valid() && |code| >= |old(code)| && InScope(v, block, |code|)
      ensures forall env, h :: Solves(code, env, h) ==>
                && Solves(old(code), env, h)
                && End(code, env, h) == End(old(code), env, h)
                && Number(v, env) == Narrow(Number(value, env), size)
    {
      v := value;
      if size == 2 {
        v := Append(Cast(value, 2));
      }
    }

    /** A marked store of the low bytes of a register at a scaled offset from another. */
    method AppendIndexedStore(rd: Operand, rn: Operand, imm: Word, size: nat)
      requires Valid() && InScope(rd, block, |code|) && InScope(rn, block, |code|) && (size == 2 || size == 4)
      modifies this`code
      ensures Valid()
      ensures forall env, h :: Solves(code, env, h) ==>
                && Solves(old(code), env, h)
                && var before := End(old(code), env, h);
                   var a, v := Wrap(Number(rn, env) + size * imm), Narrow(Number(rd, env), size);
                   End(code, env, h) == Heap(WriteMem(before.mem, a, size, v), before.slots, before.log + [Write(a, size, v)])
    {
      hide Solves, End, WriteMem, Narrow, Wrap;
      var value := AppendNarrow(rd, size);
      var addr := AppendAddress(rn, imm, size);
      AppendStore(value, addr, size);
      forall env
        ensures Narrow(Narrow(Number(rd, env), size), size) == Narrow(Number(rd, env), size)
      {
        NarrowTwice(Number(rd, env), size);
      }
    }

    /** tSTRHi, tSTRi */
    method TranslateStore(prog: Program, pc: Pc, ins: Insn)
      requires Valid() && code == []
      requires ins.StrHalf? || ins.Str?
      modifies this
      ensures Valid() && Does(prog, pc, ins, old(values), code, values)
    {
      hide Solves, Shows, WriteMem, Eval, Execute, Accesses, Narrow, Wrap;
      var size := if ins.Str? then 4 else 2;
      AppendIndexedStore(values[Gpr(ins.rd)], values[Gpr(ins.rn)], ins.imm, size);
      forall env, h, s | Solves(code, env, h) && Shows(env, old(values), s) && s.mem == h.mem
        ensures Shows(env, values, Execute(ins, s))
        ensures End(code, env, h) == Heap(Execute(ins, s).mem, h.slots, h.log + Accesses(ins, s))
      {
        StoreEffect(ins, s);
        ShownRegister(env, old(values), s, ins.rn);
        ShownRegister(env, old(values), s, ins.rd);
        ShowElsewhere(env, values, s, Execute(ins, s));
      }
    }

    /** tLDRpciASM: the word is read from code memory during translation. That is right exactly
        as long as memory still holds it. */
    method TranslateLoadLiteral(prog: Program, pc: Pc, ins: Insn)
      requires Valid() && code == [] && ins.LdrLiteral?
      modifies this
      ensures Valid() && Does(prog, pc, ins, old(values), code, values)
      ensures forall env, s :: Shows(env, old(values), s) && s.pc == pc ==>
                (Shows(env, values, Execute(ins, s)) <==> LiteralIntact(prog, ins, s))
    {
      hide ReadMem, LiteralAddress, LiteralIntact, Shows, Eval, Execute, Accesses;
      var word := prog.codeWord(LiteralAddress(pc, ins.literal));
      SetValue(Gpr(ins.rd), Lit(Num(word)));
      forall env, s | Shows(env, old(values), s) && s.pc == pc
        ensures Shows(env, values, Execute(ins, s)) <==> LiteralIntact(prog, ins, s)
        ensures Execute(ins, s).mem == s.mem && Accesses(ins, s) == []
      {
        LiteralShown(prog, pc, ins, env, old(values), s);
      }
    }

    /** Decrements the stack pointer and stores one register below everything pushed so far.
        The store carries no access mark. */
    method AppendPush(value: Operand, sp: Operand) returns (below: Operand)
      requires Valid() && InScope(value, block, |code|) && InScope(sp, block, |code|)
      modifies this`code
      ensures Valid() && |code| > |old(code)| && InScope(below, block, |code|)
      ensures forall env, h :: Solves(code, env, h) ==>
                && Solves(old(code), env, h)
                && Eval(below, env) == Num(Wrap(Number(sp, env) - 4))
                && var before, after := End(old(code), env, h), End(code, env, h);
                   && after.mem == WriteMem(before.mem, Wrap(Number(sp, env) - 4), 4, Number(value, env))
                   && after.slots == before.slots && after.log == before.log
    {
      hide Solves, End, WriteMem;
      below := Append(Gep(sp, Lit(Num(0xFFFF_FFFF)), 4));
      var store := Append(Store(value, below, 4, false));
    }

    /** Pointer casts and zero extensions. */
    method AppendCast(a: Operand) returns (v: Operand)
      requires Valid() && InScope(a, block, |code|)
      modifies this`code
      ensures Valid() && |code| > |old(code)| && InScope(v, block, |code|)
      ensures forall env, h :: Solves(code, env, h) ==>
                && Solves(old(code), env, h)
                && End(code, env, h) == End(old(code), env, h)
                && Eval(v, env) == Num(Number(a, env))
    {
      v := Append(Cast(a, 4));
    }

    /** After `k` pushes: where the stack pointer is, and what memory holds. */
    ghost predicate Pushed(regs: seq<Reg>, k: nat, ptr: Operand)
      requires k <= |regs|
      reads this
    {
      forall env, h, s :: Solves(code, env, h) && Shows(env, values, s) && s.mem == h.mem ==>
        && Eval(ptr, env) == Num(Wrap(s.regs[SP] - 4 * k))
        && End(code, env, h).mem == PushedMem(regs, k, s)
        && End(code, env, h).slots == h.slots && End(code, env, h).log == h.log
    }

    method AppendNextPush(regs: seq<Reg>, k: nat, sp: Operand) returns (ptr: Operand)
      requires Valid() && InScope(sp, block, |code|) && k < |regs| && Pushed(regs, k, sp)
      modifies this`code
      ensures Valid() && InScope(ptr, block, |code|) && Pushed(regs, k + 1, ptr)
    {
      hide Solves, End, Shows, WriteMem, Eval, PushedMem, Wrap;
      ptr := AppendPush(values[Gpr(regs[k])], sp);
      forall env, h, s | Solves(code, env, h) && Shows(env, values, s) && s.mem == h.mem
        ensures Eval(ptr, env) == Num(Wrap(s.regs[SP] - 4 * (k + 1)))
        ensures End(code, env, h).mem == PushedMem(regs, k + 1, s)
        ensures End(code, env, h).slots == h.slots && End(code, env, h).log == h.log
      {
        NextPush(regs, k, s);
        ShownRegister(env, values, s, regs[k]);
      }
    }

    method AppendStackPointer(regs: seq<Reg>) returns (ptr: Operand)
      requires Valid() && code == []
      modifies this`code
      ensures Valid() && InScope(ptr, block, |code|) && Pushed(regs, 0, ptr)
    {
      hide Shows, Solves, WriteMem;
      ptr := AppendCast(values[Gpr(SP)]);
      forall env, h, s | Solves(code, env, h) && Shows(env, values, s) && s.mem == h.mem
        ensures Eval(ptr, env) == Num(Wrap(s.regs[SP] - 4 * 0))
        ensures End(code, env, h) == h && PushedMem(regs, 0, s) == s.mem
      {
        ShownRegister(env, values, s, SP);
      }
    }

    method AppendPushes(regs: seq<Reg>) returns (ptr: Operand)
      requires Valid() && code == []
      modifies this`code
      ensures Valid() && InScope(ptr, block, |code|) && Pushed(regs, |regs|, ptr)
    {
      ptr := AppendStackPointer(regs);
      var k := 0;
      while k < |regs|
        invariant k <= |regs| && Valid() && InScope(ptr, block, |code|) && Pushed(regs, k, ptr)
      {
        ptr := AppendNextPush(regs, k, ptr);
        k := k + 1;
      }
    }

    /** tPUSH */
    method TranslatePush(prog: Program, pc: Pc, ins: Insn)
      requires Valid() && code == [] && ins.Push?
      modifies this
      ensures Valid() && Does(prog, pc, ins, old(values), code, values)
    {
      hide Solves, End, Wrap, Shows, Eval, Execute, Accesses, PushedMem;
      var ptr := AppendPushes(ins.regs);
      var top := AppendCast(ptr);
      SetValue(Gpr(SP), top);
      forall env, h, s | Solves(code, env, h) && Shows(env, old(values), s) && s.mem == h.mem
        ensures Shows(env, values, Execute(ins, s))
        ensures End(code, env, h) == Heap(Execute(ins, s).mem, h.slots, h.log) && Accesses(ins, s) == []
      {
        PushEffect(ins, s);
        var k := |ins.regs|;
        var s' := s.(mem := PushedMem(ins.regs, k, s));
        ShowElsewhere(env, old(values), s, s');
        ShowRegister(env, old(values), s', SP, top, Wrap(s.regs[SP] - 4 * k));
      }
    }

    /** The condition of a conditional branch; AL is not one. */
    method GetCondition(cond: Cond) returns (v: Operand)
      requires Valid() && cond != AL
      modifies this`code
      ensures Valid() && InScope(v, block, |code|)
      ensures forall env, h :: Solves(code, env, h) ==>
                Solves(old(code), env, h) && End(code, env, h) == End(old(code), env, h)
      ensures forall env, h, s :: Solves(code, env, h) && Shows(env, values, s) ==>
                Truth(v, env) == ConditionHolds(cond, s.f)
    {
      hide Solves, End, Shows;
      var z, n, c, o := values[FlagZ], values[FlagN], values[FlagC], values[FlagV];
      forall env, s | Shows(env, values, s)
        ensures Truth(z, env) == s.f.z && Truth(n, env) == s.f.n && Truth(c, env) == s.f.c && Truth(o, env) == s.f.v
      {
        ShownFlags(env, values, s);
      }
      match cond
      case EQ => v := z;
      case NE => v := AppendNot(z);
      case HS => v := c;
      case LO => v := AppendNot(c);
      case MI => v := n;
      case PL => v := AppendNot(n);
      case VS => v := o;
      case VC => v := AppendNot(o);
      case HI =>
        var notZ := AppendNot(z);
        v := AppendFlag(FAnd, notZ, c);
      case LS =>
        var notC := AppendNot(c);
        v := AppendFlag(FOr, notC, z);
      case GE => v := AppendFlag(FEq, n, o);
      case LT => v := AppendFlag(FNe, n, o);
      case GT =>
        var same := AppendFlag(FEq, n, o);
        var notZ := AppendNot(z);
        v := AppendFlag(FAnd, same, notZ);
      case LE =>
        var differ := AppendFlag(FNe, n, o);
        v := AppendFlag(FOr, differ, z);
    }

    /** tBcc: no value id changes, and the condition decides between the two targets. */
    method TranslateCondBranch(prog: Program, pc: Pc, ins: Insn, size: nat) returns (leave: Leave)
      requires Valid() && code == [] && ins.Bcc? && ins.cond != AL
      modifies this
      ensures Valid() && Does(prog, pc, ins, old(values), code, values)
      ensures LeavesFor(pc, ins, size, old(values), code, leave) && LeaveInScope(leave, block, |code|)
    {
      hide Solves, Shows, Truth, ConditionHolds;
      var v := GetCondition(ins.cond);
      leave := Choose(v, PcPlus(pc, 4 + ins.offset), PcPlus(pc, size));
    }

    /** The translators that fall through to the next instruction. */
    method TranslateStraight(prog: Program, pc: Pc, ins: Insn)
      requires Valid() && code == [] && !ins.B? && !ins.Bcc?
      modifies this
      ensures Valid() && Does(prog, pc, ins, old(values), code, values)
    {
      match ins
      case Push(_) => TranslatePush(prog, pc, ins);
      case LdrLiteral(_, _) => TranslateLoadLiteral(prog, pc, ins);
      case LdrHalf(_, _, _) => TranslateLoad(prog, pc, ins);
      case Ldr(_, _, _) => TranslateLoad(prog, pc, ins);
      case StrHalf(_, _, _) => TranslateStore(prog, pc, ins);
      case Str(_, _, _) => TranslateStore(prog, pc, ins);
      case CmpReg(_, _) => TranslateCmp(prog, pc, ins);
      case CmpImm(_, _) => TranslateCmp(prog, pc, ins);
      case AddImm(_, _, _) => TranslateAdd(prog, pc, ins);
      case AddReg(_, _, _) => TranslateAdd(prog, pc, ins);
      case SubImm(_, _, _) => TranslateSub(prog, pc, ins);
      case MovImm(_, _) => TranslateMov(prog, pc, ins);
      case LslImm(_, _, _) => TranslateShift(prog, pc, ins);
      case LsrImm(_, _, _) => TranslateShift(prog, pc, ins);
      case AndReg(_, _, _) => TranslateLogical(prog, pc, ins);
      case OrrReg(_, _, _) => TranslateLogical(prog, pc, ins);
      case BicReg(_, _, _) => TranslateLogical(prog, pc, ins);
    }

    /** The translator of a decoded instruction. Fails only for a branch on AL, for which the
        source throws. */
    method Translate(prog: Program, pc: Pc, ins: Insn, size: nat) returns (ok: bool, leave: Leave)
      requires Valid() && code == [] && block == Head(pc) && values == PhiValues(block)
      modifies this
      ensures Valid()
      ensures ok <==> !(ins.Bcc? && ins.cond == AL)
      ensures ok ==> Implements(prog, pc, ins, size, code, values, leave) && LeaveInScope(leave, block, |code|)
    {
      ok := true;
      if ins.B? {
        NoCode(prog, pc, ins, values);
        leave := Goto(PcPlus(pc, 4 + ins.offset));
      } else if !ins.Bcc? {
        TranslateStraight(prog, pc, ins);
        leave := Goto(PcPlus(pc, size));
      } else if ins.cond == AL {
        return false, Goto(pc);
      } else {
        leave := TranslateCondBranch(prog, pc, ins, size);
      }
      DoesAndLeaves(prog, pc, ins, size, code, values, leave);
    }

    // The entry and exit code.

    /** The first `k` registers are bound to the contents of their slots. */
    ghost predicate Loaded(k: nat)
      requires k <= |REGISTER_DESCRIPTION|
      reads this
    {
      LocalValues(values, block, |code|) &&
      forall env, h :: Solves(code, env, h) ==>
        && End(code, env, h) == h
        && forall j | 0 <= j < k ::
             Eval(values[REGISTER_DESCRIPTION[j]], env) == Num(SlotAt(h.slots, REGISTER_DESCRIPTION[j]))
    }

    method LoadRegister(k: nat)
      requires Valid() && k < |REGISTER_DESCRIPTION| && Loaded(k)
      modifies this
      ensures Valid() && Loaded(k + 1)
    {
      var v := Append(LoadSlot(REGISTER_DESCRIPTION[k]));
      SetValue(REGISTER_DESCRIPTION[k], v);
    }

    method LoadRegisters()
      requires Valid() && code == []
      modifies this
      ensures Valid() && Loaded(|REGISTER_DESCRIPTION|)
    {
      var k := 0;
      while k < |REGISTER_DESCRIPTION|
        invariant k <= |REGISTER_DESCRIPTION| && Valid() && Loaded(k)
      {
        LoadRegister(k);
        k := k + 1;
      }
    }

    method DecodeCpsr()
      requires Valid()
      modifies this
      ensures Valid()
      ensures forall env, h :: Solves(code, env, h) ==>
                Solves(old(code), env, h) && End(code, env, h) == End(old(code), env, h)
      ensures forall id :: id !in {FlagZ, FlagN, FlagC, FlagV} ==> id in values && values[id] == old(values)[id]
      ensures forall env, h :: Solves(code, env, h) ==>
                var f := UnpackFlags(Number(values[Cpsr], env));
                && Eval(values[FlagZ], env) == Bool(f.z) && Eval(values[FlagN], env) == Bool(f.n)
                && Eval(values[FlagC], env) == Bool(f.c) && Eval(values[FlagV], env) == Bool(f.v)
    {
      hide Solves, End, Bit;
      var cpsr := values[Cpsr];
      var z := AppendBitTest(cpsr, 30);
      var n := AppendBitTest(cpsr, 31);
      var c := AppendBitTest(cpsr, 29);
      var v := AppendBitTest(cpsr, 28);
      SetFlags(z, n, c, v);
    }

    /** The code of the entry block: every value id holds what the processor structure says. */
    method GenEntry(pc: Pc)
      requires Valid() && code == []
      modifies this
      ensures Valid() && EntryShows(pc, code, values)
    {
      hide Solves, End, Shows, EntryMachine, UnpackFlags;
      LoadRegisters();
      ghost var loaded := values;
      DecodeCpsr();
      forall env, h | Solves(code, env, h)
        ensures Shows(env, values, EntryMachine(pc, h))
      {
        ShowEntry(pc, env, h, loaded, values);
      }
    }

    method AppendFlagBit(flag: Operand, k: nat, ghost weight: Word) returns (v: Operand)
      requires Valid() && InScope(flag, block, |code|) && k < 32 && Pow2(k) == weight
      modifies this`code
      ensures Valid() && |code| > |old(code)| && InScope(v, block, |code|)
      ensures forall env, h :: Solves(code, env, h) ==>
                && Solves(old(code), env, h)
                && End(code, env, h) == End(old(code), env, h)
                && Eval(v, env) == Num(FlagWord(Truth(flag, env), weight))
    {
      hide Solves, End, Words.Shl, Words.Pow2;
      var bit := Append(ZextFlag(flag));
      v := AppendBinary(ShlOp, bit, Lit(Num(k)));
      forall env, h | Solves(code, env, h)
        ensures Eval(v, env) == Num(FlagWord(Truth(flag, env), weight))
      {
        ShiftedFlag(Truth(flag, env), k, weight);
      }
    }

    /** Two flags at their places in one word. */
    method AppendFlagPair(a: Operand, i: nat, ghost aWeight: Word, b: Operand, j: nat, ghost bWeight: Word)
      returns (v: Operand)
      requires Valid() && InScope(a, block, |code|) && i < 32 && Pow2(i) == aWeight
      requires InScope(b, block, |code|) && j < 32 && Pow2(j) == bWeight
      modifies this`code
      ensures Valid() && |code| > |old(code)| && InScope(v, block, |code|)
      ensures forall env, h :: Solves(code, env, h) ==>
                && Solves(old(code), env, h)
                && End(code, env, h) == End(old(code), env, h)
                && Eval(v, env) == Num(OrWord(FlagWord(Truth(a, env), aWeight), FlagWord(Truth(b, env), bWeight)))
    {
      hide Solves, End, FlagWord, OrWord, Truth, Words.Pow2;
      var x := AppendFlagBit(a, i, aWeight);
      var y := AppendFlagBit(b, j, bWeight);
      v := AppendBinary(OrOp, x, y);
    }

    method AppendFlagWord() returns (v: Operand)
      requires Valid()
      modifies this`code
      ensures Valid() && |code| > |old(code)| && InScope(v, block, |code|)
      ensures forall env, h :: Solves(code, env, h) ==>
                && Solves(old(code), env, h)
                && End(code, env, h) == End(old(code), env, h)
                && Eval(v, env) == Num(PackCpsr(0, Flags(Truth(values[FlagN], env), Truth(values[FlagZ], env),
                                                        Truth(values[FlagC], env), Truth(values[FlagV], env))))
    {
      hide Solves, End, FlagWord, OrWord, PackCpsr, Truth, Words.Pow2;
      Pow2Values();
      var zn := AppendFlagPair(values[FlagZ], 30, 0x4000_0000, values[FlagN], 31, 0x8000_0000);
      var cv := AppendFlagPair(values[FlagC], 29, 0x2000_0000, values[FlagV], 28, 0x1000_0000);
      v := AppendBinary(OrOp, zn, cv);
      forall env, h | Solves(code, env, h)
        ensures Eval(v, env) == Num(PackCpsr(0, Flags(Truth(values[FlagN], env), Truth(values[FlagZ], env),
                                                     Truth(values[FlagC], env), Truth(values[FlagV], env))))
      {
        OrFlags(Flags(Truth(values[FlagN], env), Truth(values[FlagZ], env), Truth(values[FlagC], env), Truth(values[FlagV], env)));
      }
    }

    /** Puts the flags into the top four bits of CPSR. */
    method EncodeCpsr()
      requires Valid()
      modifies this
      ensures Valid()
      ensures forall env, h :: Solves(code, env, h) ==>
                Solves(old(code), env, h) && End(code, env, h) == End(old(code), env, h)
      ensures forall env, h, s :: Solves(code, env, h) && Shows(env, old(values), s) ==>
                Shows(env, values, s.(cpsr := PackCpsr(s.cpsr, s.f)))
    {
      hide Solves, End, Shows, PackCpsr, OrWord, Words.And, Truth;
      var cpsr := values[Cpsr];
      var flags := AppendFlagWord();
      var kept := AppendBinary(AndOp, cpsr, Lit(Num(0x0FFF_FFFF)));
      var packed := AppendBinary(OrOp, kept, flags);
      SetValue(Cpsr, packed);
      forall env, h, s | Solves(code, env, h) && Shows(env, old(values), s)
        ensures Shows(env, values, s.(cpsr := PackCpsr(s.cpsr, s.f)))
      {
        ShownFlags(env, old(values), s);
        ShownValue(env, old(values), s, Cpsr);
        MaskedOr(s.cpsr, s.f);
        ShowCpsr(env, old(values), s, packed, PackCpsr(s.cpsr, s.f));
      }
    }

    /** The first `k` registers have been stored to their slots, and nothing else. */
    ghost predicate Stored(start: seq<Line>, k: nat)
      requires k <= |REGISTER_DESCRIPTION|
      reads this
    {
      && (forall env, h :: Solves(code, env, h) ==> Solves(start, env, h))
      && (forall env, h, s :: Solves(code, env, h) && Shows(env, values, s) ==>
           var before, after := End(start, env, h), End(code, env, h);
           after == before.(slots := StoredSlots(s, k, before.slots)))
    }

    method StoreRegister(ghost start: seq<Line>, k: nat)
      requires Valid() && k < |REGISTER_DESCRIPTION| && Stored(start, k)
      modifies this`code
      ensures Valid() && Stored(start, k + 1)
    {
      hide Solves, Shows, End;
      var id := REGISTER_DESCRIPTION[k];
      var v := Append(StoreSlot(id, values[id]));
      forall env, h, s | Solves(code, env, h) && Shows(env, values, s)
        ensures var before, after := End(start, env, h), End(code, env, h);
                after == before.(slots := StoredSlots(s, k + 1, before.slots))
      {
        ShownValue(env, values, s, id);
      }
    }

    method StoreRegisters()
      requires Valid()
      modifies this`code
      ensures Valid() && Stored(old(code), |REGISTER_DESCRIPTION|)
    {
      var k := 0;
      while k < |REGISTER_DESCRIPTION|
        invariant k <= |REGISTER_DESCRIPTION| && Valid() && Stored(old(code), k)
      {
        StoreRegister(old(code), k);
        k := k + 1;
      }
    }

    /** The code of an exit block: the processor structure receives the registers. */
    method GenExit()
      requires Valid() && code == []
      modifies this
      ensures Valid() && ExitStores(code, old(values))
    {
      hide Solves, Shows, PackCpsr, StoredSlots;
      EncodeCpsr();
      ghost var encoded := code;
      StoreRegisters();
      forall env, h, s | Solves(code, env, h) && Shows(env, old(values), s)
        ensures End(code, env, h) == h.(slots := ExitSlots(s, h.slots))
      {
        var packed := s.(cpsr := PackCpsr(s.cpsr, s.f));
        assert Shows(env, values, packed);
      }
    }
  }
}
