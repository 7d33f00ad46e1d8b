/** The fragment of LLVM IR that the translator emits: names, operands, instructions, and the
    effect of running a straight-line piece of code. Taken as given by the translator. */
module Ir {
  import opened Words

  type Pc = p: int | 0 <= p < 0x1_0000_0000_0000_0000

  type Reg = r: int | 0 <= r < 15

  const SP: Reg := 13
  const LR: Reg := 14

  /** The value ids a translation unit keeps a phi node for. */
  datatype Id = Gpr(r: Reg) | Cpsr | FlagZ | FlagN | FlagC | FlagV

  const VALUE_INFORMATION: seq<Id> :=
    [Gpr(0), Gpr(1), Gpr(2), Gpr(3), Gpr(4), Gpr(5), Gpr(6), Gpr(7), Gpr(8), Gpr(9), Gpr(10),
     Gpr(11), Gpr(12), Gpr(SP), Gpr(LR), Cpsr, FlagZ, FlagN, FlagC, FlagV]

  /** The slots of the processor structure, in index order. */
  const REGISTER_DESCRIPTION: seq<Id> := VALUE_INFORMATION[..16]

  /** A basic block: the entry block, or the head block of the unit at a program counter. */
  datatype Label = Entry | Head(pc: Pc)

  datatype TempKind = LoadAddr | HandleRead | StoreAddr | StoreVal

  /** What an operand can refer to: a phi node, the instruction appended to a block at some
      position, or a helper instruction inserted before the instruction named `of`. */
  datatype Name =
    | Phi(block: Label, id: Id)
    | Res(block: Label, index: nat)
    | Temp(kind: TempKind, of: Name)

  /** A run-time value. An iN with N > 1 is the number below 2^N that it holds. */
  datatype Datum = Num(w: Word) | Bool(b: bool) | Void

  datatype Operand = Lit(d: Datum) | Use(n: Name)

  datatype BinaryOp = Add | Sub | AndOp | OrOp | ShlOp | LshrOp
  datatype Comparison = Eq | Ne | Ugt | Ult | Uge
  datatype FlagOp = FAnd | FOr | FXor | FEq | FNe

  /** `marked` is the "translated_memory_access" metadata. `size` counts bytes. */
  datatype Instr =
    | Binary(op: BinaryOp, a: Operand, b: Operand)
    | Not(a: Operand)
    | ICmp(cmp: Comparison, a: Operand, b: Operand)
    | Flag(fop: FlagOp, a: Operand, b: Operand)
    | FlagNot(a: Operand)
    | ZextFlag(a: Operand)
    | Cast(a: Operand, size: nat)
    | Gep(base: Operand, index: Operand, size: nat)
    | Load(ptr: Operand, size: nat, marked: bool)
    | Store(val: Operand, ptr: Operand, size: nat, marked: bool)
    | LoadSlot(id: Id)
    | StoreSlot(id: Id, val: Operand)
    | CallRead(ptr: Operand, size: nat)
    | CallWrite(ptr: Operand, size: nat, val: Operand)

  /** An instruction together with the name its result is used by. */
  datatype Line = Line(dest: Name, ins: Instr)

  /** A memory access as a handler sees it. */
  datatype Access = Read(addr: Word, size: nat, value: Word) | Write(addr: Word, size: nat, value: Word)

  type Memory = map<Word, Byte>
  type Env = map<Name, Datum>

  /** Everything outside the IR registers: guest memory, the processor structure, and the log
      of observed accesses (marked loads and stores, and handler calls). */
  datatype Heap = Heap(mem: Memory, slots: map<Id, Word>, log: seq<Access>)

  // Guest memory, little endian.

  function ByteAt(m: Memory, a: int): Byte {
    if Wrap(a) in m then m[Wrap(a)] else 0
  }

  function ReadMem(m: Memory, a: Word, size: nat): Word {
    if size == 1 then ByteAt(m, a)
    else if size == 2 then ByteAt(m, a) + 0x100 * ByteAt(m, a + 1)
    else ByteAt(m, a) + 0x100 * ByteAt(m, a + 1) + 0x1_0000 * ByteAt(m, a + 2) + 0x100_0000 * ByteAt(m, a + 3)
  }

  function WriteMem(m: Memory, a: Word, size: nat, v: Word): Memory {
    if size == 1 then m[a := v % 0x100]
    else if size == 2 then m[a := v % 0x100][Wrap(a + 1) := v / 0x100 % 0x100]
    else m[a := v % 0x100][Wrap(a + 1) := v / 0x100 % 0x100]
         [Wrap(a + 2) := v / 0x1_0000 % 0x100][Wrap(a + 3) := v / 0x100_0000]
  }

  /** The value an access of `size` bytes can carry. */
  function Narrow(v: Word, size: nat): Word {
    if size == 1 then v % 0x100 else if size == 2 then v % 0x1_0000 else v
  }

  /** Bytes are stored least significant first, and an access touches no others. */
  lemma LoadedBytes(m: Memory, a: Word)
    ensures ReadMem(m, a, 1) == ByteAt(m, a)
    ensures ReadMem(m, a, 2) == ByteAt(m, a) + 0x100 * ByteAt(m, a + 1)
    ensures ReadMem(m, a, 4) == ByteAt(m, a) + 0x100 * ByteAt(m, a + 1)
                                + 0x1_0000 * ByteAt(m, a + 2) + 0x100_0000 * ByteAt(m, a + 3)
  {
  }

  lemma StoredBytes(m: Memory, a: Word, size: nat, v: Word, b: Word)
    requires size == 1 || size == 2 || size == 4
    ensures var i := (b - a) % 0x1_0000_0000;
            ByteAt(WriteMem(m, a, size, v), b) ==
              if i >= size then ByteAt(m, b)
              else if i == 0 then v % 0x100
              else if i == 1 then v / 0x100 % 0x100
              else if i == 2 then v / 0x1_0000 % 0x100
              else v / 0x100_0000
  {
  }

  /** The value that an access of `size` bytes carries: the low bytes of the register. */
  lemma NarrowedValue(v: Word)
    ensures Narrow(v, 1) == v % 0x100 && Narrow(v, 2) == v % 0x1_0000 && Narrow(v, 4) == v
  {
  }

  // Evaluation. Operands of the wrong kind read as 0 or false, so evaluation is total; the
  // translator theorems show that every value id holds a datum of its own kind.

  function Eval(o: Operand, env: Env): Datum {
    match o
    case Lit(d) => d
    case Use(n) => if n in env then env[n] else Void
  }

  function Number(o: Operand, env: Env): Word {
    match Eval(o, env) case Num(w) => w case _ => 0
  }

  predicate Truth(o: Operand, env: Env) {
    Eval(o, env) == Bool(true)
  }

  function ApplyBinary(op: BinaryOp, a: Word, b: Word): Word {
    match op
    case Add => Wrap(a + b)
    case Sub => Wrap(a - b)
    case AndOp => And(a, b)
    case OrOp => OrWord(a, b)
    case ShlOp => Shl(a, b)
    case LshrOp => Lshr(a, b)
  }

  predicate ApplyComparison(cmp: Comparison, a: Word, b: Word) {
    match cmp
    case Eq => a == b
    case Ne => a != b
    case Ugt => a > b
    case Ult => a < b
    case Uge => a >= b
  }

  predicate ApplyFlag(fop: FlagOp, a: bool, b: bool) {
    match fop
    case FAnd => a && b
    case FOr => a || b
    case FXor | FNe => a != b
    case FEq => a == b
  }

  function Result(ins: Instr, env: Env, h: Heap): Datum {
    match ins
    case Binary(op, a, b) => Num(ApplyBinary(op, Number(a, env), Number(b, env)))
    case Not(a) => Num(NotWord(Number(a, env)))
    case ICmp(cmp, a, b) => Bool(ApplyComparison(cmp, Number(a, env), Number(b, env)))
    case Flag(fop, a, b) => Bool(ApplyFlag(fop, Truth(a, env), Truth(b, env)))
    case FlagNot(a) => Bool(!Truth(a, env))
    case ZextFlag(a) => Num(if Truth(a, env) then 1 else 0)
    case Cast(a, size) => Num(Narrow(Number(a, env), size))
    case Gep(base, index, size) => Num(Wrap(Number(base, env) + size * Number(index, env)))
    case Load(ptr, size, _) => Num(ReadMem(h.mem, Number(ptr, env), size))
    case LoadSlot(id) => Num(if id in h.slots then h.slots[id] else 0)
    case CallRead(ptr, size) => Num(ReadMem(h.mem, Number(ptr, env), size))
    case _ => Void
  }

  /** A call of the read handler logs the access; a marked load is the access that the handler
      will be called for, and is logged the same way. */
  function Effect(ins: Instr, env: Env, h: Heap): Heap {
    match ins
    case Load(ptr, size, true) =>
      h.(log := h.log + [Read(Number(ptr, env), size, ReadMem(h.mem, Number(ptr, env), size))])
    case CallRead(ptr, size) =>
      h.(log := h.log + [Read(Number(ptr, env), size, ReadMem(h.mem, Number(ptr, env), size))])
    case Store(val, ptr, size, marked) =>
      var v := Narrow(Number(val, env), size);
      Heap(WriteMem(h.mem, Number(ptr, env), size, v), h.slots,
           if marked then h.log + [Write(Number(ptr, env), size, v)] else h.log)
    case CallWrite(ptr, size, val) =>
      var v := Narrow(Number(val, env), size);
      Heap(WriteMem(h.mem, Number(ptr, env), size, v), h.slots, h.log + [Write(Number(ptr, env), size, v)])
    case StoreSlot(id, val) => h.(slots := h.slots[id := Number(val, env)])
    case _ => h
  }

  // Running straight-line code.

  datatype State = State(env: Env, heap: Heap)

  function ExecLine(line: Line, s: State): State {
    State(s.env[line.dest := Result(line.ins, s.env, s.heap)], Effect(line.ins, s.env, s.heap))
  }

  function Exec(code: seq<Line>, s: State): State {
    if code == [] then s else ExecLine(code[|code| - 1], Exec(code[..|code| - 1], s))
  }

  lemma {:induction false} ExecAppend(a: seq<Line>, b: seq<Line>, s: State)
    ensures Exec(a + b, s) == Exec(b, Exec(a, s))
  {
    if b == [] {
      assert a + b == a;
    } else {
      ExecAppend(a, b[..|b| - 1], s);
      assert (a + b)[..|a + b| - 1] == a + b[..|b| - 1];
    }
  }

  // The equational reading of a block in SSA form: one environment in which every line holds.

  /** The heap behind the code, with all operands read in `env`. */
  function End(code: seq<Line>, env: Env, h: Heap): Heap {
    if code == [] then h else Effect(code[|code| - 1].ins, env, End(code[..|code| - 1], env, h))
  }

  predicate Solves(code: seq<Line>, env: Env, h: Heap) {
    code != [] ==>
      var init, last := code[..|code| - 1], code[|code| - 1];
      Solves(init, env, h) && Eval(Use(last.dest), env) == Result(last.ins, env, End(init, env, h))
  }

  /** A constant, a phi node of the block itself, or an earlier instruction of the block. */
  predicate InScope(o: Operand, l: Label, n: nat) {
    o.Lit? || (o.n.Phi? && o.n.block == l) || (o.n.Res? && o.n.block == l && o.n.index < n)
  }

  predicate AccessSize(size: nat) {
    size == 1 || size == 2 || size == 4
  }

  /** What a translator may append. Calls of the access handlers are inserted by a later pass. */
  predicate OperandsInScope(ins: Instr, l: Label, n: nat) {
    match ins
    case Binary(_, a, b) => InScope(a, l, n) && InScope(b, l, n)
    case Not(a) => InScope(a, l, n)
    case ICmp(_, a, b) => InScope(a, l, n) && InScope(b, l, n)
    case Flag(_, a, b) => InScope(a, l, n) && InScope(b, l, n)
    case FlagNot(a) => InScope(a, l, n)
    case ZextFlag(a) => InScope(a, l, n)
    case Cast(a, _) => InScope(a, l, n)
    case Gep(a, b, _) => InScope(a, l, n) && InScope(b, l, n)
    case Load(a, size, _) => InScope(a, l, n) && AccessSize(size)
    case Store(a, b, size, _) => InScope(a, l, n) && InScope(b, l, n) && AccessSize(size)
    case LoadSlot(_) => true
    case StoreSlot(_, a) => InScope(a, l, n)
    case CallRead(_, _) => false
    case CallWrite(_, _, _) => false
  }

  /** SSA form: line `i` defines the name `i` of this block and uses only what precedes it. */
  predicate Scoped(code: seq<Line>, l: Label) {
    forall i :: 0 <= i < |code| ==> code[i].dest == Res(l, i) && OperandsInScope(code[i].ins, l, i)
  }

  predicate OtherThan(n: Name, l: Label) {
    !(n.Res? && n.block == l)
  }

  /** Environments that agree on what is in scope at `n` give the same results. */
  ghost predicate AgreeBelow(e1: Env, e2: Env, l: Label, n: nat) {
    && (forall id: Id :: Eval(Use(Phi(l, id)), e1) == Eval(Use(Phi(l, id)), e2))
    && (forall i: nat :: i < n ==> Eval(Use(Res(l, i)), e1) == Eval(Use(Res(l, i)), e2))
  }

  lemma ScopeFrame(ins: Instr, l: Label, n: nat, e1: Env, e2: Env, h: Heap)
    requires OperandsInScope(ins, l, n) && AgreeBelow(e1, e2, l, n)
    ensures Result(ins, e1, h) == Result(ins, e2, h) && Effect(ins, e1, h) == Effect(ins, e2, h)
  {
    forall o: Operand | InScope(o, l, n)
      ensures Eval(o, e1) == Eval(o, e2)
    {
      if o.Use? && o.n.Phi? {
        assert o == Use(Phi(l, o.n.id));
      } else if o.Use? {
        assert o == Use(Res(l, o.n.index));
      }
    }
  }

  lemma UpdateAgrees(env: Env, l: Label, k: nat, d: Datum)
    ensures AgreeBelow(env[Res(l, k) := d], env, l, k)
  {
  }

  lemma {:induction false} SolvesFrame(code: seq<Line>, l: Label, e1: Env, e2: Env, h: Heap)
    requires Scoped(code, l) && AgreeBelow(e1, e2, l, |code|)
    ensures Solves(code, e1, h) == Solves(code, e2, h) && End(code, e1, h) == End(code, e2, h)
  {
    if code != [] {
      var k := |code| - 1;
      SolvesFrame(code[..k], l, e1, e2, h);
      assert code[k].dest == Res(l, k);
      ScopeFrame(code[k].ins, l, k, e1, e2, End(code[..k], e2, h));
    }
  }

  /** Running SSA code from any state ends in an environment in which every line holds, and
      leaves every name of other blocks alone. */
  lemma {:induction false} ExecSolves(code: seq<Line>, l: Label, s: State)
    requires Scoped(code, l)
    ensures var r := Exec(code, s);
            && Solves(code, r.env, s.heap)
            && r.heap == End(code, r.env, s.heap)
            && (forall n: Name :: OtherThan(n, l) ==> Eval(Use(n), r.env) == Eval(Use(n), s.env))
  {
    if code != [] {
      var k := |code| - 1;
      var init, last := code[..k], code[k];
      assert Scoped(init, l);
      ExecSolves(init, l, s);
      var p, r := Exec(init, s), Exec(code, s);
      hide AgreeBelow, Result, Effect;
      UpdateAgrees(p.env, l, k, Result(last.ins, p.env, p.heap));
      SolvesFrame(init, l, r.env, p.env, s.heap);
      ScopeFrame(last.ins, l, k, r.env, p.env, p.heap);
    }
  }
}
