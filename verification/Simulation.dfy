/** A function whose translation ended normally runs in lock step with the machine that executes
    the program one instruction at a time. */
module Simulation {
  import opened Words
  import opened Ir
  import opened Arm
  import opened Emitters
  import opened Cfg

  /** One instruction; the machine stays where nothing decodes. */
  function OneStep(prog: Program, s: Machine): Machine {
    match prog.decode(s.pc)
    case Success(ins, size) => StepInsn(ins, size, s)
    case _ => s
  }

  /** The machine after `n` instructions. */
  function MachineRun(prog: Program, s: Machine, n: nat): Machine {
    if n == 0 then s else OneStep(prog, MachineRun(prog, s, n - 1))
  }

  /** The accesses of one step that are meant for the handlers, and all of its data accesses. */
  function StepAccesses(prog: Program, s: Machine): seq<Access> {
    match prog.decode(s.pc)
    case Success(ins, _) => Accesses(ins, s)
    case _ => []
  }

  function StepData(prog: Program, s: Machine): seq<Access> {
    match prog.decode(s.pc)
    case Success(ins, _) => DataAccesses(ins, s)
    case _ => []
  }

  /** The same over the first `n` steps. */
  function Trace(prog: Program, s: Machine, n: nat): seq<Access> {
    if n == 0 then [] else Trace(prog, s, n - 1) + StepAccesses(prog, MachineRun(prog, s, n - 1))
  }

  function DataTrace(prog: Program, s: Machine, n: nat): seq<Access> {
    if n == 0 then [] else DataTrace(prog, s, n - 1) + StepData(prog, MachineRun(prog, s, n - 1))
  }

  /** The machine is inside the ranges, at an instruction with a valid encoding, and a
      PC-relative load still finds what code memory held. */
  predicate CanStep(prog: Program, ranges: seq<Range>, s: Machine) {
    InRange(ranges, s.pc) && !prog.decode(s.pc).SoftFail?
    && (prog.decode(s.pc).Success? ==> LiteralIntact(prog, prog.decode(s.pc).ins, s))
  }

  predicate StepsInside(prog: Program, ranges: seq<Range>, s: Machine, n: nat) {
    forall k: nat :: k < n ==> CanStep(prog, ranges, MachineRun(prog, s, k))
  }

  /** The function is about to run the unit at the machine's program counter, and the phi
      nodes of that unit hold the machine's registers and flags. */
  ghost predicate Matches(blocks: Blocks, c: Conf, s: Machine) {
    && c.Running? && c.at == Head(s.pc) && c.at in blocks
    && Shows(c.env, PhiValues(c.at), s)
    && c.heap.mem == s.mem
  }

  // Taking an edge.

  lemma {:induction false} ValueOfPred(incoming: seq<Incoming>, pred: Label, value: Operand)
    requires forall k :: 0 <= k < |incoming| && incoming[k].pred == pred ==> incoming[k].value == value
    requires HasPred(incoming, pred)
    ensures ValueFrom(incoming, pred) == value
  {
    if incoming[0].pred != pred {
      var k :| 0 <= k < |incoming| && incoming[k].pred == pred;
      assert incoming[1..][k - 1].pred == pred;
      ValueOfPred(incoming[1..], pred, value);
    }
  }

  lemma {:induction false} CountedPred(incoming: seq<Incoming>, pred: Label)
    requires PredCount(incoming, pred) > 0
    ensures HasPred(incoming, pred)
  {
    var k := |incoming| - 1;
    if incoming[k].pred != pred {
      CountedPred(incoming[..k], pred);
      var j :| 0 <= j < |incoming[..k]| && incoming[..k][j].pred == pred;
      assert incoming[j].pred == pred;
    }
  }

  lemma EdgeValue(g: Graph, from: Label, to: Pc, id: Id)
    requires PhisMatchEdges(g) && g.outs.Keys == g.edges.Keys
    requires from in g.edges && to in g.edges[from] && Head(to) in g.blocks
    ensures id in g.blocks[Head(to)].phis && id in g.outs[from]
    ensures HasPred(g.blocks[Head(to)].phis[id], from)
    ensures ValueFrom(g.blocks[Head(to)].phis[id], from) == g.outs[from][id]
  {
    var incoming := g.blocks[Head(to)].phis[id];
    assert PhiMatchesEdges(g, to, incoming, id);
    CountedPred(incoming, from);
    ValueOfPred(incoming, from, g.outs[from][id]);
  }

  lemma EnterMatches(g: Graph, from: Label, to: Pc, st: State, s: Machine)
    requires PhisMatchEdges(g) && g.outs.Keys == g.edges.Keys && EdgesLeadToUnits(g)
    requires from in g.edges && to in g.edges[from]
    requires Shows(st.env, g.outs[from], s) && s.pc == to && s.mem == st.heap.mem
    ensures Matches(g.blocks, Enter(g.blocks, from, to, st), s)
    ensures Enter(g.blocks, from, to, st).heap == st.heap
  {
    var l := Head(to);
    forall id: Id
      ensures id in g.blocks[l].phis && HasPred(g.blocks[l].phis[id], from)
      ensures Eval(ValueFrom(g.blocks[l].phis[id], from), st.env) == s.Get(id)
    {
      EdgeValue(g, from, to, id);
      ShownValue(st.env, g.outs[from], s, id);
    }
    EnteredPhis(l, g.blocks[l], from, st.env, s);
  }

  lemma EnteredPhis(l: Label, b: Block, from: Label, env: Env, s: Machine)
    requires forall id: Id :: id in b.phis && Eval(ValueFrom(b.phis[id], from), env) == s.Get(id)
    ensures Shows(env + PhiData(l, b, from, env), PhiValues(l), s)
  {
    var env' := env + PhiData(l, b, from, env);
    forall id: Id
      ensures id in PhiValues(l) && Eval(PhiValues(l)[id], env') == s.Get(id)
    {
      AllIds(id);
      assert Phi(l, id) in PhiData(l, b, from, env);
    }
  }

  // One block.

  lemma PhisSurvive(code: seq<Line>, l: Label, st: State, s: Machine)
    requires Scoped(code, l) && Shows(st.env, PhiValues(l), s)
    ensures Shows(Exec(code, st).env, PhiValues(l), s)
    ensures Solves(code, Exec(code, st).env, st.heap) && Exec(code, st).heap == End(code, Exec(code, st).env, st.heap)
  {
    ExecSolves(code, l, st);
    forall id: Id
      ensures id in PhiValues(l) && Eval(PhiValues(l)[id], Exec(code, st).env) == s.Get(id)
    {
      ShownValue(st.env, PhiValues(l), s, id);
      assert OtherThan(Phi(l, id), l);
    }
  }

  /** What the code of a unit does to a state that shows the machine in its phi nodes. */
  lemma UnitRun(prog: Program, pc: Pc, ins: Insn, size: nat, b: Block, out: Values, st: State, s: Machine)
    requires UnitBlock(prog, pc, ins, size, b, out)
    requires Shows(st.env, PhiValues(Head(pc)), s) && s.pc == pc && s.mem == st.heap.mem && LiteralIntact(prog, ins, s)
    ensures var r, s' := Exec(b.code, st), StepInsn(ins, size, s);
            && Shows(r.env, out, s') && r.heap.mem == s'.mem && r.heap.slots == st.heap.slots
            && r.heap.log == st.heap.log + Accesses(ins, s) && Target(LeaveOf(b.terms[0]), r.env) == s'.pc
  {
    hide Scoped, LocalValues, LiteralIntact, Shows, PhiValues, Exec, Solves, End, Accesses, StepInsn, Target, LeaveInScope;
    PhisSurvive(b.code, Head(pc), st, s);
  }

  lemma RunsOnce(prog: Program, s: Machine)
    ensures MachineRun(prog, s, 1) == OneStep(prog, s)
  {
    assert MachineRun(prog, s, 0) == s;
  }

  lemma UnitStep(prog: Program, ranges: seq<Range>, entry: Pc, g: Graph, c: Conf, s: Machine)
    requires Closed(prog, ranges, entry, g) && Matches(g.blocks, c, s) && CanStep(prog, ranges, s)
    ensures Matches(g.blocks, RunBlock(g.blocks, c), MachineRun(prog, s, 1))
    ensures RunBlock(g.blocks, c).heap.slots == c.heap.slots
    ensures RunBlock(g.blocks, c).heap.log == c.heap.log + StepAccesses(prog, s)
  {
    hide PhisMatchEdges, EdgesLeadToUnits, EntryBlock, ExitBlock, InRange;
    hide Implements, Scoped, LocalValues, LeaveInScope, LiteralIntact, Shows, PhiValues, Exec, Enter, Accesses, StepInsn;
    var l, b := c.at, g.blocks[c.at];
    assert BlockClosed(prog, ranges, entry, g, l);
    var ins, size := prog.decode(s.pc).ins, prog.decode(s.pc).size;
    UnitRun(prog, s.pc, ins, size, b, g.outs[l], State(c.env, c.heap), s);
    RunsOnce(prog, s);
    var s' := StepInsn(ins, size, s);
    EnterMatches(g, l, s'.pc, Exec(b.code, State(c.env, c.heap)), s');
  }

  lemma EntryStep(prog: Program, ranges: seq<Range>, entry: Pc, g: Graph, env: Env, h: Heap)
    requires Closed(prog, ranges, entry, g)
    ensures var c := RunBlock(g.blocks, Running(Entry, env, h));
            Matches(g.blocks, c, EntryMachine(entry, h)) && c.heap == h
  {
    hide PhisMatchEdges, EdgesLeadToUnits, UnitBlock, ExitBlock, Scoped, LocalValues, Shows, PhiValues, Exec, Enter, Solves, EntryMachine;
    var b := g.blocks[Entry];
    assert BlockClosed(prog, ranges, entry, g, Entry);
    var st := Exec(b.code, State(env, h));
    ExecSolves(b.code, Entry, State(env, h));
    assert EntryMachine(entry, h).pc == entry && EntryMachine(entry, h).mem == h.mem by {
      EntryPlace(entry, h);
    }
    EnterMatches(g, Entry, entry, st, EntryMachine(entry, h));
  }

  lemma EntryPlace(entry: Pc, h: Heap)
    ensures EntryMachine(entry, h).pc == entry && EntryMachine(entry, h).mem == h.mem
  {
  }

  lemma ExitStep(prog: Program, ranges: seq<Range>, entry: Pc, g: Graph, c: Conf, s: Machine)
    requires Closed(prog, ranges, entry, g) && Matches(g.blocks, c, s) && !InRange(ranges, s.pc)
    ensures var r := RunBlock(g.blocks, c);
            r.Returned? && r.heap.mem == s.mem && r.heap.slots == ExitSlots(s, c.heap.slots) && r.heap.log == c.heap.log
  {
    hide PhisMatchEdges, EdgesLeadToUnits, UnitBlock, EntryBlock, Scoped, LocalValues, Shows, PhiValues, Exec, Solves, ExitSlots;
    assert BlockClosed(prog, ranges, entry, g, c.at);
    PhisSurvive(g.blocks[c.at].code, c.at, State(c.env, c.heap), s);
  }

  /** A unit whose encoding is potentially invalid has no terminator to leave by. */
  lemma DroppedStep(prog: Program, ranges: seq<Range>, entry: Pc, g: Graph, c: Conf, s: Machine)
    requires Closed(prog, ranges, entry, g) && Matches(g.blocks, c, s)
    requires InRange(ranges, s.pc) && prog.decode(s.pc).SoftFail?
    ensures RunBlock(g.blocks, c) == Stuck
  {
    hide PhisMatchEdges, EdgesLeadToUnits, UnitBlock, EntryBlock, Shows;
    assert BlockClosed(prog, ranges, entry, g, c.at);
  }

  // Whole runs. The first block is the entry block, so unit heads are one block behind.

  /** After the entry block and `n` units, the function is at the unit of the machine's program
      counter, holds its registers, flags and memory, and has logged the accesses of `n` steps. */
  lemma {:induction false} LockStep(prog: Program, ranges: seq<Range>, entry: Pc, g: Graph, env: Env, h: Heap, n: nat)
    requires Closed(prog, ranges, entry, g)
    requires StepsInside(prog, ranges, EntryMachine(entry, h), n)
    ensures var c := RunBlocks(g.blocks, Running(Entry, env, h), n + 1);
            Matches(g.blocks, c, MachineRun(prog, EntryMachine(entry, h), n)) && c.heap.slots == h.slots
            && c.heap.log == h.log + Trace(prog, EntryMachine(entry, h), n)
  {
    hide Closed, RunBlock, Matches, CanStep, EntryMachine, StepAccesses;
    var c0, s0 := Running(Entry, env, h), EntryMachine(entry, h);
    if n == 0 {
      EntryStep(prog, ranges, entry, g, env, h);
      assert RunBlocks(g.blocks, c0, 0) == c0;
    } else {
      LockStep(prog, ranges, entry, g, env, h, n - 1);
      UnitStep(prog, ranges, entry, g, RunBlocks(g.blocks, c0, n), MachineRun(prog, s0, n - 1));
      OneMore(prog, s0, n - 1);
      LogAppend(h.log, Trace(prog, s0, n - 1), StepAccesses(prog, MachineRun(prog, s0, n - 1)));
    }
  }

  lemma LogAppend(a: seq<Access>, b: seq<Access>, c: seq<Access>)
    ensures a + b + c == a + (b + c)
  {
  }

  lemma OneMore(prog: Program, s: Machine, n: nat)
    ensures MachineRun(prog, s, n + 1) == MachineRun(prog, MachineRun(prog, s, n), 1)
  {
    RunsOnce(prog, MachineRun(prog, s, n));
  }

  /** The function returns exactly when the machine leaves the ranges, with the machine's memory
      and all 16 registers in the processor structure. */
  lemma ReturnsAtExit(prog: Program, ranges: seq<Range>, entry: Pc, g: Graph, env: Env, h: Heap, n: nat)
    requires Closed(prog, ranges, entry, g)
    requires StepsInside(prog, ranges, EntryMachine(entry, h), n)
    requires var s := MachineRun(prog, EntryMachine(entry, h), n);
             InRange(ranges, s.pc) ==> CanStep(prog, ranges, s)
    ensures var s := MachineRun(prog, EntryMachine(entry, h), n);
            var c := RunBlocks(g.blocks, Running(Entry, env, h), n + 2);
            && (c.Returned? <==> !InRange(ranges, s.pc)) && (c.Running? <==> InRange(ranges, s.pc))
            && (c.Returned? ==> c.heap.mem == s.mem && c.heap.slots == ExitSlots(s, h.slots))
            && c.heap.log == h.log + Trace(prog, EntryMachine(entry, h), if c.Returned? then n else n + 1)
  {
    hide Closed, RunBlock, CanStep, EntryMachine, ExitSlots, StepAccesses;
    var c0, s0 := Running(Entry, env, h), EntryMachine(entry, h);
    LockStep(prog, ranges, entry, g, env, h, n);
    var c, s := RunBlocks(g.blocks, c0, n + 1), MachineRun(prog, s0, n);
    assert RunBlocks(g.blocks, c0, n + 2) == RunBlock(g.blocks, c);
    if InRange(ranges, s.pc) {
      UnitStep(prog, ranges, entry, g, c, s);
      LogAppend(h.log, Trace(prog, s0, n), StepAccesses(prog, s));
    } else {
      ExitStep(prog, ranges, entry, g, c, s);
    }
  }

  // Which of the guest's data accesses the log shows.

  /** The stores of PUSH carry no mark, and a PC-relative load never reaches memory. */
  predicate ShowsAll(prog: Program, s: Machine) {
    prog.decode(s.pc).Success? ==>
      var ins := prog.decode(s.pc).ins;
      !ins.LdrLiteral? && !(ins.Push? && ins.regs != [])
  }

  lemma StepShows(prog: Program, s: Machine)
    ensures if ShowsAll(prog, s) then StepAccesses(prog, s) == StepData(prog, s)
            else |StepAccesses(prog, s)| < |StepData(prog, s)|
  {
    hide ReadMem, LiteralAddress, Narrow;
  }

  lemma AppendSame(a: seq<Access>, b: seq<Access>, x: seq<Access>)
    ensures a + x == b + x <==> a == b
  {
    if a + x == b + x {
      assert a == (a + x)[..|a|] && b == (b + x)[..|b|];
    }
  }

  predicate ShowsRun(prog: Program, s: Machine, n: nat) {
    forall k: nat :: k < n ==> ShowsAll(prog, MachineRun(prog, s, k))
  }

  lemma ShowsOneMore(prog: Program, s: Machine, n: nat)
    ensures ShowsRun(prog, s, n + 1) <==> ShowsRun(prog, s, n) && ShowsAll(prog, MachineRun(prog, s, n))
  {
    hide ShowsAll, OneStep;
    if ShowsRun(prog, s, n) && ShowsAll(prog, MachineRun(prog, s, n)) {
      forall k: nat | k < n + 1
        ensures ShowsAll(prog, MachineRun(prog, s, k))
      {
        if k < n {
          assert ShowsAll(prog, MachineRun(prog, s, k));
        }
      }
    }
  }

  /** The handlers see every data access of a run if and only if the run executes no PUSH of a
      register and no PC-relative load; they never see more. */
  lemma {:induction false} TraceIsComplete(prog: Program, s: Machine, n: nat)
    ensures |Trace(prog, s, n)| <= |DataTrace(prog, s, n)|
    ensures Trace(prog, s, n) == DataTrace(prog, s, n) <==> ShowsRun(prog, s, n)
  {
    hide ShowsAll, StepAccesses, StepData, OneStep;
    if n > 0 {
      hide ShowsRun;
      var s' := MachineRun(prog, s, n - 1);
      TraceIsComplete(prog, s, n - 1);
      ShowsOneMore(prog, s, n - 1);
      StepShows(prog, s');
      AppendSame(Trace(prog, s, n - 1), DataTrace(prog, s, n - 1), StepData(prog, s'));
    }
  }

  lemma {:induction false} CpsrUntouched(prog: Program, s: Machine, n: nat)
    ensures MachineRun(prog, s, n).cpsr == s.cpsr
  {
    if n > 0 {
      CpsrUntouched(prog, s, n - 1);
    }
  }

  lemma ExitSlotContents(s: Machine, slots: map<Id, Word>, r: Reg)
    ensures SlotAt(ExitSlots(s, slots), Gpr(r)) == s.regs[r]
    ensures UnpackFlags(SlotAt(ExitSlots(s, slots), Cpsr)) == s.f
    ensures SlotAt(ExitSlots(s, slots), Cpsr) % 0x1000_0000 == s.cpsr % 0x1000_0000
  {
    hide UnpackFlags, PackCpsr;
    var packed := s.(cpsr := PackCpsr(s.cpsr, s.f));
    StoredSlot(packed, 16, slots, r);
    StoredSlot(packed, 16, slots, 15);
    UnpackPack(s.cpsr, s.f);
  }

  /** What the caller finds in the processor structure: every register of the machine, the flags
      in the top of CPSR, and bits 0 to 27 of CPSR as they were on entry. */
  lemma ExitRegisters(prog: Program, ranges: seq<Range>, entry: Pc, g: Graph, env: Env, h: Heap, n: nat, r: Reg)
    requires Closed(prog, ranges, entry, g)
    requires StepsInside(prog, ranges, EntryMachine(entry, h), n)
    requires !InRange(ranges, MachineRun(prog, EntryMachine(entry, h), n).pc)
    ensures var s := MachineRun(prog, EntryMachine(entry, h), n);
            var c := RunBlocks(g.blocks, Running(Entry, env, h), n + 2);
            && c.Returned?
            && SlotAt(c.heap.slots, Gpr(r)) == s.regs[r]
            && UnpackFlags(SlotAt(c.heap.slots, Cpsr)) == s.f
            && SlotAt(c.heap.slots, Cpsr) % 0x1000_0000 == SlotAt(h.slots, Cpsr) % 0x1000_0000
  {
    hide Closed, RunBlocks, CanStep, UnpackFlags, ExitSlots, MachineRun;
    var s := MachineRun(prog, EntryMachine(entry, h), n);
    ReturnsAtExit(prog, ranges, entry, g, env, h, n);
    ExitSlotContents(s, h.slots, r);
    CpsrUntouched(prog, EntryMachine(entry, h), n);
  }
}
