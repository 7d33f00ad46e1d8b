/** The pass that turns marked loads and stores into calls of the access handlers. */
module Instrumentation {
  import opened Words
  import opened Ir
  import opened Arm
  import opened Emitters
  import opened Cfg
  import opened Simulation

  predicate Marked(ins: Instr) {
    (ins.Load? || ins.Store?) && ins.marked
  }

  /** The widths that the pass knows; it asserts that there are no others. */
  predicate CanExpand(ins: Instr) {
    Marked(ins) ==> AccessSize(ins.size)
  }

  predicate Instrumentable(code: seq<Line>) {
    forall i :: 0 <= i < |code| ==> CanExpand(code[i].ins)
  }

  /** What one instruction is replaced with. */
  function Expand(line: Line): (lines: seq<Line>)
    ensures |lines| >= 1
  {
    match line.ins
    case Load(ptr, size, true) =>
      var addr, value := Temp(LoadAddr, line.dest), Temp(HandleRead, line.dest);
      [Line(addr, Cast(ptr, 4)), Line(value, CallRead(Use(addr), size)), Line(line.dest, Cast(Use(value), size))]
    case Store(val, ptr, size, true) =>
      var addr, value := Temp(StoreAddr, line.dest), Temp(StoreVal, line.dest);
      [Line(addr, Cast(ptr, 4)), Line(value, Cast(val, 4)), Line(line.dest, CallWrite(Use(addr), size, Use(value)))]
    case _ => [line]
  }

  function Instrument(code: seq<Line>): seq<Line> {
    if code == [] then [] else Instrument(code[..|code| - 1]) + Expand(code[|code| - 1])
  }

  class BasicBlock {
    var code: seq<Line>

    constructor (code: seq<Line>)
      ensures this.code == code
    {
      this.code := code;
    }

    /** Walks over the block once and replaces instructions where they stand. Stops at a marked
        access of unknown width, for which the source asserts. */
    method RunOnBasicBlock() returns (ok: bool)
      modifies this
      ensures ok <==> Instrumentable(old(code))
      ensures ok ==> code == Instrument(old(code)) && MarkFree(code)
    {
      hide Instrument, Expand, Instrumentable, CanExpand;
      var i := 0;
      ghost var k := 0;
      NothingDone(code);
      while i < |code|
        invariant k <= |old(code)| && i == |Instrument(old(code)[..k])|
        invariant code == Instrument(old(code)[..k]) + old(code)[k..]
        invariant Instrumentable(old(code)[..k])
        decreases |old(code)| - k
      {
        var line := code[i];
        ReplaceOne(old(code), k, code, i);
        OneMoreLine(old(code), k);
        if !CanExpand(line.ins) {
          return false;
        }
        code := code[..i] + Expand(line) + code[i + 1..];
        i := i + |Expand(line)|;
        k := k + 1;
      }
      assert old(code)[..k] == old(code);
      NoMarksLeft(old(code));
      ok := true;
    }
  }

  lemma NothingDone(code: seq<Line>)
    ensures Instrument(code[..0]) == [] && Instrumentable(code[..0])
  {
  }

  lemma OneMoreLine(code: seq<Line>, k: nat)
    requires k < |code| && Instrumentable(code[..k])
    ensures if CanExpand(code[k].ins) then Instrumentable(code[..k + 1]) else !Instrumentable(code)
  {
    hide CanExpand;
    assert forall i :: 0 <= i < k ==> code[..k][i] == code[i];
  }

  lemma ReplaceOne(start: seq<Line>, k: nat, code: seq<Line>, i: nat)
    requires k < |start| && i == |Instrument(start[..k])| && code == Instrument(start[..k]) + start[k..]
    ensures code[i] == start[k]
    ensures Instrument(start[..k + 1]) == Instrument(start[..k]) + Expand(start[k])
    ensures code[..i] + Expand(start[k]) + code[i + 1..] == Instrument(start[..k + 1]) + start[k + 1..]
  {
    hide Expand;
    assert start[..k + 1][..k] == start[..k];
    assert code[..i] == Instrument(start[..k]) && code[i + 1..] == start[k + 1..];
  }

  predicate MarkFree(code: seq<Line>) {
    forall i :: 0 <= i < |code| ==> !Marked(code[i].ins)
  }

  predicate CallFree(code: seq<Line>) {
    forall i :: 0 <= i < |code| ==> !code[i].ins.CallRead? && !code[i].ins.CallWrite?
  }

  /** Which code the pass accepts, and which code has no mark left. */
  lemma WidthsAndMarks(code: seq<Line>)
    ensures Instrumentable(code) <==>
            forall i :: 0 <= i < |code| ==>
              (code[i].ins.Load? && code[i].ins.marked ==> code[i].ins.size in {1, 2, 4})
              && (code[i].ins.Store? && code[i].ins.marked ==> code[i].ins.size in {1, 2, 4})
    ensures MarkFree(code) <==>
            forall i :: 0 <= i < |code| ==>
              (code[i].ins.Load? ==> !code[i].ins.marked) && (code[i].ins.Store? ==> !code[i].ins.marked)
  {
  }

  lemma {:induction false} NoMarksLeft(code: seq<Line>)
    ensures MarkFree(Instrument(code))
  {
    if code != [] {
      NoMarksLeft(code[..|code| - 1]);
    }
  }

  lemma UnmarkedKept(line: Line)
    requires !Marked(line.ins)
    ensures Expand(line) == [line]
  {
  }

  lemma {:induction false} UnmarkedUnchanged(code: seq<Line>)
    requires MarkFree(code)
    ensures Instrument(code) == code
  {
    if code != [] {
      var k := |code| - 1;
      UnmarkedUnchanged(code[..k]);
      UnmarkedKept(code[k]);
      hide Expand, Marked;
      assert code == code[..k] + [code[k]];
    }
  }

  lemma SecondRunChangesNothing(code: seq<Line>)
    ensures Instrument(Instrument(code)) == Instrument(code)
  {
    NoMarksLeft(code);
    UnmarkedUnchanged(Instrument(code));
  }

  // Meaning. The two programs agree on every name that is not a helper of this pass.

  predicate Visible(o: Operand) {
    o.Use? ==> !o.n.Temp?
  }

  predicate VisibleOperands(ins: Instr) {
    match ins
    case Binary(_, a, b) => Visible(a) && Visible(b)
    case Not(a) => Visible(a)
    case ICmp(_, a, b) => Visible(a) && Visible(b)
    case Flag(_, a, b) => Visible(a) && Visible(b)
    case FlagNot(a) => Visible(a)
    case ZextFlag(a) => Visible(a)
    case Cast(a, _) => Visible(a)
    case Gep(a, b, _) => Visible(a) && Visible(b)
    case Load(a, _, _) => Visible(a)
    case Store(a, b, _, _) => Visible(a) && Visible(b)
    case LoadSlot(_) => true
    case StoreSlot(_, a) => Visible(a)
    case CallRead(a, _) => Visible(a)
    case CallWrite(a, _, b) => Visible(a) && Visible(b)
  }

  predicate VisibleCode(code: seq<Line>) {
    forall i :: 0 <= i < |code| ==> !code[i].dest.Temp? && VisibleOperands(code[i].ins)
  }

  ghost predicate Agree(e1: Env, e2: Env) {
    forall n: Name :: !n.Temp? ==> Eval(Use(n), e1) == Eval(Use(n), e2)
  }

  lemma AgreeOn(o: Operand, e1: Env, e2: Env)
    requires Visible(o) && Agree(e1, e2)
    ensures Eval(o, e1) == Eval(o, e2)
  {
    if o.Use? {
      assert Eval(Use(o.n), e1) == Eval(Use(o.n), e2);
    }
  }

  lemma AgreeResult(ins: Instr, e1: Env, e2: Env, h: Heap)
    requires VisibleOperands(ins) && Agree(e1, e2)
    ensures Result(ins, e1, h) == Result(ins, e2, h) && Effect(ins, e1, h) == Effect(ins, e2, h)
  {
    forall o: Operand | Visible(o)
      ensures Eval(o, e1) == Eval(o, e2)
    {
      AgreeOn(o, e1, e2);
    }
  }

  lemma ReadFits(m: Memory, a: Word, size: nat)
    ensures Narrow(ReadMem(m, a, size), size) == ReadMem(m, a, size)
  {
  }

  lemma RunOne(line: Line, s: State)
    ensures Exec([line], s) == ExecLine(line, s)
  {
    assert [line][..0] == [];
    assert Exec([], s) == s;
  }

  lemma RunThree(a: Line, b: Line, c: Line, s: State)
    ensures Exec([a, b, c], s) == ExecLine(c, ExecLine(b, ExecLine(a, s)))
  {
    hide ExecLine;
    RunOne(a, s);
    ExecAppend([a], [b], s);
    RunOne(b, ExecLine(a, s));
    assert [a, b, c] == [a] + [b] + [c];
    ExecAppend([a] + [b], [c], s);
    RunOne(c, ExecLine(b, ExecLine(a, s)));
  }

  lemma AgreeUpdate(e1: Env, e2: Env, n: Name, d: Datum)
    requires Agree(e1, e2)
    ensures Agree(e1[n := d], e2[n := d])
    ensures n.Temp? ==> Agree(e1, e2[n := d])
  {
    assert forall m: Name :: !m.Temp? ==> Eval(Use(m), e1) == Eval(Use(m), e2);
  }

  lemma LoadExpands(line: Line, s: State, t: State)
    requires line.ins.Load? && line.ins.marked && !line.dest.Temp? && Visible(line.ins.ptr)
    requires Agree(s.env, t.env) && s.heap == t.heap
    ensures Agree(ExecLine(line, s).env, Exec(Expand(line), t).env)
    ensures ExecLine(line, s).heap == Exec(Expand(line), t).heap
  {
    hide ReadMem, Agree;
    var ls := Expand(line);
    var t1 := ExecLine(ls[0], t);
    var t2 := ExecLine(ls[1], t1);
    RunThree(ls[0], ls[1], ls[2], t);
    AgreeOn(line.ins.ptr, s.env, t.env);
    AgreeUpdate(s.env, t.env, ls[0].dest, Result(ls[0].ins, t.env, t.heap));
    AgreeUpdate(s.env, t1.env, ls[1].dest, Result(ls[1].ins, t1.env, t1.heap));
    AgreeUpdate(s.env, t2.env, line.dest, Result(line.ins, s.env, s.heap));
    ReadFits(s.heap.mem, Number(line.ins.ptr, s.env), line.ins.size);
  }

  lemma StoreExpands(line: Line, s: State, t: State)
    requires line.ins.Store? && line.ins.marked && !line.dest.Temp?
    requires Visible(line.ins.ptr) && Visible(line.ins.val)
    requires Agree(s.env, t.env) && s.heap == t.heap
    ensures Agree(ExecLine(line, s).env, Exec(Expand(line), t).env)
    ensures ExecLine(line, s).heap == Exec(Expand(line), t).heap
  {
    hide WriteMem, Agree;
    var ls := Expand(line);
    var t1 := ExecLine(ls[0], t);
    var t2 := ExecLine(ls[1], t1);
    RunThree(ls[0], ls[1], ls[2], t);
    AgreeOn(line.ins.ptr, s.env, t.env);
    AgreeUpdate(s.env, t.env, ls[0].dest, Result(ls[0].ins, t.env, t.heap));
    AgreeOn(line.ins.val, s.env, t1.env);
    AgreeUpdate(s.env, t1.env, ls[1].dest, Result(ls[1].ins, t1.env, t1.heap));
    AgreeUpdate(s.env, t2.env, line.dest, Result(line.ins, s.env, s.heap));
  }

  lemma LineExpands(line: Line, s: State, t: State)
    requires !line.dest.Temp? && VisibleOperands(line.ins)
    requires Agree(s.env, t.env) && s.heap == t.heap
    ensures Agree(ExecLine(line, s).env, Exec(Expand(line), t).env)
    ensures ExecLine(line, s).heap == Exec(Expand(line), t).heap
  {
    hide Agree, Result, Effect;
    if Marked(line.ins) && line.ins.Load? {
      LoadExpands(line, s, t);
    } else if Marked(line.ins) {
      StoreExpands(line, s, t);
    } else {
      AgreeResult(line.ins, s.env, t.env, s.heap);
      AgreeUpdate(s.env, t.env, line.dest, Result(line.ins, s.env, s.heap));
      assert Expand(line) == [line] && [line][..0] == [];
    }
  }

  /** The rewritten block computes the same values, leaves the same memory and processor
      structure, and calls the handlers for exactly the accesses that were marked, in order. */
  lemma {:induction false} BlockExpands(code: seq<Line>, s: State, t: State)
    requires VisibleCode(code) && Agree(s.env, t.env) && s.heap == t.heap
    ensures Agree(Exec(code, s).env, Exec(Instrument(code), t).env)
    ensures Exec(code, s).heap == Exec(Instrument(code), t).heap
  {
    hide Agree, Expand, ExecLine, VisibleOperands;
    if code != [] {
      var k := |code| - 1;
      BlockExpands(code[..k], s, t);
      ExecAppend(Instrument(code[..k]), Expand(code[k]), t);
      LineExpands(code[k], Exec(code[..k], s), Exec(Instrument(code[..k]), t));
    }
  }

  // The whole function.

  function InstrumentBlocks(blocks: Blocks): Blocks {
    map l | l in blocks :: blocks[l].(code := Instrument(blocks[l].code))
  }

  predicate VisibleTerms(terms: seq<Term>) {
    forall t :: t in terms && t.CondBr? ==> Visible(t.cond)
  }

  /** No name of this pass occurs in the function. */
  ghost predicate VisibleBlocks(blocks: Blocks) {
    && (forall l :: l in blocks ==> VisibleCode(blocks[l].code) && VisibleTerms(blocks[l].terms))
    && (forall pc: Pc, id, k :: Head(pc) in blocks && id in blocks[Head(pc)].phis && 0 <= k < |blocks[Head(pc)].phis[id]| ==>
          Visible(blocks[Head(pc)].phis[id][k].value))
  }

  ghost predicate SameConf(c: Conf, d: Conf) {
    match c
    case Running(at, env, heap) => d.Running? && d.at == at && d.heap == heap && Agree(env, d.env)
    case Returned(heap) => d == c
    case Stuck => d == c
  }

  lemma {:induction false} VisibleIncoming(incoming: seq<Incoming>, pred: Label)
    requires forall k :: 0 <= k < |incoming| ==> Visible(incoming[k].value)
    ensures Visible(ValueFrom(incoming, pred))
  {
    if incoming != [] && incoming[0].pred != pred {
      VisibleIncoming(incoming[1..], pred);
    }
  }

  lemma SamePhis(l: Label, b: Block, b': Block, from: Label, e1: Env, e2: Env)
    requires b'.phis == b.phis && Agree(e1, e2)
    requires forall id, k :: id in b.phis && 0 <= k < |b.phis[id]| ==> Visible(b.phis[id][k].value)
    ensures PhiData(l, b, from, e1) == PhiData(l, b', from, e2)
  {
    hide Agree, Visible, Eval;
    forall id | id in b.phis
      ensures Eval(ValueFrom(b.phis[id], from), e1) == Eval(ValueFrom(b.phis[id], from), e2)
    {
      VisibleIncoming(b.phis[id], from);
      AgreeOn(ValueFrom(b.phis[id], from), e1, e2);
    }
  }

  lemma AgreeMerge(e1: Env, e2: Env, added: Env)
    requires Agree(e1, e2)
    ensures Agree(e1 + added, e2 + added)
  {
    assert forall n: Name :: !n.Temp? ==> Eval(Use(n), e1) == Eval(Use(n), e2);
  }

  lemma SameEntry(blocks: Blocks, from: Label, to: Pc, s: State, t: State)
    requires VisibleBlocks(blocks) && Agree(s.env, t.env) && s.heap == t.heap
    ensures SameConf(Enter(blocks, from, to, s), Enter(InstrumentBlocks(blocks), from, to, t))
  {
    hide Agree, PhiData, VisibleCode, VisibleTerms;
    var l := Head(to);
    if l in blocks {
      SamePhis(l, blocks[l], InstrumentBlocks(blocks)[l], from, s.env, t.env);
      AgreeMerge(s.env, t.env, PhiData(l, blocks[l], from, s.env));
    }
  }

  lemma SameBlock(blocks: Blocks, c: Conf, d: Conf)
    requires VisibleBlocks(blocks) && SameConf(c, d)
    ensures SameConf(RunBlock(blocks, c), RunBlock(InstrumentBlocks(blocks), d))
  {
    hide Agree, Enter, Exec, Eval, VisibleCode, Instrument;
    if c.Running? && c.at in blocks && |blocks[c.at].terms| == 1 {
      var b := blocks[c.at];
      var s, t := State(c.env, c.heap), State(d.env, d.heap);
      BlockExpands(b.code, s, t);
      var s', t' := Exec(b.code, s), Exec(Instrument(b.code), t);
      match b.terms[0]
      case Br(target) => SameEntry(blocks, c.at, target, s', t');
      case CondBr(cond, yes, no) =>
        AgreeOn(cond, s'.env, t'.env);
        SameEntry(blocks, c.at, if Truth(cond, s'.env) then yes else no, s', t');
      case Ret =>
    }
  }

  lemma SameSelf(c: Conf)
    ensures SameConf(c, c)
  {
  }

  lemma {:induction false} SameRun(blocks: Blocks, c: Conf, n: nat)
    requires VisibleBlocks(blocks)
    ensures SameConf(RunBlocks(blocks, c, n), RunBlocks(InstrumentBlocks(blocks), c, n))
  {
    hide VisibleBlocks, RunBlock, SameConf, InstrumentBlocks;
    if n == 0 {
      SameSelf(c);
    } else {
      SameRun(blocks, c, n - 1);
      SameBlock(blocks, RunBlocks(blocks, c, n - 1), RunBlocks(InstrumentBlocks(blocks), c, n - 1));
    }
  }

  // What the translator emits is such a function, and calls no handler itself.

  lemma ScopedIsVisible(code: seq<Line>, l: Label)
    requires Scoped(code, l)
    ensures VisibleCode(code) && CallFree(code) && Instrumentable(code)
  {
    forall i | 0 <= i < |code|
      ensures VisibleOperands(code[i].ins) && !code[i].dest.Temp?
    {
      assert code[i].dest == Res(l, i) && OperandsInScope(code[i].ins, l, i);
    }
  }

  lemma FinishedCode(prog: Program, ranges: seq<Range>, entry: Pc, l: Label, b: Block, out: Values)
    requires Finished(prog, ranges, entry, l, b, out)
    ensures Scoped(b.code, l) && VisibleTerms(b.terms)
    ensures LocalValues(out, l, |b.code|) || b.terms == [] || b.terms == [Ret]
  {
    hide Implements, ExitStores, EntryShows, LocalValues, InRange, Scoped;
    NothingScoped(l);
  }

  lemma TranslatedCode(prog: Program, ranges: seq<Range>, entry: Pc, g: Graph, l: Label)
    requires Closed(prog, ranges, entry, g) && l in g.blocks
    ensures VisibleCode(g.blocks[l].code) && CallFree(g.blocks[l].code) && Instrumentable(g.blocks[l].code)
    ensures VisibleTerms(g.blocks[l].terms)
    ensures LocalValues(g.outs[l], l, |g.blocks[l].code|) || g.edges[l] == []
  {
    hide Finished, PhisMatchEdges, EdgesLeadToUnits, VisibleCode, LocalValues, Scoped, VisibleTerms;
    assert l in g.outs && BlockClosed(prog, ranges, entry, g, l);
    FinishedCode(prog, ranges, entry, l, g.blocks[l], g.outs[l]);
    ScopedIsVisible(g.blocks[l].code, l);
  }

  lemma NothingScoped(l: Label)
    ensures Scoped([], l)
  {
  }

  lemma {:induction false} CountsPred(incoming: seq<Incoming>, k: nat)
    requires k < |incoming|
    ensures PredCount(incoming, incoming[k].pred) > 0
  {
    if k < |incoming| - 1 {
      CountsPred(incoming[..|incoming| - 1], k);
    }
  }

  lemma VisiblePhi(prog: Program, ranges: seq<Range>, entry: Pc, g: Graph, pc: Pc, id: Id, k: nat)
    requires Closed(prog, ranges, entry, g) && Head(pc) in g.blocks && id in g.blocks[Head(pc)].phis
    requires k < |g.blocks[Head(pc)].phis[id]|
    ensures Visible(g.blocks[Head(pc)].phis[id][k].value)
  {
    hide Finished, EdgesLeadToUnits, QueueCorrect, LocalValues;
    var incoming := g.blocks[Head(pc)].phis[id];
    var pred := incoming[k].pred;
    assert PhiMatchesEdges(g, pc, incoming, id);
    CountsPred(incoming, k);
    assert pc in g.edges[pred];
    TranslatedCode(prog, ranges, entry, g, pred);
    LocalIsVisible(g.outs[pred], pred, |g.blocks[pred].code|, id);
  }

  lemma LocalIsVisible(values: Values, l: Label, n: nat, id: Id)
    requires LocalValues(values, l, n)
    ensures id in values && Visible(values[id])
  {
    assert InScope(values[id], l, n);
  }

  lemma TranslatedIsVisible(prog: Program, ranges: seq<Range>, entry: Pc, g: Graph)
    requires Closed(prog, ranges, entry, g)
    ensures VisibleBlocks(g.blocks)
  {
    hide Closed, VisibleCode, VisibleTerms, Visible;
    forall l | l in g.blocks
      ensures VisibleCode(g.blocks[l].code) && VisibleTerms(g.blocks[l].terms)
    {
      TranslatedCode(prog, ranges, entry, g, l);
    }
    forall pc: Pc, id, k | Head(pc) in g.blocks && id in g.blocks[Head(pc)].phis && 0 <= k < |g.blocks[Head(pc)].phis[id]|
      ensures Visible(g.blocks[Head(pc)].phis[id][k].value)
    {
      VisiblePhi(prog, ranges, entry, g, pc, id, k);
    }
  }

  /** The instrumented function, too, returns exactly when the machine leaves the ranges, with
      the machine's memory and registers; and the handlers have been called for exactly the
      accesses of the machine's steps, in order. */
  lemma InstrumentedReturns(prog: Program, ranges: seq<Range>, entry: Pc, g: Graph, env: Env, h: Heap, n: nat)
    requires Closed(prog, ranges, entry, g)
    requires StepsInside(prog, ranges, EntryMachine(entry, h), n)
    requires var s := MachineRun(prog, EntryMachine(entry, h), n);
             InRange(ranges, s.pc) ==> CanStep(prog, ranges, s)
    ensures var s := MachineRun(prog, EntryMachine(entry, h), n);
            var d := RunBlocks(InstrumentBlocks(g.blocks), Running(Entry, env, h), n + 2);
            && !d.Stuck? && (d.Returned? <==> !InRange(ranges, s.pc))
            && (d.Returned? ==> d.heap.mem == s.mem && d.heap.slots == ExitSlots(s, h.slots))
            && d.heap.log == h.log + Trace(prog, EntryMachine(entry, h), if d.Returned? then n else n + 1)
  {
    hide Closed, StepsInside, CanStep, RunBlocks, EntryMachine, MachineRun, ExitSlots, InRange, Trace;
    TranslatedIsVisible(prog, ranges, entry, g);
    ReturnsAtExit(prog, ranges, entry, g, env, h, n);
    SameRun(g.blocks, Running(Entry, env, h), n + 2);
  }
}
