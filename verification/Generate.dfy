/** The whole way from machine code to an IR function: translation, and instrumentation if it is
    asked for. */
module Generate {
  import opened Ir
  import opened Arm
  import opened Emitters
  import opened Cfg
  import opened Translator
  import opened Simulation
  import opened Instrumentation

  /** From every processor structure, and for as long as every instruction inside the ranges has a
      valid encoding and finds its literals unchanged: the function is never stuck; it returns
      exactly when the machine has left the ranges; it returns the machine's memory and
      registers; and it has logged the accesses of the machine's steps and no others. */
  ghost predicate Simulates(prog: Program, ranges: seq<Range>, entry: Pc, blocks: Blocks) {
    forall env: Env, h: Heap, n: nat :: Follows(prog, ranges, entry, blocks, env, h, n)
  }

  ghost predicate Follows(prog: Program, ranges: seq<Range>, entry: Pc, blocks: Blocks, env: Env, h: Heap, n: nat) {
    var s := MachineRun(prog, EntryMachine(entry, h), n);
    var c := RunBlocks(blocks, Running(Entry, env, h), n + 2);
    StepsInside(prog, ranges, EntryMachine(entry, h), n) && (InRange(ranges, s.pc) ==> CanStep(prog, ranges, s)) ==>
      && !c.Stuck?
      && (c.Returned? <==> !InRange(ranges, s.pc))
      && (c.Returned? ==> c.heap.mem == s.mem && c.heap.slots == ExitSlots(s, h.slots))
      && c.heap.log == h.log + Trace(prog, EntryMachine(entry, h), if c.Returned? then n else n + 1)
  }

  lemma ClosedSimulates(prog: Program, ranges: seq<Range>, entry: Pc, g: Graph)
    requires Closed(prog, ranges, entry, g)
    ensures Simulates(prog, ranges, entry, g.blocks) && Simulates(prog, ranges, entry, InstrumentBlocks(g.blocks))
  {
    hide Closed, StepsInside, CanStep, RunBlocks, EntryMachine, MachineRun, ExitSlots, InRange, Trace;
    forall env: Env, h: Heap, n: nat
      ensures Follows(prog, ranges, entry, g.blocks, env, h, n)
      ensures Follows(prog, ranges, entry, InstrumentBlocks(g.blocks), env, h, n)
    {
      var s := MachineRun(prog, EntryMachine(entry, h), n);
      if StepsInside(prog, ranges, EntryMachine(entry, h), n) && (InRange(ranges, s.pc) ==> CanStep(prog, ranges, s)) {
        ReturnsAtExit(prog, ranges, entry, g, env, h, n);
        InstrumentedReturns(prog, ranges, entry, g, env, h, n);
      }
    }
  }

  /** Runs the pass over every block of the function. */
  method InstrumentFunction(blocks: Blocks) returns (ok: bool, result: Blocks)
    ensures ok <==> forall l :: l in blocks ==> Instrumentable(blocks[l].code)
    ensures ok ==> result == InstrumentBlocks(blocks)
  {
    hide Instrument, Instrumentable;
    result := blocks;
    var todo := blocks.Keys;
    while todo != {}
      invariant todo <= blocks.Keys && result.Keys == blocks.Keys
      invariant forall l :: l in blocks ==>
                  result[l] == if l in todo then blocks[l] else blocks[l].(code := Instrument(blocks[l].code))
      invariant forall l :: l in blocks && l !in todo ==> Instrumentable(blocks[l].code)
      decreases |todo|
    {
      var l :| l in todo;
      todo := todo - {l};
      var bb := new BasicBlock(blocks[l].code);
      var done := bb.RunOnBasicBlock();
      if !done {
        return false, blocks;
      }
      result := result[l := blocks[l].(code := bb.code)];
    }
    ok := true;
  }

  /** Translates the program and, if asked to, instruments the result. When the translation ends
      normally the function simulates the program either way. What it logs comes from calls of the
      handlers alone if it is instrumented, and from marked accesses alone if it is not. */
  method TranslateProgram(prog: Program, entry: Pc, ranges: seq<Range>, instrument: bool) returns (outcome: Outcome, blocks: Blocks)
    requires InRange(ranges, entry)
    ensures AllTranslatable(prog, ranges) ==> outcome.Normal?
    ensures outcome.Normal? ==> Simulates(prog, ranges, entry, blocks)
    ensures !outcome.Normal? ==> exists pc :: Stops(prog, ranges, pc, outcome)
    ensures outcome.Normal? ==> forall l :: l in blocks ==>
              if instrument then MarkFree(blocks[l].code) else CallFree(blocks[l].code)
  {
    hide Cfg.Inv, Closed, Simulates, MarkFree, CallFree, InRange, Instrumentable, AllTranslatable, Stops;
    var translator := new BinaryTranslator(prog, entry);
    var pcRanges := new Ranges(ranges);
    outcome := translator.Translate(pcRanges);
    blocks := translator.cache.blocks;
    ghost var g := translator.cache.G();
    if outcome.Normal? {
      ClosedSimulates(prog, ranges, entry, g);
      forall l | l in g.blocks
        ensures Instrumentable(g.blocks[l].code) && CallFree(g.blocks[l].code) && MarkFree(Instrument(g.blocks[l].code))
      {
        TranslatedCode(prog, ranges, entry, g, l);
        NoMarksLeft(g.blocks[l].code);
      }
      if instrument {
        var _, instrumented := InstrumentFunction(blocks);
        blocks := instrumented;
      }
    }
  }
}
