/** The translation unit cache with its queue of unfinished units, and the worklist loop of the
    binary translator. */
module Translator {
  import opened Words
  import opened Ir
  import opened Arm
  import opened Emitters
  import opened Cfg

  class Ranges {
    const ranges: seq<Range>

    constructor (ranges: seq<Range>)
      ensures this.ranges == ranges
    {
      this.ranges := ranges;
    }

    method IsInRange(val: Pc) returns (b: bool)
      ensures b <==> exists i :: 0 <= i < |ranges| && ranges[i].0 <= val < ranges[i].1
      ensures b == InRange(ranges, val)
    {
      var i := 0;
      while i < |ranges|
        invariant i <= |ranges|
        invariant forall j :: 0 <= j < i ==> !(ranges[j].0 <= val < ranges[j].1) && !Within(ranges[j], val)
      {
        if val >= ranges[i].0 && val < ranges[i].1 {
          assert Within(ranges[i], val);
          return true;
        }
        i := i + 1;
      }
      b := false;
    }
  }

  lemma CreatedComplete(g: Graph, pc: Pc)
    requires PhisComplete(g.blocks)
    ensures PhisComplete(CreateUnit(g, pc).blocks)
  {
    EveryIdOnce();
  }

  lemma TerminatedComplete(g: Graph, l: Label, terms: seq<Term>)
    requires PhisComplete(g.blocks) && l in g.blocks
    ensures PhisComplete(SetBlock(g, l, g.blocks[l].code, terms).blocks)
  {
  }

  class TranslationUnitCache {
    var blocks: Blocks
    var unfinished: seq<Work>
    ghost var outs: map<Label, Values>
    ghost var edges: map<Label, seq<Pc>>

    ghost function G(): Graph
      reads this
    {
      Graph(blocks, unfinished, outs, edges)
    }

    constructor (ghost entryValues: Values)
      ensures G() == Start(entryValues)
    {
      blocks := map[Entry := Block(map[], [], [])];
      unfinished := [];
      outs := map[Entry := entryValues];
      edges := map[Entry := []];
    }

    method Find(pc: Pc) returns (found: bool)
      ensures found == (Head(pc) in blocks)
    {
      found := Head(pc) in blocks;
    }

    /** A new head block with one empty phi node per value id; the unit is queued with every
        id bound to its phi node. */
    method Create(pc: Pc)
      requires Head(pc) !in blocks
      modifies this`blocks, this`unfinished
      ensures G() == CreateUnit(old(G()), pc)
      ensures unfinished == old(unfinished) + [Work(pc, PhiValues(Head(pc)))]
      ensures Head(pc) in blocks && blocks == old(blocks)[Head(pc) := blocks[Head(pc)]]
      ensures forall id: Id :: id in blocks[Head(pc)].phis && blocks[Head(pc)].phis[id] == []
      ensures blocks[Head(pc)].code == [] && blocks[Head(pc)].terms == []
    {
      EveryIdOnce();
      var phis, newValues := CreatePhis(VALUE_INFORMATION, Head(pc));
      blocks := blocks[Head(pc) := Block(phis, [], [])];
      unfinished := unfinished + [Work(pc, newValues)];
    }

    static method CreatePhis(infos: seq<Id>, l: Label) returns (phis: map<Id, seq<Incoming>>, values: Values)
      ensures phis == map id | id in infos :: []
      ensures values == map id | id in infos :: Use(Phi(l, id))
    {
      phis, values := map[], map[];
      var k := 0;
      while k < |infos|
        invariant k <= |infos|
        invariant phis == map id | id in infos[..k] :: []
        invariant values == map id | id in infos[..k] :: Use(Phi(l, id))
      {
        assert infos[..k + 1] == infos[..k] + [infos[k]];
        phis := phis[infos[k] := []];
        values := values[infos[k] := Use(Phi(l, infos[k]))];
        k := k + 1;
      }
      assert infos[..k] == infos;
    }

    /** Appends one entry for the edge to every phi node of the unit. */
    method AddIncoming(pc: Pc, values: Values, pred: Label)
      requires Head(pc) in blocks
      requires forall id: Id :: id in values && id in blocks[Head(pc)].phis
      modifies this`blocks
      ensures blocks == old(blocks)[Head(pc) := Cfg.AddIncoming(old(blocks)[Head(pc)], values, pred)]
      ensures forall id: Id :: id in blocks[Head(pc)].phis
                && blocks[Head(pc)].phis[id] == old(blocks)[Head(pc)].phis[id] + [Incoming(values[id], pred)]
    {
      var b := blocks[Head(pc)];
      EveryIdOnce();
      var phis := ExtendPhis(VALUE_INFORMATION, b.phis, values, pred);
      assert phis == Cfg.AddIncoming(b, values, pred).phis;
      blocks := blocks[Head(pc) := b.(phis := phis)];
    }

    static method ExtendPhis(ids: seq<Id>, phis: map<Id, seq<Incoming>>, values: Values, pred: Label)
      returns (phis': map<Id, seq<Incoming>>)
      requires forall i, j :: 0 <= i < j < |ids| ==> ids[i] != ids[j]
      requires forall id :: id in ids ==> id in phis && id in values
      ensures phis'.Keys == phis.Keys
      ensures forall id :: id in phis ==>
                phis'[id] == phis[id] + if id in ids then [Incoming(values[id], pred)] else []
    {
      phis' := phis;
      var k := 0;
      while k < |ids|
        invariant k <= |ids| && phis'.Keys == phis.Keys
        invariant forall id :: id in phis ==>
                    phis'[id] == phis[id] + if id in ids[..k] then [Incoming(values[id], pred)] else []
      {
        var id := ids[k];
        assert ids[..k + 1] == ids[..k] + [id];
        phis' := phis'[id := phis'[id] + [Incoming(values[id], pred)]];
        k := k + 1;
      }
      assert ids[..k] == ids;
    }

    /** One more edge, in the phi nodes and in the record of edges. */
    method AddEdge(to: Pc, values: Values, pred: Label)
      requires Head(to) in blocks && pred in outs && pred in edges && outs[pred] == values
      requires PhisComplete(blocks)
      requires forall id: Id :: id in values
      modifies this`blocks, this`edges
      ensures G() == Cfg.AddEdge(old(G()), to, pred)
      ensures PhisComplete(blocks)
      ensures blocks.Keys == old(blocks).Keys
      ensures forall l :: l in blocks ==> blocks[l].code == old(blocks)[l].code && blocks[l].terms == old(blocks)[l].terms
    {
      AddIncoming(to, values, pred);
      edges := edges[pred := edges[pred] + [to]];
    }

    /** The unit at `to`, created if there is none, receives an edge from `pred`; unless told
        otherwise the predecessor also ends with a branch to it. */
    method FindCreate(to: Pc, values: Values, pred: Label, terminate: bool)
      requires pred in blocks && pred in outs && pred in edges && outs[pred] == values
      requires PhisComplete(blocks)
      requires forall id: Id :: id in values
      requires terminate ==> blocks[pred].terms == []
      modifies this
      ensures var g := Cfg.FindCreate(old(G()), to, pred);
              G() == if terminate then SetBlock(g, pred, old(blocks)[pred].code, [Br(to)]) else g
      ensures PhisComplete(blocks) && blocks.Keys == old(blocks).Keys + {Head(to)}
    {
      hide Cfg.AddEdge, PhisComplete, NewBlock, PhiValues;
      var found := Find(to);
      if !found {
        CreatedComplete(G(), to);
        Create(to);
      }
      AddEdge(to, values, pred);
      if terminate {
        TerminatedComplete(G(), pred, [Br(to)]);
        Terminate(pred, Br(to));
      }
    }

    /** Inserts a branch at the end of a block that has none yet. */
    method Terminate(l: Label, t: Term)
      requires l in blocks && blocks[l].terms == []
      modifies this`blocks
      ensures G() == SetBlock(old(G()), l, old(blocks)[l].code, [t])
    {
      var terms := blocks[l].terms + [t];
      assert terms == [t];
      blocks := blocks[l := blocks[l].(terms := terms)];
    }

    method HasMoreUnfinished() returns (b: bool)
      ensures b == (unfinished != [])
    {
      b := unfinished != [];
    }

    method GetNextUnfinished() returns (unit: Work)
      requires unfinished != []
      modifies this`unfinished
      ensures unit == old(unfinished)[0] && unfinished == old(unfinished)[1..]
    {
      unit := unfinished[0];
      unfinished := unfinished[1..];
    }

    /** Records the final value ids of a unit taken from the queue. */
    ghost method BeginUnit(pc: Pc, out: Values)
      modifies this`outs, this`edges
      ensures outs == old(outs)[Head(pc) := out] && edges == old(edges)[Head(pc) := []]
    {
      outs := outs[Head(pc) := out];
      edges := edges[Head(pc) := []];
    }

    /** What the builders have appended to an empty block. */
    method Fill(l: Label, code: seq<Line>, terms: seq<Term>)
      requires l in blocks && blocks[l].code == [] && blocks[l].terms == []
      modifies this`blocks
      ensures G() == SetBlock(old(G()), l, code, terms)
    {
      blocks := blocks[l := blocks[l].(code := code, terms := terms)];
    }
  }

  /** What translation does not stop at: everything with a translator except a branch on AL, and
      potentially invalid encodings. */
  predicate Translatable(d: Decoded) {
    d.SoftFail? || (d.Success? && !(d.ins.Bcc? && d.ins.cond == AL))
  }

  predicate AllTranslatable(prog: Program, ranges: seq<Range>) {
    forall pc :: pc in Addresses(ranges) ==> Translatable(prog.decode(pc))
  }

  datatype Outcome = Normal | UnknownOpcodeException | OtherException

  /** The address is in the ranges, and translating what is there ends with the exception. */
  ghost predicate Stops(prog: Program, ranges: seq<Range>, pc: Pc, outcome: Outcome) {
    && InRange(ranges, pc)
    && match outcome
       case Normal => false
       case UnknownOpcodeException => prog.decode(pc).UnknownOpcode?
       case OtherException =>
         prog.decode(pc).Fail? || (prog.decode(pc).Success? && prog.decode(pc).ins.Bcc? && prog.decode(pc).ins.cond == AL)
  }

  lemma StopsAt(prog: Program, ranges: seq<Range>, pc: Pc, outcome: Outcome)
    requires InRange(ranges, pc)
    requires outcome.UnknownOpcodeException? <==> prog.decode(pc).UnknownOpcode?
    requires outcome.OtherException? <==>
               prog.decode(pc).Fail?
               || (prog.decode(pc).Success? && prog.decode(pc).ins.Bcc? && prog.decode(pc).ins.cond == AL)
    ensures !outcome.Normal? ==> Stops(prog, ranges, pc, outcome) && !AllTranslatable(prog, ranges)
  {
    assert pc in Addresses(ranges);
  }

  ghost function BegunIn(ranges: seq<Range>, begun: set<Label>): set<Pc> {
    set pc | pc in Addresses(ranges) && Head(pc) in begun
  }

  lemma OneMoreBegun(ranges: seq<Range>, begun: set<Label>, pc: Pc)
    requires Head(pc) !in begun
    ensures var after := BegunIn(ranges, begun + {Head(pc)});
            if InRange(ranges, pc) then |after| == |BegunIn(ranges, begun)| + 1 else after == BegunIn(ranges, begun)
  {
    if InRange(ranges, pc) {
      assert BegunIn(ranges, begun + {Head(pc)}) == BegunIn(ranges, begun) + {pc};
    } else {
      assert BegunIn(ranges, begun + {Head(pc)}) == BegunIn(ranges, begun);
    }
  }

  class BinaryTranslator {
    const prog: Program
    const entry: Pc
    const cache: TranslationUnitCache

    ghost predicate Inv(ranges: seq<Range>)
      reads cache
    {
      Cfg.Inv(prog, ranges, entry, cache.G(), {})
    }

    /** Code and value ids of the entry block. */
    static method GenCodeEntry(entry: Pc) returns (code: seq<Line>, values: Values)
      ensures Scoped(code, Entry) && LocalValues(values, Entry, |code|) && EntryShows(entry, code, values)
    {
      hide EntryShows, Scoped;
      var builder := new UnitBuilder(Entry, UnsetValues());
      builder.GenEntry(entry);
      code, values := builder.code, builder.values;
    }

    /** Generates the entry block and queues the unit at the entry point. */
    constructor (prog: Program, entry: Pc)
      ensures this.prog == prog && this.entry == entry && fresh(cache)
      ensures forall ranges :: Inv(ranges)
      ensures cache.blocks.Keys == {Entry, Head(entry)} && cache.outs.Keys == {Entry}
    {
      hide Cfg.Inv, EntryShows, Scoped, LocalValues;
      var code, values := GenCodeEntry(entry);
      this.prog := prog;
      this.entry := entry;
      cache := new TranslationUnitCache(values);
      new;
      cache.Fill(Entry, code, []);
      EveryId(values, Entry, |code|);
      cache.FindCreate(entry, values, Entry, true);
      assert cache.G() == WithEntry(entry, code, values);
      forall ranges {
        WithEntryKeeps(prog, ranges, entry, code, values);
      }
    }

    /** What the graph looked like before `unit` was taken from the queue. */
    ghost predicate Taken(g: Graph, unit: Work)
      reads cache
    {
      g.queue != [] && g.queue[0] == unit && cache.G() == g.(queue := g.queue[1..])
    }

    /** A program counter outside the ranges: the registers are stored and the function returns. */
    method GenCodeExit(unit: Work, ranges: seq<Range>, ghost g: Graph)
      requires Taken(g, unit) && Cfg.Inv(prog, ranges, entry, g, {}) && !InRange(ranges, unit.pc)
      modifies cache
      ensures Inv(ranges)
      ensures cache.blocks.Keys == g.blocks.Keys && cache.outs.Keys == g.outs.Keys + {Head(unit.pc)}
      ensures cache.unfinished == g.queue[1..]
    {
      hide Cfg.Inv, ExitStores, Scoped, LocalValues, PhiValues;
      NextUnit(prog, ranges, entry, g);
      var l := Head(unit.pc);
      var builder := new UnitBuilder(l, unit.values);
      builder.GenExit();
      cache.BeginUnit(unit.pc, builder.values);
      cache.Fill(l, builder.code, [Ret]);
      ExitKeeps(prog, ranges, entry, g, builder.code, builder.values);
    }

    /** Hands the one successor to find_create, which also ends the block. */
    method ConnectOne(l: Label, out: Values, next: Pc)
      requires l in cache.blocks && l in cache.outs && l in cache.edges && cache.outs[l] == out
      requires cache.blocks[l].terms == []
      requires PhisComplete(cache.blocks)
      requires forall id: Id :: id in out
      modifies cache
      ensures cache.G() == SetBlock(AddTargets(old(cache.G()), [next], l), l, old(cache.blocks)[l].code, [Br(next)])
      ensures |cache.blocks| <= |old(cache.blocks)| + 1
    {
      hide PhisComplete;
      cache.FindCreate(next, out, l, true);
      AddOne(old(cache.G()), next, l);
    }

    /** Hands both successors of a conditional branch to find_create and then ends the block. */
    method ConnectTwo(l: Label, out: Values, cond: Operand, yes: Pc, no: Pc)
      requires l in cache.blocks && l in cache.outs && l in cache.edges && cache.outs[l] == out
      requires cache.blocks[l].terms == []
      requires PhisComplete(cache.blocks)
      requires forall id: Id :: id in out
      modifies cache
      ensures cache.G() == SetBlock(AddTargets(old(cache.G()), [no, yes], l), l, old(cache.blocks)[l].code,
                                    [CondBr(cond, yes, no)])
      ensures |cache.blocks| <= |old(cache.blocks)| + 2
    {
      hide PhisComplete;
      cache.FindCreate(no, out, l, false);
      cache.FindCreate(yes, out, l, false);
      cache.Terminate(l, CondBr(cond, yes, no));
      AddTwo(old(cache.G()), no, yes, l);
    }

    method Connect(l: Label, out: Values, leave: Leave) returns (t: Term)
      requires l in cache.blocks && l in cache.outs && l in cache.edges && cache.outs[l] == out
      requires cache.blocks[l].terms == []
      requires PhisComplete(cache.blocks)
      requires forall id: Id :: id in out
      modifies cache
      ensures !t.Ret? && LeaveOf(t) == leave
      ensures cache.G() == SetBlock(AddTargets(old(cache.G()), Targets(t), l), l, old(cache.blocks)[l].code, [t])
      ensures |cache.blocks| <= |old(cache.blocks)| + 2
    {
      hide SetBlock, AddTargets;
      match leave
      case Goto(next) =>
        ConnectOne(l, out, next);
        t := Br(next);
      case Choose(cond, yes, no) =>
        ConnectTwo(l, out, cond, yes, no);
        t := CondBr(cond, yes, no);
    }

    /** The unit begins with its code in place and no edges yet. */
    method OpenUnit(unit: Work, ghost g: Graph, code: seq<Line>, out: Values)
      requires Taken(g, unit) && Queued(g, unit) && PhisComplete(g.blocks)
      modifies cache
      ensures Head(unit.pc) in g.blocks && cache.G() == SetBlock(Begin(g, out), Head(unit.pc), code, [])
      ensures PhisComplete(cache.blocks)
    {
      cache.BeginUnit(unit.pc, out);
      cache.Fill(Head(unit.pc), code, []);
      PhisStayComplete(g, cache.G(), Head(unit.pc));
    }

    /** The unit with its code, its edges and its terminator. */
    method ConnectUnit(unit: Work, ghost g: Graph, code: seq<Line>, out: Values, leave: Leave) returns (t: Term)
      requires Taken(g, unit) && Queued(g, unit) && PhisComplete(g.blocks)
      requires forall id: Id :: id in out
      modifies cache
      ensures !t.Ret? && LeaveOf(t) == leave
      ensures Head(unit.pc) in g.blocks && cache.G() == WithUnit(g, code, out, t)
      ensures cache.outs.Keys == g.outs.Keys + {Head(unit.pc)} && |cache.blocks| <= |g.blocks| + 2
    {
      hide PhisComplete, Queued, PhiValues, NewBlock;
      OpenUnit(unit, g, code, out);
      t := Connect(Head(unit.pc), out, leave);
    }

    /** Keeps the invariant while the unit is finished. */
    method FinishUnit(unit: Work, ins: Insn, size: nat, ranges: seq<Range>, ghost g: Graph,
                      code: seq<Line>, out: Values, leave: Leave)
      requires Taken(g, unit) && Cfg.Inv(prog, ranges, entry, g, {}) && InRange(ranges, unit.pc)
      requires prog.decode(unit.pc) == Success(ins, size)
      requires Scoped(code, Head(unit.pc)) && LocalValues(out, Head(unit.pc), |code|)
      requires Implements(prog, unit.pc, ins, size, code, out, leave) && LeaveInScope(leave, Head(unit.pc), |code|)
      modifies cache
      ensures Inv(ranges)
      ensures cache.outs.Keys == g.outs.Keys + {Head(unit.pc)} && |cache.blocks| <= |g.blocks| + 2
    {
      hide Cfg.Inv, Implements, Scoped, LocalValues, PhiValues, PhisComplete, LeaveInScope, UnitBlock, InRange, Queued;
      hide WithUnit;
      NextUnit(prog, ranges, entry, g);
      EveryId(out, Head(unit.pc), |code|);
      var t := ConnectUnit(unit, g, code, out, leave);
      MakesUnit(prog, unit.pc, ins, size, code, out, t);
      UnitKeeps(prog, ranges, entry, g, ins, size, code, out, t);
    }

    /** Runs the instruction's translator on the unit; false if it throws. */
    method TranslateDecoded(unit: Work, ins: Insn, size: nat, ranges: seq<Range>, ghost g: Graph) returns (ok: bool)
      requires Taken(g, unit) && Cfg.Inv(prog, ranges, entry, g, {}) && InRange(ranges, unit.pc)
      requires prog.decode(unit.pc) == Success(ins, size)
      modifies cache
      ensures ok <==> Translatable(Success(ins, size))
      ensures ok ==>
                && Inv(ranges)
                && cache.outs.Keys == g.outs.Keys + {Head(unit.pc)}
                && |cache.blocks| <= |g.blocks| + 2
    {
      hide Cfg.Inv, Implements, Scoped, LocalValues, PhiValues, PhisComplete;
      NextUnit(prog, ranges, entry, g);
      var builder := new UnitBuilder(Head(unit.pc), unit.values);
      var leave;
      ok, leave := builder.Translate(prog, unit.pc, ins, size);
      if ok {
        FinishUnit(unit, ins, size, ranges, g, builder.code, builder.values, leave);
      }
    }

    /** Translates one instruction of the ranges. A SoftFail leaves the block as it is. */
    method TranslateSingleInstruction(unit: Work, ranges: seq<Range>, ghost g: Graph) returns (outcome: Outcome)
      requires Taken(g, unit) && Cfg.Inv(prog, ranges, entry, g, {}) && InRange(ranges, unit.pc)
      modifies cache
      ensures outcome.UnknownOpcodeException? <==> prog.decode(unit.pc).UnknownOpcode?
      ensures outcome.OtherException? <==>
                prog.decode(unit.pc).Fail?
                || (prog.decode(unit.pc).Success? && prog.decode(unit.pc).ins.Bcc? && prog.decode(unit.pc).ins.cond == AL)
      ensures outcome.Normal? <==> Translatable(prog.decode(unit.pc))
      ensures outcome.Normal? ==>
                && Inv(ranges)
                && cache.outs.Keys == g.outs.Keys + {Head(unit.pc)}
                && |cache.blocks| <= |g.blocks| + 2
    {
      hide Cfg.Inv;
      match prog.decode(unit.pc)
      case Fail => outcome := OtherException;
      case UnknownOpcode => outcome := UnknownOpcodeException;
      case SoftFail =>
        cache.BeginUnit(unit.pc, unit.values);
        DroppedKeeps(prog, ranges, entry, g, unit.values);
        outcome := Normal;
      case Success(ins, size) =>
        var ok := TranslateDecoded(unit, ins, size, ranges, g);
        outcome := if ok then Normal else OtherException;
    }

    /** The addresses of the ranges whose unit has been taken from the queue. */
    ghost function Begun(ranges: seq<Range>): set<Pc>
      reads cache
    {
      BegunIn(ranges, cache.outs.Keys)
    }

    /** One round: an exit block without new units, or an address translated for the first
        time and at most two new units. */
    method TranslateNext(ranges: Ranges) returns (outcome: Outcome)
      requires Inv(ranges.ranges) && cache.unfinished != []
      modifies cache
      ensures AllTranslatable(prog, ranges.ranges) ==> outcome.Normal?
      ensures !outcome.Normal? ==> Stops(prog, ranges.ranges, old(cache.unfinished)[0].pc, outcome)
      ensures outcome.Normal? ==> Inv(ranges.ranges)
      ensures outcome.Normal? ==>
                || (Begun(ranges.ranges) == old(Begun(ranges.ranges)) && |cache.unfinished| < |old(cache.unfinished)|
                    && |cache.blocks| == |old(cache.blocks)|)
                || (|Begun(ranges.ranges)| == |old(Begun(ranges.ranges))| + 1
                    && |cache.blocks| <= |old(cache.blocks)| + 2)
    {
      hide Cfg.Inv, PhisComplete, PhiValues, LocalValues, Stops, AllTranslatable, Translatable, InRange, BegunIn;
      ghost var g := cache.G();
      NextUnit(prog, ranges.ranges, entry, g);
      var unit := cache.GetNextUnfinished();
      var inside := ranges.IsInRange(unit.pc);
      if !inside {
        GenCodeExit(unit, ranges.ranges, g);
        outcome := Normal;
      } else {
        outcome := TranslateSingleInstruction(unit, ranges.ranges, g);
        StopsAt(prog, ranges.ranges, unit.pc, outcome);
      }
      OneMoreBegun(ranges.ranges, g.outs.Keys, unit.pc);
    }

    /** Translates until no unit is left. Ends for every program and all ranges, and normally if
        everything in the ranges can be translated; at most 2N + 1 units exist at the end for N
        addresses in the ranges. */
    method Translate(ranges: Ranges) returns (outcome: Outcome)
      requires Inv(ranges.ranges) && InRange(ranges.ranges, entry)
      requires cache.blocks.Keys == {Entry, Head(entry)} && cache.outs.Keys == {Entry}
      modifies cache
      ensures AllTranslatable(prog, ranges.ranges) ==> outcome.Normal?
      ensures !outcome.Normal? ==> exists pc :: Stops(prog, ranges.ranges, pc, outcome)
      ensures outcome.Normal? ==> Closed(prog, ranges.ranges, entry, cache.G())
      ensures outcome.Normal? ==> |cache.blocks| - 1 <= 2 * |Addresses(ranges.ranges)| + 1
    {
      hide Cfg.Inv;
      outcome := Normal;
      assert |cache.blocks.Keys| == 2;
      var more := cache.HasMoreUnfinished();
      while more && outcome.Normal?
        invariant more == (cache.unfinished != [])
        invariant AllTranslatable(prog, ranges.ranges) ==> outcome.Normal?
        invariant !outcome.Normal? ==> exists pc :: Stops(prog, ranges.ranges, pc, outcome)
        invariant outcome.Normal? ==> Inv(ranges.ranges)
        invariant outcome.Normal? ==> |cache.blocks| <= 2 + 2 * |Begun(ranges.ranges)|
        decreases outcome.Normal?, |Addresses(ranges.ranges)| - |Begun(ranges.ranges)|, |cache.unfinished|
      {
        BegunBound(ranges.ranges);
        outcome := TranslateNext(ranges);
        BegunBound(ranges.ranges);
        more := cache.HasMoreUnfinished();
      }
      BegunBound(ranges.ranges);
    }

    lemma BegunBound(ranges: seq<Range>)
      ensures |Begun(ranges)| <= |Addresses(ranges)|
    {
      SubsetSize(Begun(ranges), Addresses(ranges));
    }
  }

  lemma {:induction false} SubsetSize(a: set<Pc>, b: set<Pc>)
    requires a <= b
    ensures |a| <= |b|
  {
    if a != {} {
      var x :| x in a;
      SubsetSize(a - {x}, b - {x});
    }
  }
}
